/** Writes beyond the limits of the reader and of the hint loader. */
module StoreLimits {
  import opened Bytes
  import opened Order
  import opened LogEntry
  import opened LogReader
  import opened LogSegment
  import opened KeyIndex
  import opened StoreModel
  import opened StoreInvariant
  import opened StoreMerge
  import opened StoreRefinement
  import opened StoreCrash

  // ---- Payloads that no scan accepts ----

  lemma OversizedReplay(s: State, a: Abs, r: Record)
    requires WellFormed(s) && !s.closed && Rel(s, a) && a.saved == None && Encodable(r)
    ensures ReplayAll(Appended(s.dir.files, s.activeID, r)) ==
      if Scannable(r) then Ok(Indexed(s.dir.files, s.index, s.activeID, r)) else Err(ScanFailed(ErrCorrupt))
  {
    hide Core, Frame, MaxID, Replay, ScanFrom, Scannable, ReplayAll;
    TailReplay(s, a, Frame(r));
    var files, id := s.dir.files, s.activeID;
    assert TailDir(s, Frame(r)).files == Appended(files, id, r);
    if Scannable(r) {
      assert forall j | j in files :: j <= id by { LastActive(s, a); }
      ReplayAppend(files, s.index, id, r);
    } else {
      RestOversized(files[id], r);
    }
  }

  lemma LastActive(s: State, a: Abs)
    requires !s.closed && Core(s, a)
    ensures forall j | j in s.dir.files :: j <= s.activeID
  {
    hide IndexMatches, GoodFiles, MaxID;
    MaxIDAbove(s.segments);
  }

  /** The listing sees a new segment exactly when its name parses. */
  lemma ListedNew(files: Files, id: int)
    requires (forall j | j in files :: 0 <= j < MAX_NAMED_ID) && id !in files && id >= 0
    ensures Listed(files[id := []]) == files.Keys + if id < MAX_NAMED_ID then {id} else {}
  {
    hide SegmentName, ParsedID;
    ListedAll(files);
    NameRoundTrip(id);
    forall j | j in files ensures ParsedID(SegmentName(j)) == Some(j) { NameRoundTrip(j); }
  }

  lemma RotatedRecovers(files: Files, id: int)
    requires (forall j | j in files :: 0 <= j < MAX_NAMED_ID && j < id) && id >= 0
    ensures RecoverIndex(Dir(files[id := []], None)) == ReplayAll(files)
    ensures Listed(files[id := []]) == {} ==> files == map[]
  {
    hide Listed, Replay;
    ListedNew(files, id);
    if id < MAX_NAMED_ID {
      assert files[id := []].Keys == files.Keys + {id};
      ReplayNewSegment(files, id);
    } else {
      assert files.Keys + {} == files.Keys;
      ReplaySame(files, files[id := []], SortedIDs(files.Keys));
    }
  }

  /** A directory without a hint opens again after a Put of any encodable size, whether or not
      the Put rotates, if and only if the payload has at most 2^30 bytes. */
  lemma OversizedPut(s: State, a: Abs, k: Key, v: seq<byte>, max: int)
    requires WellFormed(s) && !s.closed && Rel(s, a) && a.saved == None && |k| > 0 && Encodable(Record(k, v, false))
    ensures OpenStep(PutStep(s, k, v).0.dir, max).Ok? <==> |k| + |v| <= MAX_RECORD_PAYLOAD
  {
    hide GoodFiles, IndexMatches, Frame, MaxID, ReplayAll, Replay, Listed, AllClean, RecoverIndex;
    var r := Record(k, v, false);
    var t := AppendRecord(s, r);
    OversizedReplay(s, a, r);
    assert t.dir.files == Appended(s.dir.files, s.activeID, r) && t.dir.hint == None;
    NamedFiles(s.dir.files);
    assert t.dir.files.Keys == s.dir.files.Keys;
    ListedAll(t.dir.files);
    RecoverListed(t.dir);
    MaxIDAbove(t.segments);
    RotatedRecovers(t.dir.files, MaxID(t.segments) + 1);
    assert s.activeID in t.dir.files;
  }

  /** Get finds what Put wrote, whatever its size and whether or not the Put rotates. */
  lemma PutIsFound(s: State, k: Key, v: seq<byte>)
    requires WellFormed(s) && !s.closed && |k| > 0 && Encodable(Record(k, v, false))
    ensures PutStep(s, k, v).1 == Done && GetReply(PutStep(s, k, v).0, k) == Found(v)
  {
    hide Frame, MaxID, ReadRecordAt;
    var r, data := Record(k, v, false), s.dir.files[s.activeID];
    ReadFrameAt(data, r, [], s.activeID);
    assert data + Frame(r) + [] == data + Frame(r);
    MaxIDAbove(s.segments);
  }

  // ---- Keys that no hint accepts ----

  /** Every location reads back a record of its key, of whatever size. */
  ghost predicate AllLocated(files: Files, m: Table) {
    forall k | k in m :: Located(files, k, m[k]) && |k| < TWO32
  }

  /** The situation of the copying loop after the keys `ks`, without the limits of a scan. */
  ghost predicate CopiedAny(files: Files, index: Table, newID: int, ks: seq<Key>, c: Copy) {
    && c.error == None && newID in c.files && c.files == files[newID := c.files[newID]]
    && (forall k :: k in c.index <==> k in ks)
    && forall k | k in c.index :: InFile(c.index[k], newID, |c.files[newID]|)
  }

  predicate InFile(loc: Location, id: int, length: nat) {
    loc.fileID == id && !loc.tombstone && 0 <= loc.offset && 0 <= loc.size && loc.offset + loc.size <= length
  }

  lemma CopyAnyStep(files: Files, index: Table, newID: int, ks: seq<Key>, c: Copy, k: Key)
    requires AllLocated(files, index) && newID !in files && k in LiveSet(index)
    requires CopiedAny(files, index, newID, ks, c)
    ensures CopiedAny(files, index, newID, ks + [k], CopyOne(c, index[k], newID, k))
  {
    hide ReadRecordAt, Frame;
    assert Located(files, k, index[k]);
    assert c.files[index[k].fileID] == files[index[k].fileID];
  }

  lemma {:induction false} CopyAnySize(files: Files, index: Table, newID: int, ks: seq<Key>)
    requires AllLocated(files, index) && newID !in files
    requires forall k | k in ks :: k in index && k in LiveSet(index)
    ensures CopiedAny(files, index, newID, ks, CopyLive(files, index, newID, ks))
  {
    hide AllLocated, CopyOne;
    if |ks| > 0 {
      var init, k := ks[..|ks| - 1], ks[|ks| - 1];
      CopyAnySize(files, index, newID, init);
      CopyAnyStep(files, index, newID, init, CopyLive(files, index, newID, init), k);
      assert ks == init + [k];
    }
  }

  /** The length of the segment Merge writes. */
  ghost function MergedSize(s: State): nat {
    var newID := MaxID(s.segments) + 1;
    |CopyLive(s.dir.files, s.index, newID, LiveKeys(s.index)).files[newID]|
  }

  /** What one Merge with live keys leaves, whatever the sizes of keys and values. */
  lemma MergeAnySize(s: State)
    requires WellFormed(s) && !s.closed && s.segments == s.dir.files.Keys
    requires AllLocated(s.dir.files, s.index) && LiveSet(s.index) != {} && MergedSize(s) < TWO63
    requires MaxID(s.segments) + 1 < MAX_NAMED_ID
    ensures var (t, reply) := MergeStep(s); var newID := MaxID(s.segments) + 1;
      && reply == Done && t.index.Keys == LiveSet(s.index) && t.dir.files.Keys == {newID}
      && t.dir.hint == Some(HintBytes(t.index)) && forall k | k in t.index :: Storable(k, t.index[k])
  {
    hide AllLocated, CopyLive, HintBytes, MaxID, LiveKeys, LiveSet;
    LiveKeysList(s.index);
    MaxIDAbove(s.segments);
    var newID := MaxID(s.segments) + 1;
    var c := CopyLive(s.dir.files, s.index, newID, LiveKeys(s.index));
    CopyAnySize(s.dir.files, s.index, newID, LiveKeys(s.index));
    assert c.index.Keys == LiveSet(s.index);
    assert (c.files - s.dir.files.Keys).Keys == {newID};
    ShortKeys(s.dir.files, s.index);
    forall k | k in c.index ensures Storable(k, c.index[k]) { assert InFile(c.index[k], newID, |c.files[newID]|); }
  }

  lemma ShortKeys(files: Files, m: Table)
    requires AllLocated(files, m)
    ensures forall k | k in LiveSet(m) :: |k| < TWO32
  {
  }

  /** After a Merge the directory opens again if and only if the loader accepts the hint: at most
      2^28 live keys, none above 2^24 bytes. */
  lemma MergeReopens(s: State, max: int)
    requires WellFormed(s) && !s.closed && s.segments == s.dir.files.Keys
    requires AllLocated(s.dir.files, s.index) && LiveSet(s.index) != {} && MergedSize(s) < TWO63
    requires MaxID(s.segments) + 1 < MAX_NAMED_ID && |LiveSet(s.index)| < TWO64
    ensures var o := OpenStep(MergeStep(s).0.dir, max);
      if |LiveSet(s.index)| <= MAX_HINT_ENTRIES && forall k | k in LiveSet(s.index) :: |k| <= MAX_HINT_KEY
      then o.Ok? else o == Err(HintMalformed)
  {
    hide AllLocated, HintBytes, ParseHint, MaxID, LiveSet, MergedSize, MergeStep, Listed, Storable;
    MergeAnySize(s);
    var t := MergeStep(s).0;
    HintRoundTrip(t.index, []);
    assert HintBytes(t.index) + [] == HintBytes(t.index);
    assert |t.index| == |t.index.Keys|;
    MaxIDAbove(s.segments);
    ListedAll(t.dir.files);
  }

  /** A Put keeps every location readable. */
  lemma PutLocated(s: State, a: Abs, k: Key, v: seq<byte>)
    requires WellFormed(s) && !s.closed && Rel(s, a) && |k| > 0 && Encodable(Record(k, v, false))
    ensures var t := PutStep(s, k, v).0;
      && WellFormed(t) && !t.closed && t.segments == t.dir.files.Keys && AllLocated(t.dir.files, t.index)
      && LiveSet(t.index) == LiveSet(s.index) + {k} && forall j | j in LiveSet(s.index) :: |j| <= MAX_HINT_KEY
  {
    hide GoodFiles, Live, LiveBytes, TotalBytes, HintMatches, ReadRecordAt, Frame, MaxID;
    var r := Record(k, v, false);
    var t := AppendRecord(s, r);
    MaxIDAbove(t.segments);
    WrittenLocated(s, r);
    forall j | j in s.index ensures Located(t.dir.files, j, s.index[j]) {
      assert Located(s.dir.files, j, s.index[j]);
      LocatedStable(s.dir.files, t.dir.files, j, s.index[j]);
    }
    var u := PutStep(s, k, v).0;
    forall j | j in u.index ensures Located(u.dir.files, j, u.index[j]) && |j| < TWO32 {
      assert Located(t.dir.files, j, t.index[j]);
      LocatedStable(t.dir.files, u.dir.files, j, t.index[j]);
    }
  }

  lemma WrittenLocated(s: State, r: Record)
    requires WellFormed(s) && !s.closed && Encodable(r)
    ensures var t := AppendRecord(s, r); Located(t.dir.files, r.key, t.index[r.key])
  {
    hide ReadRecordAt, Frame;
    var data := s.dir.files[s.activeID];
    ReadFrameAt(data, r, [], s.activeID);
    assert data + Frame(r) + [] == data + Frame(r);
  }

  /** A Put of any key succeeds, and so does a Merge after it, but the directory then opens again
      if and only if the key has at most 2^24 bytes. */
  lemma OversizedKey(s: State, a: Abs, k: Key, v: seq<byte>, max: int)
    requires WellFormed(s) && !s.closed && Rel(s, a) && |k| > 0 && Encodable(Record(k, v, false))
    requires var t := PutStep(s, k, v).0;
      MaxID(t.segments) + 1 < MAX_NAMED_ID && |LiveSet(t.index)| <= MAX_HINT_ENTRIES && MergedSize(t) < TWO63
    ensures var (u, reply) := MergeStep(PutStep(s, k, v).0);
      && reply == Done
      && if |k| <= MAX_HINT_KEY then OpenStep(u.dir, max).Ok? else OpenStep(u.dir, max) == Err(HintMalformed)
  {
    hide Rel, PutStep, MergeStep, OpenStep, LiveSet, MaxID, MergedSize, AllLocated;
    PutLocated(s, a, k, v);
    var t := PutStep(s, k, v).0;
    assert k in LiveSet(t.index);
    MergeAnySize(t);
    MergeReopens(t, max);
  }
}
