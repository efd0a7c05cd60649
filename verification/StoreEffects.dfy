/** What one call on a reachable store does to its directory, its index and its segments, told in
    sizes, bytes and IDs. */
module StoreEffects {
  import opened Bytes
  import opened Order
  import opened LogEntry
  import opened LogReader
  import opened LogSegment
  import opened KeyIndex
  import opened StoreModel
  import opened StoreInvariant
  import opened StoreMerge
  import opened StoreRefinement
  import opened StoreRuns
  import opened StoreTheorems

  // ---- Put and Delete ----

  /** A Put writes one record at the end of the active segment and points the key at it.  The
      active segment and the set of segments are kept if and only if there is no limit or the
      record fits under it; otherwise one empty segment, numbered right above all others, is
      added and becomes active. */
  lemma PutEffect(s: State, a: Abs, k: Key, v: seq<byte>)
    requires Reachable(s, a) && WellFormed(s) && !s.closed && |k| > 0
    ensures var (t, reply) := PutStep(s, k, v);
      var n, size := |s.dir.files[s.activeID]|, PREFIX_SIZE + |k| + |v|;
      var written := s.dir.files[s.activeID := s.dir.files[s.activeID] + Frame(Record(k, v, false))];
      var fits := s.maxFileSize <= 0 || n + size <= s.maxFileSize;
      && reply == Done && !t.closed && t.maxFileSize == s.maxFileSize && t.dir.hint == s.dir.hint
      && t.index == s.index[k := Location(s.activeID, n, size, false)]
      && (t.activeID == s.activeID && t.segments == s.segments <==> fits)
      && if fits then t.dir.files == written
         else t.dir.files == written[t.activeID := []] && t.segments == s.segments + {t.activeID}
              && t.activeID - 1 in s.segments && forall id | id in s.dir.files :: id < t.activeID
  {
    hide Reachable, IndexMatches, HintMatches, Frame, MaxID;
    ReachableRel(s, a);
    FrameSize(Record(k, v, false));
    var t := AppendRecord(s, Record(k, v, false));
    assert t.segments == t.dir.files.Keys;
    MaxIDAbove(t.segments);
  }

  /** A Delete writes its tombstone in the same way and never adds a segment. */
  lemma DeleteEffect(s: State, k: Key)
    requires WellFormed(s) && !s.closed && |k| > 0
    ensures var (t, reply) := DeleteStep(s, k);
      var data := s.dir.files[s.activeID];
      && reply == Done && t.segments == s.segments && t.activeID == s.activeID
      && !t.closed && t.maxFileSize == s.maxFileSize && t.dir.hint == s.dir.hint
      && t.dir.files == s.dir.files[s.activeID := data + Frame(Record(k, [], true))]
      && t.index == s.index[k := Location(s.activeID, |data|, PREFIX_SIZE + |k|, true)]
  {
    hide Frame;
    FrameSize(Record(k, [], true));
  }

  // ---- Calls that fail ----

  lemma {:induction false} CopyKeepsOthers(files: Files, index: Table, newID: int, ks: seq<Key>)
    requires newID !in files && forall k | k in ks :: k in index
    ensures CopyLive(files, index, newID, ks).files - {newID} == files
  {
    hide ReadRecordAt, Frame;
    if |ks| > 0 {
      var init := ks[..|ks| - 1];
      CopyKeepsOthers(files, index, newID, init);
      var c, d := CopyLive(files, index, newID, init), CopyLive(files, index, newID, ks);
      assert forall id | id in files :: c.files[id] == (c.files - {newID})[id];
      assert forall id | id in files :: d.files[id] == c.files[id];
    }
  }

  /** A write fails exactly on a closed store or an empty key, in that order, and then changes
      nothing; Get and Merge fail in the same way on a closed store.  A Merge that fails on an open
      store leaves behind no more than the file of the new segment. */
  lemma FailedCalls(s: State, k: Key, v: seq<byte>)
    requires WellFormed(s)
    ensures var failure := if s.closed then Failed(Closed) else if k == [] then Failed(EmptyKey) else Done;
      && PutStep(s, k, v).1 == failure && DeleteStep(s, k).1 == failure
      && (failure != Done ==> PutStep(s, k, v).0 == s && DeleteStep(s, k).0 == s)
    ensures s.closed ==> MergeStep(s) == (s, Failed(Closed)) && GetReply(s, k) == Failed(Closed)
    ensures var (t, newID) := (MergeStep(s).0, MaxID(s.segments) + 1);
      !s.closed && MergeStep(s).1.Failed? && newID !in s.dir.files ==>
        t == s.(dir := s.dir.(files := t.dir.files)) && t.dir.files - {newID} == s.dir.files
  {
    hide Frame, MaxID, CopyLive, HintBytes, LiveKeys, AppendRecord;
    if !s.closed && MaxID(s.segments) + 1 !in s.dir.files {
      LiveKeysList(s.index);
      CopyKeepsOthers(s.dir.files, s.index, MaxID(s.segments) + 1, LiveKeys(s.index));
    }
  }

  // ---- What Merge writes ----

  lemma LiveScannable(files: Files, index: Table, k: Key)
    requires GoodIndex(files, index) && k in LiveSet(index)
    ensures Scannable(LiveRecord(files, index, k))
  {
    hide ReadRecordAt;
    assert Located(files, k, index[k]);
    LocatedFile(files, k, index[k]);
  }

  lemma {:induction false} MergedEntries(ks: seq<Key>, vals: Values)
    requires forall k | k in ks :: k in vals
    ensures forall r | r in MergedRecords(ks, vals) :: r.key in ks && r == Record(r.key, vals[r.key], false)
    ensures forall i | 0 <= i < |ks| ::
      var e := EntriesOf(MergedRecords(ks, vals))[i];
      e.key == ks[i] && e.value == vals[ks[i]] && !e.tombstone
  {
    hide Frame, FrameAll;
    if |ks| > 0 {
      var init := ks[..|ks| - 1];
      MergedEntries(init, vals);
      var rs := MergedRecords(ks, vals);
      assert rs[..|rs| - 1] == MergedRecords(init, vals);
    }
  }

  /** Reading the segment a Merge has written from its start to its end gives the live keys in
      order, each once, with the value it had. */
  lemma MergedScan(s: State, a: Abs)
    requires Reachable(s, a) && WellFormed(s) && !s.closed && a.cur != map[]
    ensures var t, ks := MergeStep(s).0, SortedKeys(a.cur.Keys);
      && t.activeID in t.dir.files
      && var scan := ScanFrom(t.dir.files[t.activeID], 0);
      && scan.error == ErrEOF && |scan.entries| == |ks|
      && forall i | 0 <= i < |ks| ::
           scan.entries[i].key == ks[i] && scan.entries[i].value == a.cur[ks[i]] && !scan.entries[i].tombstone
  {
    hide Reachable, HintMatches, GoodIndex, SegmentsMatch, MergeStep, FrameAll, MergedRecords, Scannable, LiveBytes;
    hide EntriesOf, ValueAt, TotalBytes, GoodFiles, ScanFrom;
    ReachableRel(s, a);
    MergeIsCanonical(s, a);
    var ks := SortedKeys(a.cur.Keys);
    MergedEntries(ks, a.cur);
    var rs := MergedRecords(ks, a.cur);
    forall r | r in rs ensures Scannable(r) {
      assert r.key in Live(s.dir.files, s.index);
      LiveScannable(s.dir.files, s.index, r.key);
    }
    ScanRoundTrip(rs);
  }

  // ---- Open ----

  /** Open keeps the caller's limit and the hint.  It opens the segments whose IDs have a name of
      ten digits, the greatest of them active; without any, segment 1 is created empty. */
  lemma OpenedIs(dir: Dir, max: int)
    requires OpenStep(dir, max).Ok?
    ensures var t := OpenStep(dir, max).value;
      var named := set id | id in dir.files && 0 <= id < MAX_NAMED_ID;
      && !t.closed && t.maxFileSize == max && t.dir.hint == dir.hint
      && t.activeID in t.segments && (forall id | id in t.segments :: id <= t.activeID)
      && if named == {} then t.segments == {1} && t.index == map[] && t.dir.files == dir.files[1 := []]
         else t.segments == named && t.dir == dir
  {
    hide SegmentName, ParsedID, RecoverIndex, MaxID;
    forall id | id in dir.files
      ensures ParsedID(SegmentName(id)) == if 0 <= id < MAX_NAMED_ID then Some(id) else None
    {
      NameRoundTrip(id);
    }
    var named := set id | id in dir.files && 0 <= id < MAX_NAMED_ID;
    assert Listed(dir.files) == named && (1 in dir.files ==> 1 in named);
  }
}
