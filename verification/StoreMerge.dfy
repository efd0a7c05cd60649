/** What the copying loop of Merge builds. */
module StoreMerge {
  import opened Bytes
  import opened Order
  import opened LogEntry
  import opened LogReader
  import opened LogSegment
  import opened KeyIndex
  import opened StoreModel
  import opened StoreInvariant

  /** One live record per key, in the order of the keys. */
  function MergedRecords(ks: seq<Key>, vals: Values): (rs: seq<Record>)
    requires forall k | k in ks :: k in vals
    ensures |rs| == |ks|
  {
    if |ks| == 0 then [] else
    MergedRecords(ks[..|ks| - 1], vals) + [Record(ks[|ks| - 1], vals[ks[|ks| - 1]], false)]
  }

  /** The canonical log of a map: its live records in key order. */
  ghost function CanonicalLog(vals: Values): seq<byte> {
    FrameAll(MergedRecords(SortedKeys(vals.Keys), vals))
  }

  /** The situation of Merge when the keys `ks` have been copied. */
  ghost predicate CopiedFiles(files: Files, index: Table, newID: int, ks: seq<Key>, c: Copy) {
    && c.error == None
    && newID in c.files && c.files == files[newID := c.files[newID]]
    && (forall k | k in ks :: k in Live(files, index))
    && c.files[newID] == FrameAll(MergedRecords(ks, Live(files, index)))
    && Clean(c.files[newID])
  }

  ghost predicate CopiedIndex(files: Files, index: Table, newID: int, ks: seq<Key>, c: Copy) {
    && (forall k :: k in c.index <==> k in ks)
    && (forall k | k in c.index ::
          k in index && c.index[k].fileID == newID && !c.index[k].tombstone && c.index[k].size == index[k].size)
    && GoodIndex(c.files, c.index)
    && (forall k | k in c.index :: k in LiveSet(index) && ValueAt(c.files, c.index[k]) == ValueAt(files, index[k]))
  }

  ghost predicate CopiedLog(newID: int, c: Copy) {
    && newID in c.files
    && |c.files[newID]| == LiveBytes(c.index)
    && ReplayAll(map[newID := c.files[newID]]) == Ok(c.index)
  }

  ghost predicate Copied(files: Files, index: Table, newID: int, ks: seq<Key>, c: Copy) {
    CopiedFiles(files, index, newID, ks, c) && CopiedIndex(files, index, newID, ks, c) && CopiedLog(newID, c)
  }

  function LiveRecord(files: Files, index: Table, k: Key): Record
    requires k in index
  {
    Record(k, ValueAt(files, index[k]), false)
  }

  /** One round of the loop reads the record back intact and appends it. */
  lemma CopyOneIsAppend(files: Files, index: Table, newID: int, c: Copy, k: Key)
    requires GoodIndex(files, index) && newID !in files && k in LiveSet(index)
    requires c.error == None && newID in c.files && c.files == files[newID := c.files[newID]]
    ensures var r := LiveRecord(files, index, k);
      && GoodRecord(r) && |Frame(r)| == index[k].size
      && CopyOne(c, index[k], newID, k) == Copy(Appended(c.files, newID, r), Indexed(c.files, c.index, newID, r), None)
  {
    hide ReadRecordAt, Frame;
    assert Located(files, k, index[k]);
    LocatedFile(files, k, index[k]);
    FrameSize(LiveRecord(files, index, k));
    assert c.files[index[k].fileID] == files[index[k].fileID];
  }

  lemma LiveAt(files: Files, index: Table, k: Key)
    requires k in LiveSet(index)
    ensures k in Live(files, index) && Live(files, index)[k] == ValueAt(files, index[k])
  {
    hide ValueAt;
  }

  lemma CopyStepFiles(files: Files, index: Table, newID: int, ks: seq<Key>, c: Copy, k: Key)
    requires GoodIndex(files, index) && newID !in files && k in LiveSet(index)
    requires CopiedFiles(files, index, newID, ks, c)
    ensures CopiedFiles(files, index, newID, ks + [k], CopyOne(c, index[k], newID, k))
  {
    hide Frame, Clean, ValueAt, CopyOne, GoodIndex, MergedRecords, FrameAll, Live, Appended, Indexed;
    CopyOneIsAppend(files, index, newID, c, k);
    LiveAt(files, index, k);
    var r := LiveRecord(files, index, k);
    AppendedTo(files, c.files, newID, r);
    ScanAppend(c.files[newID], r);
    MergedRecordsStep(ks, k, Live(files, index));
  }

  lemma AppendedTo(files: Files, copied: Files, newID: int, r: Record)
    requires newID in copied && copied == files[newID := copied[newID]]
    ensures var data := copied[newID] + Frame(r);
      var after := Appended(copied, newID, r);
      newID in after && after[newID] == data && after == files[newID := data]
  {
    hide Frame;
  }

  lemma MergedRecordsStep(ks: seq<Key>, k: Key, vals: Values)
    requires k in vals && forall j | j in ks :: j in vals
    ensures forall j | j in ks + [k] :: j in vals
    ensures FrameAll(MergedRecords(ks + [k], vals)) ==
      FrameAll(MergedRecords(ks, vals)) + Frame(Record(k, vals[k], false))
  {
    hide Frame;
    var rs, r := MergedRecords(ks, vals), Record(k, vals[k], false);
    assert (ks + [k])[..|ks|] == ks;
    assert MergedRecords(ks + [k], vals) == rs + [r];
    assert (rs + [r])[..|rs|] == rs;
  }

  lemma CopyStepIndex(files: Files, index: Table, newID: int, ks: seq<Key>, c: Copy, k: Key)
    requires GoodIndex(files, index) && newID !in files && k in LiveSet(index)
    requires c.error == None && newID in c.files && c.files == files[newID := c.files[newID]]
    requires CopiedIndex(files, index, newID, ks, c)
    ensures CopiedIndex(files, index, newID, ks + [k], CopyOne(c, index[k], newID, k))
  {
    hide Located, CopyOne, GoodIndex, Frame, ValueAt;
    CopyOneIsAppend(files, index, newID, c, k);
    var r := LiveRecord(files, index, k);
    var files', m' := Appended(c.files, newID, r), Indexed(c.files, c.index, newID, r);
    AppendGood(c.files, c.index, newID, r);
    forall j | j in m' ensures ValueAt(files', m'[j]) == ValueAt(files, index[j]) {
      assert Live(files', m')[j] == Applied(Live(c.files, c.index), r)[j];
    }
  }

  lemma CopyStepLog(files: Files, index: Table, newID: int, c: Copy, k: Key)
    requires GoodIndex(files, index) && newID !in files && k in LiveSet(index) && k !in c.index
    requires c.error == None && newID in c.files && c.files == files[newID := c.files[newID]]
    requires Clean(c.files[newID]) && CopiedLog(newID, c)
    ensures CopiedLog(newID, CopyOne(c, index[k], newID, k))
  {
    hide Located, CopyOne, GoodIndex, Frame, ValueAt, ReplayAll, Clean, LiveBytes, TotalBytes;
    CopyOneIsAppend(files, index, newID, c, k);
    var r := LiveRecord(files, index, k);
    var alone := map[newID := c.files[newID]];
    ReplayAppend(alone, c.index, newID, r);
    AppendSizes(c.files, c.index, newID, r);
    assert Appended(alone, newID, r) == map[newID := c.files[newID] + Frame(r)];
  }

  lemma CopyStart(files: Files, index: Table, newID: int)
    requires newID !in files
    ensures Copied(files, index, newID, [], CopyLive(files, index, newID, []))
  {
    ScanEnd([]);
    var none: Files := map[];
    ReplayNewSegment(none, newID);
    assert none[newID := []] == map[newID := []];
    assert LiveSizes(map[]) == map[];
  }

  lemma {:induction false} CopyLiveGood(files: Files, index: Table, newID: int, ks: seq<Key>)
    requires GoodIndex(files, index) && newID !in files
    requires Distinct(ks) && forall k | k in ks :: k in index && k in LiveSet(index)
    ensures Copied(files, index, newID, ks, CopyLive(files, index, newID, ks))
  {
    hide GoodIndex, CopyOne, Copied;
    if |ks| == 0 {
      CopyStart(files, index, newID);
    } else {
      var init, k := ks[..|ks| - 1], ks[|ks| - 1];
      CopyLiveGood(files, index, newID, init);
      assert ks == init + [k] && k !in init;
      CopyStep(files, index, newID, init, CopyLive(files, index, newID, init), k);
    }
  }

  lemma CopyStep(files: Files, index: Table, newID: int, ks: seq<Key>, c: Copy, k: Key)
    requires GoodIndex(files, index) && newID !in files && k in LiveSet(index) && k !in ks
    requires Copied(files, index, newID, ks, c)
    ensures Copied(files, index, newID, ks + [k], CopyOne(c, index[k], newID, k))
  {
    hide GoodIndex, CopyOne, CopiedLog, Live, MergedRecords, FrameAll, Clean;
    CopyStepFiles(files, index, newID, ks, c, k);
    CopyStepIndex(files, index, newID, ks, c, k);
    CopyStepLog(files, index, newID, c, k);
  }

  // ---- The finished Merge ----

  lemma LiveKeysList(m: Table)
    ensures var ks := LiveKeys(m);
      && Distinct(ks) && (forall k :: k in ks <==> k in LiveSet(m)) && (|ks| == 0 <==> LiveSet(m) == {})
  {
    SortedKeysLength(LiveSet(m));
  }

  /** When every live key has been copied, the new index denotes the old map. */
  lemma CopiedAll(files: Files, index: Table, newID: int, ks: seq<Key>, c: Copy)
    requires CopiedIndex(files, index, newID, ks, c) && newID in c.files
    requires forall k :: k in ks <==> k in LiveSet(index)
    ensures var alone := map[newID := c.files[newID]];
      && GoodIndex(alone, c.index) && Live(alone, c.index) == Live(files, index)
      && c.index.Keys == LiveSet(index) && LiveBytes(c.index) == LiveBytes(index)
  {
    hide GoodIndex, Located, ValueAt, Sum;
    var alone := map[newID := c.files[newID]];
    IndexStable(c.files, alone, c.index);
    assert LiveSet(c.index) == LiveSet(index);
    assert LiveSizes(c.index) == LiveSizes(index);
    forall k | k in LiveSet(index) ensures Live(alone, c.index)[k] == Live(files, index)[k] {
      assert Live(alone, c.index)[k] == Live(c.files, c.index)[k];
    }
  }

  /** The new segment alone holds the whole map, in canonical form. */
  lemma MergedSegment(files: Files, index: Table, newID: int)
    requires GoodIndex(files, index) && newID !in files
    ensures var c := CopyLive(files, index, newID, LiveKeys(index));
      var data := c.files[newID]; var alone := map[newID := data];
      && c.error == None && c.files - files.Keys == alone
      && data == CanonicalLog(Live(files, index)) && |data| == LiveBytes(index)
      && Clean(data) && GoodIndex(alone, c.index) && Live(alone, c.index) == Live(files, index)
      && ReplayAll(alone) == Ok(c.index)
      && (forall k | k in c.index :: !c.index[k].tombstone) && c.index.Keys == LiveSet(index)
      && LiveBytes(c.index) == LiveBytes(index) && TotalBytes(alone) == |data|
  {
    hide GoodIndex, Located, ValueAt, CopyOne, CopyLive, ReplayAll, Clean, LiveBytes, TotalBytes, FrameAll;
    hide MergedRecords;
    LiveKeysList(index);
    var ks := LiveKeys(index);
    CopyLiveGood(files, index, newID, ks);
    var c := CopyLive(files, index, newID, ks);
    CopiedAll(files, index, newID, ks, c);
    TotalAlone(newID, c.files[newID]);
    assert Live(files, index).Keys == LiveSet(index);
  }

  lemma TotalAlone(id: int, data: seq<byte>)
    ensures TotalBytes(map[id := data]) == |data|
  {
    var none: Files := map[];
    assert FileSizes(none) == map[] && FileSizes(map[id := data]) == FileSizes(none)[id := |data|];
    SumPut(FileSizes(none), id, |data|);
  }

  /** Locations that read back fit the 64-bit fields of the hint file. */
  lemma GoodStorable(files: Files, m: Table)
    requires GoodFiles(files) && GoodIndex(files, m)
    ensures forall k | k in m :: Storable(k, m[k]) && Loadable(k)
  {
    hide Located, Clean;
    forall k | k in m ensures Storable(k, m[k]) && Loadable(k) {
      LocatedFile(files, k, m[k]);
    }
  }

  lemma HintGood(files: Files, m: Table)
    requires GoodFiles(files) && GoodIndex(files, m) && |m| <= MAX_HINT_ENTRIES
    ensures ParseHint(HintBytes(m)) == Some(Loaded(m, |HintBytes(m)|))
  {
    hide GoodFiles, GoodIndex, HintBytes, ParseHint, Storable, Loadable;
    GoodStorable(files, m);
    HintRoundTrip(m, []);
    assert HintBytes(m) + [] == HintBytes(m);
  }
}
