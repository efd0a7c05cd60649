/** Stopping in the middle: crash points of Merge, and torn appends. */
module StoreCrash {
  import opened Bytes
  import opened Order
  import opened LogEntry
  import opened LogReader
  import opened LogSegment
  import opened KeyIndex
  import opened StoreModel
  import opened StoreInvariant
  import opened StoreMerge
  import opened StoreRefinement
  import Crc32

  ghost function NewID(s: State): int {
    MaxID(s.segments) + 1
  }

  /** The copying loop after i live records. */
  ghost function CopiedSoFar(s: State, i: nat): (c: Copy)
    requires i <= |LiveKeys(s.index)|
    ensures NewID(s) in c.files
  {
    CopyLive(s.dir.files, s.index, NewID(s), LiveKeys(s.index)[..i])
  }

  /** The directory after i records have been appended to the new segment. */
  ghost function AfterAppends(s: State, i: nat): Dir
    requires i <= |LiveKeys(s.index)|
  {
    s.dir.(files := CopiedSoFar(s, i).files)
  }

  /** The directory when the first `cut` bytes of the hint file have been written; creating
      the file discards an older hint. */
  ghost function DuringHint(s: State, cut: nat): Dir
    requires cut <= |HintBytes(CopiedSoFar(s, |LiveKeys(s.index)|).index)|
  {
    var c := CopiedSoFar(s, |LiveKeys(s.index)|);
    Dir(c.files, Some(HintBytes(c.index)[..cut]))
  }

  /** The directory when the hint is complete and the segments `gone` have been removed. */
  ghost function AfterRemovals(s: State, gone: set<int>): Dir {
    var c := CopiedSoFar(s, |LiveKeys(s.index)|);
    Dir(c.files - gone, Some(HintBytes(c.index)))
  }

  ghost predicate Merging(s: State, a: Abs) {
    WellFormed(s) && Rel(s, a) && !s.closed && LiveSet(s.index) != {} && Allowed(s, Merge)
  }

  // ---- While records are being copied ----

  /** The store as it would be if the copied records were ordinary writes to a new segment. */
  ghost function AsIfWritten(s: State, i: nat): State
    requires i <= |LiveKeys(s.index)|
  {
    var c := CopiedSoFar(s, i);
    s.(dir := AfterAppends(s, i), index := s.index + c.index, segments := s.segments + {NewID(s)}, activeID := NewID(s))
  }

  lemma CopiedSoFarGood(s: State, a: Abs, i: nat)
    requires Merging(s, a) && i <= |LiveKeys(s.index)|
    ensures var c := CopiedSoFar(s, i); var ks := LiveKeys(s.index)[..i];
      && NewID(s) !in s.dir.files && Copied(s.dir.files, s.index, NewID(s), ks, c)
      && WellFormed(AsIfWritten(s, i))
  {
    hide GoodIndex, Live, LiveBytes, TotalBytes, HintMatches, GoodFiles, MaxID, Copied, CopyLive;
    var ks := LiveKeys(s.index);
    LiveKeysList(s.index);
    MaxIDAbove(s.segments);
    assert Distinct(ks[..i]);
    CopyLiveGood(s.dir.files, s.index, NewID(s), ks[..i]);
  }

  lemma StartIsRotate(s: State, a: Abs)
    requires Merging(s, a)
    ensures AsIfWritten(s, 0) == Rotate(s)
  {
    hide IndexMatches, HintMatches, GoodFiles, MaxID, LiveKeys;
    MaxIDAbove(s.segments);
    assert LiveKeys(s.index)[..0] == [];
    var none: Table := map[];
    assert s.index + none == s.index;
  }

  lemma {:induction false} CopyGrows(s: State, i: nat, j: nat)
    requires i <= j <= |LiveKeys(s.index)|
    ensures |CopiedSoFar(s, i).files[NewID(s)]| <= |CopiedSoFar(s, j).files[NewID(s)]|
    decreases j
  {
    hide CopyLive, CopyOne, MaxID, LiveKeys;
    if i < j {
      CopyGrows(s, i, j - 1);
      NextIsCopyOne(s, j - 1);
    }
  }

  /** The new segment never exceeds the live bytes it is made of. */
  lemma CopyBounded(s: State, a: Abs, i: nat)
    requires Merging(s, a) && i <= |LiveKeys(s.index)|
    ensures |CopiedSoFar(s, i).files[NewID(s)]| <= LiveBytes(s.index)
  {
    hide GoodIndex, Live, LiveBytes, TotalBytes, HintMatches, GoodFiles, MaxID, CopyLive, LiveKeys, Clean;
    hide ReplayAll, CanonicalLog;
    var ks := LiveKeys(s.index);
    CopyGrows(s, i, |ks|);
    assert ks[..|ks|] == ks;
    MaxIDAbove(s.segments);
    MergedSegment(s.dir.files, s.index, NewID(s));
  }

  lemma NextIsCopyOne(s: State, i: nat)
    requires i < |LiveKeys(s.index)|
    ensures var k := LiveKeys(s.index)[i];
      k in s.index && CopiedSoFar(s, i + 1) == CopyOne(CopiedSoFar(s, i), s.index[k], NewID(s), k)
  {
    hide CopyOne, LiveKeys, MaxID;
    var ks := LiveKeys(s.index);
    assert ks[..i + 1][..i] == ks[..i];
  }

  lemma NextCopy(s: State, a: Abs, i: nat)
    requires Merging(s, a) && i < |LiveKeys(s.index)|
    ensures var k := LiveKeys(s.index)[i];
      && k in s.index && k in LiveSet(s.index)
      && var r := LiveRecord(s.dir.files, s.index, k); var c := CopiedSoFar(s, i);
         && GoodRecord(r)
         && CopiedSoFar(s, i + 1) == Copy(Appended(c.files, NewID(s), r), Indexed(c.files, c.index, NewID(s), r), None)
         && |c.files[NewID(s)]| + |Frame(r)| <= LiveBytes(s.index)
  {
    hide GoodIndex, Live, LiveKeys, LiveBytes, TotalBytes, HintMatches, GoodFiles, MaxID, CopyOne, Frame;
    hide LiveRecord, Indexed, GoodRecord, CopiedIndex, CopiedLog;
    hide CopiedSoFar, FrameAll, MergedRecords, Clean;
    var ks := LiveKeys(s.index);
    LiveKeysList(s.index);
    CopiedSoFarGood(s, a, i);
    NextIsCopyOne(s, i);
    CopyOneIsAppend(s.dir.files, s.index, NewID(s), CopiedSoFar(s, i), ks[i]);
    CopyBounded(s, a, i + 1);
  }

  /** Copying a live record has the effect of writing its value once more. */
  lemma NextIsAppend(s: State, a: Abs, i: nat)
    requires Merging(s, a) && i < |LiveKeys(s.index)|
    ensures WellFormed(AsIfWritten(s, i))
    ensures var k := LiveKeys(s.index)[i];
      && k in LiveSet(s.index)
      && var r := LiveRecord(s.dir.files, s.index, k);
         && AsIfWritten(s, i + 1) == AppendRecord(AsIfWritten(s, i), r)
         && a.cur == Applied(a.cur, r)
  {
    hide IndexMatches, HintMatches, GoodFiles, MaxID, CopiedSoFar, Frame, ValueAt, Copied, LiveKeys;
    hide LiveBytes, Applied, LiveSet;
    CopiedSoFarGood(s, a, i);
    NextCopy(s, a, i);
    var k := LiveKeys(s.index)[i];
    var r, c := LiveRecord(s.dir.files, s.index, k), CopiedSoFar(s, i);
    assert s.index + Indexed(c.files, c.index, NewID(s), r) == Indexed(c.files, s.index + c.index, NewID(s), r);
    SameValue(s.dir.files, s.index, a.cur, k);
  }

  lemma SameValue(files: Files, m: Table, vals: Values, k: Key)
    requires IndexMatches(files, m, vals) && k in LiveSet(m)
    ensures Applied(vals, LiveRecord(files, m, k)) == vals
  {
    hide GoodIndex, ValueAt, LiveBytes, TotalBytes;
  }

  lemma {:induction false} CopyingRel(s: State, a: Abs, i: nat)
    requires Merging(s, a) && i <= |LiveKeys(s.index)|
    ensures WellFormed(AsIfWritten(s, i)) && Rel(AsIfWritten(s, i), a)
    decreases i
  {
    hide Rel, AsIfWritten, AppendRecord, Frame, GoodRecord, LiveRecord, Applied, MaxID, LiveKeys, LiveBytes;
    hide CopiedSoFar, Copied;
    if i == 0 {
      StartIsRotate(s, a);
      CopiedSoFarGood(s, a, 0);
      RotateRel(s, a);
    } else {
      CopyingRel(s, a, i - 1);
      NextIsAppend(s, a, i - 1);
      NextCopy(s, a, i - 1);
      CopiedSoFarGood(s, a, i);
      AsIfWrittenFields(s, i - 1);
      AppendRel(AsIfWritten(s, i - 1), a, LiveRecord(s.dir.files, s.index, LiveKeys(s.index)[i - 1]));
    }
  }

  lemma AsIfWrittenFields(s: State, i: nat)
    requires i <= |LiveKeys(s.index)|
    ensures var t := AsIfWritten(s, i);
      && t.closed == s.closed && t.activeID == NewID(s) && t.dir == AfterAppends(s, i)
      && t.dir.files == CopiedSoFar(s, i).files
  {
  }

  /** What Open brings back: the map of an older hint when there is one. */
  function Recovered(a: Abs): Abs {
    Abs(if a.saved.Some? then a.saved.value else a.cur, a.saved, false)
  }

  /** Stopping after any number of copied records and reopening is like reopening before the
      Merge: the current map, or the one an older hint stands for.  The reopened store then
      runs on like any other. */
  lemma CrashWhileCopying(s: State, a: Abs, i: nat, n: int)
    requires Merging(s, a) && i <= |LiveKeys(s.index)|
    ensures var o := OpenStep(AfterAppends(s, i), n);
      o.Ok? && Rel(o.value, Recovered(a))
  {
    hide GoodFiles, IndexMatches, HintMatches, AsIfWritten, OpenStep, MaxID, LiveKeys, CopiedSoFar, LiveBytes;
    CopyingRel(s, a, i);
    AsIfWrittenFields(s, i);
    var t := CloseStep(AsIfWritten(s, i));
    OpenRel(t, a.(closed := true), n);
  }

  // ---- While the hint is being written ----

  lemma FinalCopy(s: State, a: Abs)
    requires Merging(s, a)
    ensures var c := CopiedSoFar(s, |LiveKeys(s.index)|); var alone := map[NewID(s) := c.files[NewID(s)]];
      && NewID(s) !in s.dir.files && c.files - s.dir.files.Keys == alone
      && GoodFiles(alone) && GoodFiles(c.files)
      && GoodIndex(alone, c.index) && Live(alone, c.index) == a.cur && LiveBytes(c.index) == TotalBytes(alone)
      && |c.index| <= MAX_HINT_ENTRIES && (forall k | k in c.index :: !c.index[k].tombstone)
      && MergeStep(s) == (Merged(s, NewID(s), c), Done)
  {
    hide GoodIndex, GoodFiles, Live, LiveBytes, TotalBytes, Rel, Merging, Allowed, CopiedSoFar, MaxID;
    hide CopyLive, LiveKeys, Clean, ReplayAll, CanonicalLog, MergeStep, Merged, Copied;
    MergingFacts(s, a);
    AllCopied(s);
    MaxIDAbove(s.segments);
    MergedSegment(s.dir.files, s.index, NewID(s));
    MergeIsMerged(s);
    var c := CopiedSoFar(s, |LiveKeys(s.index)|);
    assert |c.index| == |c.index.Keys|;
    FinalFiles(s, a);
    OneGoodFile(c.files, NewID(s));
  }

  lemma MergingFacts(s: State, a: Abs)
    requires Merging(s, a)
    ensures WellFormed(s) && !s.closed && LiveSet(s.index) != {} && |LiveSet(s.index)| <= MAX_HINT_ENTRIES
    ensures GoodIndex(s.dir.files, s.index) && Live(s.dir.files, s.index) == a.cur && s.segments == s.dir.files.Keys
  {
    hide GoodIndex, GoodFiles, Live, LiveBytes, TotalBytes, HintMatches, MaxID;
  }

  lemma AllCopied(s: State)
    ensures CopiedSoFar(s, |LiveKeys(s.index)|) == CopyLive(s.dir.files, s.index, NewID(s), LiveKeys(s.index))
  {
    hide CopyLive, LiveKeys, MaxID;
    assert LiveKeys(s.index)[..|LiveKeys(s.index)|] == LiveKeys(s.index);
  }

  lemma OneGoodFile(files: Files, id: int)
    requires id in files && GoodFiles(files)
    ensures GoodFiles(map[id := files[id]])
  {
    hide Clean;
  }

  lemma FinalFiles(s: State, a: Abs)
    requires Merging(s, a)
    ensures var c := CopiedSoFar(s, |LiveKeys(s.index)|);
      c.files == s.dir.files[NewID(s) := c.files[NewID(s)]] && GoodFiles(c.files)
  {
    hide GoodIndex, Live, LiveBytes, TotalBytes, HintMatches, MaxID, CopiedSoFar, LiveKeys, Clean, ReplayAll;
    hide CopiedIndex, CopiedLog, FrameAll, MergedRecords;
    CopiedSoFarGood(s, a, |LiveKeys(s.index)|);
    CopyBounded(s, a, |LiveKeys(s.index)|);
  }

  /** Stopping anywhere inside the writing of the hint makes Open fail. */
  lemma CrashInsideHint(s: State, a: Abs, cut: nat, n: int)
    requires Merging(s, a) && cut < |HintBytes(CopiedSoFar(s, |LiveKeys(s.index)|).index)|
    ensures OpenStep(DuringHint(s, cut), n) == Err(HintMalformed)
  {
    hide GoodIndex, Live, LiveBytes, TotalBytes, MaxID, CopiedSoFar, LiveKeys, HintMatches, HintBytes;
    hide ParseHint, Merged, MergeStep, Clean, Listed, Storable, Loadable;
    FinalCopy(s, a);
    var c := CopiedSoFar(s, |LiveKeys(s.index)|);
    var alone := map[NewID(s) := c.files[NewID(s)]];
    GoodStorable(alone, c.index);
    HintPrefixRejected(c.index, cut);
    NamedFiles(c.files);
    ListedAll(c.files);
    assert NewID(s) in c.files;
  }

  // ---- While old segments are being removed ----

  lemma TotalAtLeast(files: Files, id: int)
    requires id in files
    ensures TotalBytes(map[id := files[id]]) <= TotalBytes(files)
  {
    SumRemove(FileSizes(files), id);
    TotalAlone(id, files[id]);
  }

  lemma WiderIndex(files: Files, id: int, m: Table, vals: Values)
    requires id in files && IndexMatches(map[id := files[id]], m, vals)
    ensures IndexMatches(files, m, vals)
  {
    hide GoodIndex, Live, LiveBytes, TotalBytes;
    IndexStable(map[id := files[id]], files, m);
    TotalAtLeast(files, id);
  }

  /** Once the hint is complete, whichever of the old segments have been removed, reopening
      gives the current map. */
  lemma CrashWhileRemoving(s: State, a: Abs, gone: set<int>, n: int)
    requires Merging(s, a) && gone <= s.segments
    ensures var o := OpenStep(AfterRemovals(s, gone), n);
      o.Ok? && Rel(o.value, Abs(a.cur, Some(a.cur), false))
  {
    hide GoodFiles, IndexMatches, OpenStep, MaxID, LiveKeys, CopiedSoFar, HintBytes, ParseHint, Merged;
    hide MergeStep, ReplayAll;
    RemovingRel(s, a, gone);
    var c := CopiedSoFar(s, |LiveKeys(s.index)|);
    var t := State(AfterRemovals(s, gone), c.index, {}, 0, true, 0);
    OpenRel(t, Abs(a.cur, Some(a.cur), true), n);
  }

  lemma RemovingRel(s: State, a: Abs, gone: set<int>)
    requires Merging(s, a) && gone <= s.segments
    ensures var dir := AfterRemovals(s, gone); var m := CopiedSoFar(s, |LiveKeys(s.index)|).index;
      && GoodFiles(dir.files) && IndexMatches(dir.files, m, a.cur) && HintMatches(dir, m, Some(a.cur))
  {
    hide GoodIndex, Live, LiveBytes, TotalBytes, Clean, MaxID, LiveKeys, CopiedSoFar, HintBytes, ParseHint;
    hide Merged, MergeStep, ReplayAll;
    FinalCopy(s, a);
    var c, id := CopiedSoFar(s, |LiveKeys(s.index)|), NewID(s);
    var files := c.files - gone;
    assert id in files && files[id] == c.files[id];
    WiderIndex(files, id, c.index, a.cur);
    HintGood(map[id := c.files[id]], c.index);
  }

  /** The last of these crash points is the finished Merge. */
  lemma RemovedAll(s: State, a: Abs)
    requires Merging(s, a)
    ensures AfterRemovals(s, s.segments) == MergeStep(s).0.dir
  {
    hide GoodIndex, Live, LiveBytes, TotalBytes, GoodFiles, MaxID, LiveKeys, CopiedSoFar, HintBytes;
    hide MergeStep, HintMatches;
    FinalCopy(s, a);
  }

  // ---- Torn appends ----

  /** The directory when `tail` has been added to the active segment. */
  function TailDir(s: State, tail: seq<byte>): Dir
    requires WellFormed(s) && !s.closed
  {
    s.dir.(files := s.dir.files[s.activeID := s.dir.files[s.activeID] + tail])
  }

  /** The directory when only the first n bytes of a record have reached the active segment. */
  function TornDir(s: State, r: Record, n: nat): Dir
    requires WellFormed(s) && !s.closed && n <= |Frame(r)|
  {
    TailDir(s, Frame(r)[..n])
  }

  /** Whatever was added to the active segment, replaying the log continues into it. */
  lemma TailReplay(s: State, a: Abs, tail: seq<byte>)
    requires WellFormed(s) && !s.closed && Rel(s, a) && a.saved == None
    ensures Clean(s.dir.files[s.activeID])
    ensures var data := s.dir.files[s.activeID];
      var rest := ScanFrom(data + tail, |data|);
      ReplayAll(TailDir(s, tail).files) ==
        if rest.error == ErrEOF then Ok(ApplyEntries(s.index, s.activeID, rest.entries))
        else Err(ScanFailed(rest.error))
  {
    hide IndexMatches, GoodFiles, Frame, MaxID, Replay, ScanFrom, ApplyEntries;
    var files, files', id := s.dir.files, TailDir(s, tail).files, s.activeID;
    var data := files[id];
    assert files'.Keys == files.Keys;
    assert forall j | j in files :: j <= id by { MaxIDAbove(s.segments); }
    ReplayLast(files, id);
    ReplayLast(files', id);
    var others := SortedIDs(files.Keys - {id});
    ReplaySame(files, files', others);
    ScanThrough(data, 0, tail);
    match Replay(files, others) {
      case Ok(m) => ApplyConcat(m, id, ScanFrom(data, 0).entries, ScanFrom(data + tail, |data|).entries);
      case Err(_) =>
    }
  }

  /** Bytes behind the last record change no location and no name. */
  lemma TailKeeps(s: State, a: Abs, tail: seq<byte>)
    requires WellFormed(s) && !s.closed && Core(s, a)
    ensures var files := TailDir(s, tail).files;
      && files.Keys == s.dir.files.Keys && files != map[] && Listed(files) == files.Keys
      && (|s.dir.files[s.activeID]| + |tail| < TWO63 ==> GoodFiles(files))
      && forall m, vals | IndexMatches(s.dir.files, m, vals) :: IndexMatches(files, m, vals)
  {
    hide IndexMatches, Listed, MaxID;
    var files := TailDir(s, tail).files;
    assert s.activeID in files;
    ListedAll(files);
    forall m, vals | IndexMatches(s.dir.files, m, vals) ensures IndexMatches(files, m, vals) {
      TailIndex(s.dir.files, s.activeID, tail, m, vals);
    }
  }

  lemma TailIndex(files: Files, id: int, tail: seq<byte>, m: Table, vals: Values)
    requires id in files && IndexMatches(files, m, vals)
    ensures IndexMatches(files[id := files[id] + tail], m, vals)
  {
    hide GoodIndex, Live, LiveBytes, Sum;
    var files' := files[id := files[id] + tail];
    IndexStable(files, files', m);
    assert FileSizes(files') == FileSizes(files)[id := |files'[id]|];
    SumPut(FileSizes(files), id, |files'[id]|);
  }

  lemma RecoverListed(dir: Dir)
    requires Listed(dir.files) == dir.files.Keys && dir.hint == None
    ensures RecoverIndex(dir) == ReplayAll(dir.files)
  {
    hide Replay, Listed;
  }

  /** With a hint, what is behind the last record is never looked at. */
  lemma TailHinted(s: State, a: Abs, tail: seq<byte>, max: int)
    requires WellFormed(s) && !s.closed && Rel(s, a) && a.saved.Some?
    requires |s.dir.files[s.activeID]| + |tail| < TWO63
    ensures var o := OpenStep(TailDir(s, tail), max); o.Ok? && Rel(o.value, Recovered(a))
  {
    hide GoodFiles, IndexMatches, OpenStep, MaxID, ParseHint, ReplayAll, Listed, AllClean;
    TailKeeps(s, a, tail);
    var t := CloseStep(s).(dir := TailDir(s, tail));
    OpenRel(t, a.(closed := true), max);
  }

  /** Without one, Open replays the log and the tail. */
  lemma TailOpens(s: State, a: Abs, tail: seq<byte>, max: int)
    requires WellFormed(s) && !s.closed && Rel(s, a) && a.saved == None
    ensures OpenStep(TailDir(s, tail), max) ==
      match ReplayAll(TailDir(s, tail).files)
      case Err(e) => Err(e)
      case Ok(m) => Ok(State(TailDir(s, tail), m, s.segments, s.activeID, false, max))
  {
    hide GoodFiles, IndexMatches, MaxID, ReplayAll, Listed, AllClean, Replay, RecoverIndex;
    TailKeeps(s, a, tail);
    RecoverListed(TailDir(s, tail));
  }

  /** A tail that adds no record to the scan leaves a store that can be used, though its log need
      not scan to the end. */
  lemma TailUnhinted(s: State, a: Abs, tail: seq<byte>, max: int)
    requires WellFormed(s) && !s.closed && Rel(s, a) && a.saved == None
    requires |s.dir.files[s.activeID]| + |tail| < TWO63
    ensures Core(State(TailDir(s, tail), s.index, s.segments, s.activeID, false, max), Recovered(a))
  {
    hide GoodFiles, IndexMatches, MaxID, Listed;
    TailKeeps(s, a, tail);
  }

  /** A crash inside an append.  With a hint, or at the record boundary, the store runs on like
      any other.  Without one, Open gives the map as of before the append when the cut is right
      after the 17-byte prefix, in a store whose log no longer scans to its end, and fails at
      every other cut. */
  lemma TornAppend(s: State, a: Abs, r: Record, n: nat, max: int)
    requires WellFormed(s) && !s.closed && Rel(s, a) && Scannable(r) && n < |Frame(r)|
    requires |s.dir.files[s.activeID]| + |Frame(r)| < TWO63
    ensures var o := OpenStep(TornDir(s, r, n), max);
      if a.saved.Some? || n == 0 then o.Ok? && Rel(o.value, Recovered(a))
      else if n == PREFIX_SIZE then
        o.Ok? && Core(o.value, Recovered(a)) && o.value.activeID == s.activeID && o.value.dir == TornDir(s, r, n)
      else o == Err(ScanFailed(ErrCorrupt))
  {
    hide Core, HintMatches, Frame, Scannable, MaxID, ReplayAll, OpenStep, ScanFrom;
    var tail := Frame(r)[..n];
    RelHint(s, a);
    if a.saved.Some? {
      TailHinted(s, a, tail, max);
    } else if n == 0 {
      assert s.dir.files[s.activeID] + tail == s.dir.files[s.activeID];
      assert TornDir(s, r, n) == s.dir;
      OpenRel(CloseStep(s), a.(closed := true), max);
    } else {
      TailReplay(s, a, tail);
      RestTorn(s.dir.files[s.activeID], r, n);
      NoEntries(s.index, s.activeID);
      TailOpens(s, a, tail, max);
      TailUnhinted(s, a, tail, max);
    }
  }

  lemma RelHint(s: State, a: Abs)
    requires Rel(s, a)
    ensures s.dir.hint.None? <==> a.saved == None
    ensures Core(s, a) && Rel(CloseStep(s), a.(closed := true))
  {
    hide GoodFiles, IndexMatches, ReplayAll, ParseHint, MaxID, AllClean;
  }

  /** What a later record does to a directory without a hint that reopened after such a cut: the
      next scan takes it for the payload that is missing.  If its bytes have the torn checksum, a
      record that was never written appears, and the scan goes on behind it. */
  lemma WriteAfterTear(s: State, a: Abs, r: Record, more: seq<byte>, max: int)
    requires WellFormed(s) && !s.closed && Rel(s, a) && a.saved == None
    requires Scannable(r) && |r.key| + |r.value| > 0 && |more| > 0
    ensures var f, p, data := Frame(r), |r.key| + |r.value|, s.dir.files[s.activeID];
      var dir := TailDir(s, f[..PREFIX_SIZE] + more);
      OpenStep(dir, max) ==
        if |more| < p then Err(ScanFailed(ErrCorrupt))
        else if Crc32.Checksum(f[4..PREFIX_SIZE] + more[..p]) != GetBE(f[..4]) then Err(ScanFailed(ErrChecksum))
        else
          var behind := ScanFrom(dir.files[s.activeID], |data| + |f|);
          var m := s.index[more[..|r.key|] := Location(s.activeID, |data|, |f|, r.tombstone)];
          if behind.error != ErrEOF then Err(ScanFailed(behind.error))
          else Ok(State(dir, ApplyEntries(m, s.activeID, behind.entries), s.segments, s.activeID, false, max))
  {
    hide Core, HintMatches, Frame, Scannable, MaxID, ReplayAll, OpenStep, ScanFrom, Crc32.Checksum, GetBE, ApplyEntries;
    var f, p, data, id := Frame(r), |r.key| + |r.value|, s.dir.files[s.activeID], s.activeID;
    var tail := f[..PREFIX_SIZE] + more;
    FrameSize(r);
    TailReplay(s, a, tail);
    TailOpens(s, a, tail, max);
    RestAfterTear(data, r, more);
    if |more| >= p && Crc32.Checksum(f[4..PREFIX_SIZE] + more[..p]) == GetBE(f[..4]) {
      RestInvented(data, r, more);
      var e := Entry(more[..|r.key|], more[|r.key|..p], r.tombstone, 0, |data|, |f|);
      var behind := ScanFrom(data + tail, |data| + |f|);
      ApplyConcat(s.index, id, [e], behind.entries);
      NoEntries(s.index, id);
      OneEntry(s.index, id, [], e);
      assert [] + [e] == [e];
    }
  }

  lemma AppendAfterTear(s: State, o: State, tail: seq<byte>, r2: Record)
    requires WellFormed(s) && !s.closed && WellFormed(o) && !o.closed
    requires o.activeID == s.activeID && o.dir == TailDir(s, tail)
    ensures AppendRecord(o, r2).dir == TailDir(s, tail + Frame(r2))
  {
    hide Frame;
    assert s.dir.files[s.activeID] + tail + Frame(r2) == s.dir.files[s.activeID] + (tail + Frame(r2));
  }

  /** The append of a live record inside the copying loop of Merge, torn: it is a torn append to
      the store as if written. */
  lemma CopyIsAppend(s: State, a: Abs, i: nat)
    requires Merging(s, a) && i < |LiveKeys(s.index)|
    ensures LiveKeys(s.index)[i] in s.index
    ensures var t := AsIfWritten(s, i); var r := LiveRecord(s.dir.files, s.index, LiveKeys(s.index)[i]);
      && WellFormed(t) && !t.closed && Rel(t, a) && Scannable(r) && |t.dir.files[t.activeID]| + |Frame(r)| < TWO63
      && t.dir == AfterAppends(s, i) && t.activeID == NewID(s)
  {
    hide Rel, AsIfWritten, Frame, GoodRecord, LiveRecord, MaxID, LiveKeys, LiveBytes, CopiedSoFar, Copied;
    CopyingRel(s, a, i);
    AsIfWrittenFields(s, i);
    NextCopy(s, a, i);
    GoodScannable(LiveRecord(s.dir.files, s.index, LiveKeys(s.index)[i]));
  }

  /** Merge stopped with only n bytes of its next record in the new segment. */
  ghost function TornCopyDir(s: State, i: nat, n: nat): Dir
    requires i < |LiveKeys(s.index)| && LiveKeys(s.index)[i] in s.index
    requires n <= |Frame(LiveRecord(s.dir.files, s.index, LiveKeys(s.index)[i]))|
  {
    var files, id := AfterAppends(s, i).files, NewID(s);
    s.dir.(files := files[id := files[id] + Frame(LiveRecord(s.dir.files, s.index, LiveKeys(s.index)[i]))[..n]])
  }

  lemma TornCopyIsTornAppend(s: State, a: Abs, i: nat, n: nat)
    requires Merging(s, a) && i < |LiveKeys(s.index)| && LiveKeys(s.index)[i] in s.index
    requires n <= |Frame(LiveRecord(s.dir.files, s.index, LiveKeys(s.index)[i]))|
    ensures var t := AsIfWritten(s, i);
      && WellFormed(t) && !t.closed
      && TornCopyDir(s, i, n) == TornDir(t, LiveRecord(s.dir.files, s.index, LiveKeys(s.index)[i]), n)
  {
    hide Rel, Frame, LiveRecord, MaxID, LiveKeys, CopiedSoFar, Merging;
    CopyIsAppend(s, a, i);
  }

  lemma GoodScannable(r: Record)
    requires GoodRecord(r)
    ensures Scannable(r)
  {
  }
}
