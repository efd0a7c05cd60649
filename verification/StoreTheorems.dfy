/** The results about Merge, crashes and reopening, for every state the store can reach, crashes
    included. */
module StoreTheorems {
  import opened Bytes
  import opened Order
  import opened LogEntry
  import opened LogReader
  import opened LogSegment
  import opened KeyIndex
  import opened StoreModel
  import opened StoreInvariant
  import opened StoreMerge
  import opened StoreRefinement
  import opened StoreRuns
  import opened StoreRecovery
  import C = StoreCrash
  import L = StoreLimits
  import Crc32

  /** Some run of calls and crashes from an empty directory leads to s, and the same run of the
      map leads to a. */
  ghost predicate Reachable(s: State, a: Abs) {
    exists es :: CanHappen(EMPTY, es) && s == After(EMPTY, es) && a == AbsAfter(EMPTY_ABS, es)
  }

  /** From here on the store answers every run as the map does. */
  ghost predicate Behaves(s: State, a: Abs) {
    WellFormed(s) && forall ops | Feasible(s, ops) :: Replies(s, ops) == AbsReplies(a, ops)
  }

  lemma ReachableRel(s: State, a: Abs)
    requires Reachable(s, a)
    ensures WellFormed(s) && Rel(s, a)
  {
    hide Rel, CanHappen, After, AbsAfter;
    var es :| CanHappen(EMPTY, es) && s == After(EMPTY, es) && a == AbsAfter(EMPTY_ABS, es);
    EmptyRel();
    EventsRel(EMPTY, EMPTY_ABS, es);
  }

  lemma RelBehaves(s: State, a: Abs)
    requires WellFormed(s) && Rel(s, a)
    ensures Behaves(s, a)
  {
    hide Rel, Feasible, Replies, AbsReplies;
    forall ops | Feasible(s, ops) ensures Replies(s, ops) == AbsReplies(a, ops) { RunRel(s, a, ops); }
  }

  // ---- Compaction ----

  /** Merge with live keys leaves one segment with an ID above all earlier ones; its bytes are
      a function of the map alone, and there are no more of them than before.  The map is kept. */
  lemma MergeIsCanonical(s: State, a: Abs)
    requires Reachable(s, a) && !s.closed && a.cur != map[]
    ensures WellFormed(s)
    ensures var t := MergeStep(s).0;
      && (forall id | id in s.dir.files :: id < t.activeID)
      && t.dir.files == map[t.activeID := CanonicalLog(a.cur)]
      && |CanonicalLog(a.cur)| == LiveBytes(s.index) <= TotalBytes(s.dir.files)
  {
    hide Reachable, Rel, MergeStep, CanonicalLog, LiveBytes, TotalBytes;
    ReachableRel(s, a);
    MergeCanonical(s, a);
  }

  /** The active ID rises above every earlier one if and only if there is a live key; without
      one the numbering starts over at 1. */
  lemma MergeNumbering(s: State, a: Abs)
    requires Reachable(s, a) && !s.closed
    ensures WellFormed(s)
    ensures (forall id | id in s.dir.files :: id < MergeStep(s).0.activeID) <==> a.cur != map[]
    ensures a.cur == map[] ==> MergeStep(s).0.activeID == 1
  {
    hide Reachable, Rel, MergeStep;
    ReachableRel(s, a);
    MergeRaisesID(s, a);
  }

  // ---- Crashes ----

  /** Open succeeds, and the store it returns behaves as the map does. */
  ghost predicate ReopensAs(dir: Dir, max: int, a: Abs) {
    OpenStep(dir, max).Ok? && Behaves(OpenStep(dir, max).value, a)
  }

  /** Merge stops after any number of copied records: the reopened store behaves as if Merge had
      not started. */
  lemma CrashWhileCopying(s: State, a: Abs, max: int)
    requires Reachable(s, a) && CanMerge(s)
    ensures forall i: nat | i <= |LiveKeys(s.index)| :: ReopensAs(C.AfterAppends(s, i), max, C.Recovered(a))
  {
    hide Reachable, Rel, OpenStep, C.AfterAppends, Behaves, Allowed, LiveSet, LiveKeys;
    ReachableRel(s, a);
    forall i: nat | i <= |LiveKeys(s.index)| ensures ReopensAs(C.AfterAppends(s, i), max, C.Recovered(a)) {
      C.CrashWhileCopying(s, a, i, max);
      RelBehaves(OpenStep(C.AfterAppends(s, i), max).value, C.Recovered(a));
    }
  }

  /** Merge stops anywhere inside the writing of the hint: Open fails. */
  lemma CrashInsideHint(s: State, a: Abs, max: int)
    requires Reachable(s, a) && CanMerge(s)
    ensures var hint := HintBytes(C.CopiedSoFar(s, |LiveKeys(s.index)|).index);
      forall cut: nat | cut < |hint| :: OpenStep(C.DuringHint(s, cut), max) == Err(HintMalformed)
  {
    hide Reachable, Rel, OpenStep, C.DuringHint, C.CopiedSoFar, HintBytes, Allowed, LiveSet, LiveKeys;
    ReachableRel(s, a);
    forall cut: nat | cut < |HintBytes(C.CopiedSoFar(s, |LiveKeys(s.index)|).index)|
      ensures OpenStep(C.DuringHint(s, cut), max) == Err(HintMalformed)
    {
      C.CrashInsideHint(s, a, cut, max);
    }
  }

  /** Merge stops with the hint complete and any of the old segments removed: the reopened store
      behaves as the map did, with the Merge done. */
  lemma CrashWhileRemoving(s: State, a: Abs, gone: set<int>, max: int)
    requires Reachable(s, a) && CanMerge(s) && gone <= s.segments
    ensures ReopensAs(C.AfterRemovals(s, gone), max, Abs(a.cur, Some(a.cur), false))
  {
    hide Reachable, Rel, OpenStep, C.AfterRemovals, Behaves, Allowed, LiveSet;
    ReachableRel(s, a);
    C.CrashWhileRemoving(s, a, gone, max);
    RelBehaves(OpenStep(C.AfterRemovals(s, gone), max).value, Abs(a.cur, Some(a.cur), false));
  }

  /** A store that answers as the map until it is opened again without a Merge in between. */
  ghost predicate BehavesUntilOpen(s: State, a: Abs) {
    WellFormed(s) &&
    forall ops | Feasible(s, ops) && MergesFirst(s.closed, ops) :: Replies(s, ops) == AbsReplies(a, ops)
  }

  lemma CoreBehaves(s: State, a: Abs)
    requires WellFormed(s) && Core(s, a)
    ensures BehavesUntilOpen(s, a)
  {
    hide Core, Feasible, Replies, AbsReplies, MergesFirst;
    forall ops | Feasible(s, ops) && MergesFirst(s.closed, ops) ensures Replies(s, ops) == AbsReplies(a, ops) {
      RunCore(s, a, ops);
    }
  }

  /** What a crash does that leaves only n bytes of a record.  With a hint, or at the record
      boundary, the reopened store behaves as the map on every later run.  Without one, a cut
      right after the 17-byte prefix gives a store that behaves so until it is opened again
      without a Merge in between, and any other cut makes Open fail. */
  ghost predicate SurvivesTear(dir: Dir, max: int, a: Abs, n: nat) {
    if a.saved.Some? || n == 0 then ReopensAs(dir, max, C.Recovered(a))
    else if n == PREFIX_SIZE then OpenStep(dir, max).Ok? && BehavesUntilOpen(OpenStep(dir, max).value, C.Recovered(a))
    else OpenStep(dir, max) == Err(ScanFailed(ErrCorrupt))
  }

  lemma TornAppendSurvives(s: State, a: Abs, r: Record, n: nat, max: int)
    requires WellFormed(s) && !s.closed && Rel(s, a) && Scannable(r) && n < |Frame(r)|
    requires |s.dir.files[s.activeID]| + |Frame(r)| < TWO63
    ensures SurvivesTear(C.TornDir(s, r, n), max, a, n)
  {
    hide Rel, Core, OpenStep, C.TornDir, Frame, Scannable, Behaves, BehavesUntilOpen;
    C.TornAppend(s, a, r, n, max);
    var o := OpenStep(C.TornDir(s, r, n), max);
    if a.saved.Some? || n == 0 {
      RelBehaves(o.value, C.Recovered(a));
    } else if n == PREFIX_SIZE {
      CoreBehaves(o.value, C.Recovered(a));
    }
  }

  /** A Put or Delete stops with only n bytes of its record written. */
  lemma CrashInsideWrite(s: State, a: Abs, op: Op, n: nat, max: int)
    requires Reachable(s, a) && CanWrite(s, op) && n < |Frame(RecordOf(op))|
    ensures SurvivesTear(C.TornDir(s, RecordOf(op), n), max, a, n)
  {
    hide Reachable, Rel, C.TornDir, Frame, Scannable, SurvivesTear, Allowed, RecordOf;
    ReachableRel(s, a);
    WritesFit(s, op);
    TornAppendSurvives(s, a, RecordOf(op), n, max);
  }

  /** Merge stops inside the append of its next record. */
  lemma CrashInsideCopy(s: State, a: Abs, i: nat, n: nat, max: int)
    requires Reachable(s, a) && CanMerge(s) && i < |LiveKeys(s.index)| && LiveKeys(s.index)[i] in s.index
    requires n < |Frame(LiveRecord(s.dir.files, s.index, LiveKeys(s.index)[i]))|
    ensures SurvivesTear(C.TornCopyDir(s, i, n), max, a, n)
  {
    hide Reachable, Rel, C.TornDir, C.TornCopyDir, C.AsIfWritten, Frame, Scannable, SurvivesTear, Allowed;
    hide LiveRecord, LiveKeys, LiveSet;
    ReachableRel(s, a);
    C.CopyIsAppend(s, a, i);
    C.TornCopyIsTornAppend(s, a, i, n);
    TornAppendSurvives(C.AsIfWritten(s, i), a, LiveRecord(s.dir.files, s.index, LiveKeys(s.index)[i]), n, max);
  }

  /** Why the promise for a cut after the prefix ends with the next Open: if one more record is
      written, the scan takes its bytes for the payload that is missing.  Open fails unless those
      bytes happen to have the checksum of the torn record; then they appear as a record that was
      never written, and what Open does is decided by the scan behind it. */
  lemma WriteAfterTear(s: State, a: Abs, op: Op, r2: Record, max: int)
    requires Reachable(s, a) && CanWrite(s, op) && s.dir.hint == None
    ensures var r, f, more := RecordOf(op), Frame(RecordOf(op)), Frame(r2);
      var p, data := |r.key| + |r.value|, s.dir.files[s.activeID];
      var o := OpenStep(C.TornDir(s, r, PREFIX_SIZE), max);
      && o.Ok? && WellFormed(o.value) && !o.value.closed
      && var dir := AppendRecord(o.value, r2).dir;
         OpenStep(dir, max) ==
           if |more| < p then Err(ScanFailed(ErrCorrupt))
           else if Crc32.Checksum(f[4..PREFIX_SIZE] + more[..p]) != GetBE(f[..4]) then Err(ScanFailed(ErrChecksum))
           else
             var behind := ScanFrom(data + (f[..PREFIX_SIZE] + more), |data| + |f|);
             var m := s.index[more[..|r.key|] := Location(s.activeID, |data|, |f|, r.tombstone)];
             if behind.error != ErrEOF then Err(ScanFailed(behind.error))
             else Ok(State(dir, ApplyEntries(m, s.activeID, behind.entries), s.segments, s.activeID, false, max))
  {
    hide Reachable, Rel, Core, Frame, Scannable, Allowed, OpenStep, RecordOf, AppendRecord, ApplyEntries, ScanFrom;
    hide Crc32.Checksum, GetBE;
    ReachableRel(s, a);
    C.RelHint(s, a);
    WritesFit(s, op);
    var r, f := RecordOf(op), Frame(RecordOf(op));
    FrameSize(r);
    FrameSize(r2);
    C.TornAppend(s, a, r, PREFIX_SIZE, max);
    C.WriteAfterTear(s, a, r, Frame(r2), max);
    var o := OpenStep(C.TornDir(s, r, PREFIX_SIZE), max);
    C.AppendAfterTear(s, o.value, f[..PREFIX_SIZE], r2);
  }

  // ---- What Open cannot bring back ----

  /** A write after a Merge is lost by reopening: from every reachable open state with live keys,
      Get answers after Merge, Put, Close and Open what it answered before the Put. */
  lemma WriteAfterMerge(s: State, a: Abs, k: Key, v: seq<byte>, max: int)
    requires Reachable(s, a) && WellFormed(s) && !s.closed && a.cur != map[] && |k| > 0
    requires Feasible(s, [Merge, Put(k, v), Close, Open(max), Get(k)])
    ensures Replies(s, [Merge, Put(k, v), Close, Open(max), Get(k)]) ==
      [Done, Done, Done, Done, if k in a.cur then Found(a.cur[k]) else Absent]
  {
    hide Reachable, Rel, Feasible, Replies;
    ReachableRel(s, a);
    WriteAfterMergeIsLost(s, a, k, v, max);
  }

  /** A Put of any encodable size succeeds and Get finds it, whether or not the Put rotates; a
      directory without a hint then opens again if and only if the payload has at most 2^30
      bytes. */
  lemma OversizedWrite(s: State, a: Abs, k: Key, v: seq<byte>, max: int)
    requires Reachable(s, a) && WellFormed(s) && !s.closed && |k| > 0 && Encodable(Record(k, v, false))
    ensures var (t, reply) := PutStep(s, k, v);
      && reply == Done && GetReply(t, k) == Found(v)
      && (s.dir.hint == None ==> (OpenStep(t.dir, max).Ok? <==> |k| + |v| <= MAX_RECORD_PAYLOAD))
  {
    hide Reachable, Rel, OpenStep, PutStep, GetReply;
    ReachableRel(s, a);
    L.PutIsFound(s, k, v);
    if s.dir.hint == None {
      C.RelHint(s, a);
      L.OversizedPut(s, a, k, v, max);
    }
  }

  /** A key of any encodable size is written and merged without an error, but the hint that Merge
      writes makes the next Open fail if the key has more than 2^24 bytes, and only then. */
  lemma OversizedKey(s: State, a: Abs, k: Key, v: seq<byte>, max: int)
    requires Reachable(s, a) && WellFormed(s) && !s.closed && |k| > 0 && Encodable(Record(k, v, false))
    requires var t := PutStep(s, k, v).0;
      && MaxID(t.segments) + 1 < MAX_NAMED_ID && |LiveSet(t.index)| <= MAX_HINT_ENTRIES
      && L.MergedSize(t) < TWO63
    ensures var (t, put) := PutStep(s, k, v); var (u, merged) := MergeStep(t);
      && put == Done && merged == Done
      && if |k| <= MAX_HINT_KEY then OpenStep(u.dir, max).Ok? else OpenStep(u.dir, max) == Err(HintMalformed)
  {
    hide Reachable, Rel, OpenStep, PutStep, MergeStep, GetReply, MaxID, LiveSet, L.MergedSize;
    ReachableRel(s, a);
    L.PutIsFound(s, k, v);
    L.OversizedKey(s, a, k, v, max);
  }

  // ---- The size limit of the active segment ----

  /** The limit that rotation is to keep. */
  ghost predicate WithinLimit(s: State) {
    s.activeID in s.dir.files && |s.dir.files[s.activeID]| <= s.maxFileSize
  }

  /** A Put always leaves an active segment within the limit. */
  lemma PutWithinLimit(s: State, a: Abs, k: Key, v: seq<byte>)
    requires Reachable(s, a) && WellFormed(s) && !s.closed && s.maxFileSize > 0 && |k| > 0
    ensures WithinLimit(PutStep(s, k, v).0)
  {
    hide Reachable, IndexMatches, GoodFiles, HintMatches, Frame, MaxID;
    ReachableRel(s, a);
    var t := AppendRecord(s, Record(k, v, false));
    assert t.segments == t.dir.files.Keys;
    MaxIDAbove(t.segments);
  }

  /** A Delete does if and only if its record still fits; a Merge does if and only if the live
      records do. */
  lemma DeleteAndMergeWithinLimit(s: State, a: Abs, k: Key)
    requires Reachable(s, a) && WellFormed(s) && !s.closed && s.maxFileSize > 0 && |k| > 0
    ensures WithinLimit(DeleteStep(s, k).0) <==> |s.dir.files[s.activeID]| + PREFIX_SIZE + |k| <= s.maxFileSize
    ensures WithinLimit(MergeStep(s).0) <==> a.cur == map[] || LiveBytes(s.index) <= s.maxFileSize
  {
    hide Reachable, Rel, Frame, LiveBytes, CanonicalLog, MergeStep;
    FrameSize(Record(k, [], true));
    MergeKeepsLimit(s);
    ReachableRel(s, a);
    if a.cur != map[] {
      MergeIsCanonical(s, a);
    } else {
      MergeRaisesID(s, a);
    }
  }

  lemma MergeKeepsLimit(s: State)
    requires WellFormed(s)
    ensures MergeStep(s).0.maxFileSize == s.maxFileSize
  {
    hide CopyLive, MaxID, LiveKeys, HintBytes;
  }

  lemma FirstOpen(max: int)
    ensures OpenStep(Dir(map[], None), max) == Ok(State(Dir(map[1 := []], None), map[], {1}, 1, false, max))
  {
    var none: Files := map[];
    assert Listed(none) == {};
    assert none[1 := []] == map[1 := []];
  }

  const KEY: Key := [97]

  /** On an empty store with a limit of ten bytes, a Delete goes past it and nothing rotates. */
  lemma DeletePastLimit()
    ensures var s := State(Dir(map[1 := []], None), map[], {1}, 1, false, 10);
      && Reachable(s, Abs(map[], None, false)) && WithinLimit(s)
      && DeleteStep(s, KEY).1 == Done && DeleteStep(s, KEY).0.activeID == 1 && !WithinLimit(DeleteStep(s, KEY).0)
  {
    hide Frame, MaxID, OpenStep;
    var s := State(Dir(map[1 := []], None), map[], {1}, 1, false, 10);
    var es := [Call(Open(10))];
    FirstOpen(10);
    assert EventStep(EMPTY, es[0]).0 == s && es[1..] == [];
    assert CanHappen(EMPTY, es) && After(EMPTY, es) == s;
    assert AbsAfter(EMPTY_ABS, es) == Abs(map[], None, false);
    FrameSize(Record(KEY, [], true));
  }
}
