/** Whole runs of the store, from an empty directory. */
module StoreRuns {
  import opened Bytes
  import opened Order
  import opened LogEntry
  import opened LogReader
  import opened LogSegment
  import opened KeyIndex
  import opened StoreModel
  import opened StoreInvariant
  import opened StoreMerge
  import opened StoreRefinement

  // ---- Every run ----

  /** Whatever is called in whatever order, including Open with a hint that later writes
      have made stale: no call fails except for empty keys and closed stores, and every
      reply is that of a map which Open resets to the copy saved by the last Merge. */
  lemma EveryRun(ops: seq<Op>)
    requires Feasible(EMPTY, ops)
    ensures Replies(EMPTY, ops) == AbsReplies(EMPTY_ABS, ops)
  {
    EmptyRel();
    RunRel(EMPTY, EMPTY_ABS, ops);
  }

  /** In every reachable state the locations of the hint file still read back live records
      of their keys, and they denote the map as of the Merge that wrote the file. */
  lemma HintStaysReadable(ops: seq<Op>)
    requires Feasible(EMPTY, ops) && Run(EMPTY, ops).dir.hint.Some?
    ensures var dir, saved := Run(EMPTY, ops).dir, AbsRun(EMPTY_ABS, ops).saved;
      && saved.Some? && ParseHint(dir.hint.value).Some?
      && var m := ParseHint(dir.hint.value).value.table;
         && Live(dir.files, m) == saved.value
         && forall k | k in m :: Located(dir.files, k, m[k]) && !m[k].tombstone
  {
    hide Located, Live, ParseHint, Run, AbsRun, LiveBytes, TotalBytes, ReplayAll;
    EmptyRel();
    RunRel(EMPTY, EMPTY_ABS, ops);
  }

  // ---- Runs in which Open never meets a stale hint ----

  /** The hint file is absent or lists exactly the index the store held when it closed. */
  ghost predicate Fresh(s: State) {
    match s.dir.hint
    case None => true
    case Some(h) => ParseHint(h).Some? && ParseHint(h).value.table == s.index
  }

  ghost predicate FreshOpens(s: State, ops: seq<Op>)
    requires WellFormed(s) && Feasible(s, ops)
    decreases |ops|
  {
    |ops| == 0 || ((ops[0].Open? ==> Fresh(s)) && FreshOpens(Step(s, ops[0]).0, ops[1..]))
  }

  datatype Plain = Plain(cur: Values, closed: bool)

  /** A plain map: Merge, Close and Open do not change it. */
  function PlainStep(p: Plain, op: Op): (Plain, Reply) {
    match op
    case Close => (p.(closed := true), Done)
    case Open(_) => (p.(closed := false), Done)
    case _ =>
      if p.closed then (p, Failed(Closed)) else
      match op
      case Put(k, v) => if |k| == 0 then (p, Failed(EmptyKey)) else (p.(cur := p.cur[k := v]), Done)
      case Delete(k) => if |k| == 0 then (p, Failed(EmptyKey)) else (p.(cur := p.cur - {k}), Done)
      case Get(k) => (p, if k in p.cur then Found(p.cur[k]) else Absent)
      case _ => (p, Done)
  }

  function PlainReplies(p: Plain, ops: seq<Op>): seq<Reply>
    decreases |ops|
  {
    if |ops| == 0 then [] else [PlainStep(p, ops[0]).1] + PlainReplies(PlainStep(p, ops[0]).0, ops[1..])
  }

  lemma FreshSaved(s: State, a: Abs)
    requires Rel(s, a) && Fresh(s)
    ensures a.saved.Some? ==> a.saved.value == a.cur
  {
    hide GoodFiles, GoodIndex, Live, LiveBytes, TotalBytes, ReplayAll, ParseHint;
  }

  /** The index is what a scan of the segments in file-ID order rebuilds. */
  ghost predicate Replayed(s: State) {
    ReplayAll(s.dir.files) == Ok(s.index) && AllClean(s.dir.files)
  }

  lemma AppendReplayed(s: State, a: Abs, r: Record)
    requires WellFormed(s) && !s.closed && Rel(s, a) && Replayed(s) && Scannable(r)
    ensures Replayed(AppendRecord(s, r))
  {
    hide IndexMatches, HintMatches, Frame, MaxID, ReplayAll, Clean;
    var files, id := s.dir.files, s.activeID;
    assert AppendRecord(s, r) ==
      s.(dir := s.dir.(files := Appended(files, id, r)), index := Indexed(files, s.index, id, r));
    MaxIDAbove(s.segments);
    AppendClean(files, id, r);
    ReplayAppend(files, s.index, id, r);
  }

  lemma RotateReplayed(s: State)
    requires WellFormed(s) && s.segments == s.dir.files.Keys && Replayed(s)
    ensures Replayed(Rotate(s))
  {
    hide ReplayAll, MaxID, Clean;
    EmptyClean();
    MaxIDAbove(s.segments);
    ReplayNewSegment(s.dir.files, MaxID(s.segments) + 1);
  }

  lemma MergeReplayed(s: State, a: Abs)
    requires WellFormed(s) && !s.closed && Rel(s, a)
    ensures Replayed(MergeStep(s).0)
  {
    hide GoodIndex, Live, CopyLive, ReplayAll, Clean, LiveBytes, TotalBytes, HintMatches, CanonicalLog, MaxID;
    hide LiveKeys, HintBytes, GoodFiles;
    LiveKeysList(s.index);
    EmptyClean();
    if |LiveKeys(s.index)| == 0 {
      EmptyReplay();
      var none: Files := map[];
      assert s.dir.files - s.segments == none;
      ReplayNewSegment(none, 1);
    } else {
      MergeIsMerged(s);
      MergedSegment(s.dir.files, s.index, MaxID(s.segments) + 1);
    }
  }

  lemma OpenReplayed(s: State, a: Abs, n: int)
    requires WellFormed(s) && Rel(s, a) && s.closed && Fresh(s) && Replayed(s)
    ensures OpenStep(s.dir, n).Ok? && Replayed(OpenStep(s.dir, n).value)
  {
    hide GoodFiles, IndexMatches, ReplayAll, ParseHint, MaxID, Listed, Replay, Clean;
    var files := s.dir.files;
    EmptyClean();
    NamedFiles(files);
    ListedAll(files);
    OpenRel(s, a, n);
    if files == map[] {
      EmptyReplay();
      ReplayNewSegment(files, 1);
    } else {
      assert files.Keys != {};
      match s.dir.hint {
        case None => RecoverByReplay(s.dir);
        case Some(h) =>
      }
    }
  }

  lemma StepReplayed(s: State, a: Abs, op: Op)
    requires WellFormed(s) && Rel(s, a) && Allowed(s, op) && Replayed(s) && (op.Open? ==> Fresh(s))
    ensures Replayed(Step(s, op).0)
  {
    hide GoodFiles, IndexMatches, HintMatches, ReplayAll, Frame, AppendRecord, Rotate, MergeStep, OpenStep;
    hide MaxID, Fresh, GetReply;
    match op {
      case Put(k, v) =>
        if !s.closed && |k| > 0 {
          PutReplayed(s, a, k, v);
        }
      case Delete(k) =>
        if !s.closed && |k| > 0 {
          AppendReplayed(s, a, Record(k, [], true));
        }
      case Merge =>
        if !s.closed {
          MergeReplayed(s, a);
        } else {
          assert MergeStep(s).0 == s by { ClosedMerge(s); }
        }
      case Open(n) => OpenReplayed(s, a, n);
      case _ =>
    }
  }

  lemma PutReplayed(s: State, a: Abs, k: Key, v: seq<byte>)
    requires WellFormed(s) && !s.closed && Rel(s, a) && Allowed(s, Put(k, v)) && |k| > 0 && Replayed(s)
    ensures Replayed(PutStep(s, k, v).0)
  {
    hide IndexMatches, HintMatches, GoodFiles, Frame, MaxID, ReplayAll, Rotate, Clean;
    var r := Record(k, v, false);
    AppendReplayed(s, a, r);
    var t := AppendRecord(s, r);
    assert t.segments == t.dir.files.Keys;
    RotateReplayed(t);
  }

  lemma {:induction false} FreshRun(s: State, a: Abs, ops: seq<Op>)
    requires WellFormed(s) && Rel(s, a) && Replayed(s) && Feasible(s, ops) && FreshOpens(s, ops)
    ensures Replayed(Run(s, ops))
    ensures Replies(s, ops) == PlainReplies(Plain(a.cur, a.closed), ops)
    decreases |ops|
  {
    hide Rel, Step, Allowed, Replayed, Fresh;
    if |ops| > 0 {
      StepRel(s, a, ops[0]);
      StepReplayed(s, a, ops[0]);
      if ops[0].Open? {
        FreshSaved(s, a);
      }
      FreshRun(Step(s, ops[0]).0, AbsStep(a, ops[0]).0, ops[1..]);
    }
  }

  /** Over every run in which each Open finds the hint absent or fresh, every reply is the
      reply of a plain map, and the index stays equal to a replay of the segment bytes. */
  lemma StoreRefinesMap(ops: seq<Op>)
    requires Feasible(EMPTY, ops) && FreshOpens(EMPTY, ops)
    ensures Replies(EMPTY, ops) == PlainReplies(Plain(map[], true), ops)
    ensures Replayed(Run(EMPTY, ops))
  {
    EmptyRel();
    EmptyReplay();
    FreshRun(EMPTY, EMPTY_ABS, ops);
  }

  // ---- Reopening, exactly ----

  /** Close and Open give the current map back if and only if no hint file exists or the
      map is now what it was when the hint was written; otherwise they give that one. */
  lemma ReopenExact(ops: seq<Op>, n: int)
    requires Feasible(EMPTY, ops) && Run(EMPTY, ops).closed
    ensures var s, a := Run(EMPTY, ops), AbsRun(EMPTY_ABS, ops);
      && OpenStep(s.dir, n).Ok?
      && var t := OpenStep(s.dir, n).value;
         && (Live(t.dir.files, t.index) == a.cur <==> a.saved == None || a.saved == Some(a.cur))
         && (a.saved.Some? ==> Live(t.dir.files, t.index) == a.saved.value)
         && (s.dir.hint.None? <==> a.saved == None)
  {
    hide GoodFiles, GoodIndex, Live, LiveBytes, TotalBytes, Run, AbsRun, OpenStep, ReplayAll, ParseHint, MaxID;
    EmptyRel();
    RunRel(EMPTY, EMPTY_ABS, ops);
    OpenRel(Run(EMPTY, ops), AbsRun(EMPTY_ABS, ops), n);
  }

  /** A write after a Merge is lost by reopening: from any state with live keys, Merge, Put,
      Close, Open, Get answers what Get answered before the Put. */
  lemma WriteAfterMergeIsLost(s: State, a: Abs, k: Key, v: seq<byte>, n: int)
    requires WellFormed(s) && Rel(s, a) && !s.closed && a.cur != map[] && |k| > 0
    requires Feasible(s, [Merge, Put(k, v), Close, Open(n), Get(k)])
    ensures Replies(s, [Merge, Put(k, v), Close, Open(n), Get(k)]) ==
      [Done, Done, Done, Done, if k in a.cur then Found(a.cur[k]) else Absent]
  {
    hide GoodFiles, IndexMatches, HintMatches, SegmentsMatch, Step;
    var ops := [Merge, Put(k, v), Close, Open(n), Get(k)];
    RunRel(s, a, ops);
    var a1 := a.(saved := Some(a.cur));
    var a2 := a1.(cur := a.cur[k := v]);
    assert AbsReplies(a, ops) == [Done] + AbsReplies(a1, ops[1..]);
    assert AbsReplies(a1, ops[1..]) == [Done] + AbsReplies(a2, ops[2..]);
    assert AbsReplies(a2, ops[2..]) == [Done] + AbsReplies(a2.(closed := true), ops[3..]);
    var a4 := Abs(a.cur, a1.saved, false);
    assert AbsReplies(a2.(closed := true), ops[3..]) == [Done] + AbsReplies(a4, ops[4..]);
    assert AbsReplies(a4, ops[4..]) == [AbsStep(a4, Get(k)).1] + AbsReplies(a4, ops[5..]);
  }

  // ---- Compaction ----

  /** Merge with live keys leaves one segment with an ID above all earlier ones; its bytes
      are a function of the map alone, and there are no more of them than before. */
  lemma MergeCanonical(s: State, a: Abs)
    requires WellFormed(s) && Rel(s, a) && !s.closed && a.cur != map[]
    ensures var t := MergeStep(s).0; var newID := t.activeID;
      && (forall id | id in s.dir.files :: id < newID)
      && t.segments == {newID} && t.dir.files == map[newID := CanonicalLog(a.cur)]
      && |CanonicalLog(a.cur)| == LiveBytes(s.index) <= TotalBytes(s.dir.files)
      && t.dir.hint == Some(HintBytes(t.index)) && t.index.Keys == a.cur.Keys
  {
    hide GoodIndex, CopyLive, ReplayAll, Clean, LiveBytes, TotalBytes, HintMatches, CanonicalLog, MaxID;
    hide LiveKeys, HintBytes, GoodFiles, MergeStep, ValueAt;
    assert a.cur.Keys == LiveSet(s.index);
    MergeIsMerged(s);
    MaxIDAbove(s.segments);
    MergedSegment(s.dir.files, s.index, MaxID(s.segments) + 1);
  }

  /** The active ID rises above every earlier one if and only if there is a live key; without
      one the numbering starts over at 1. */
  lemma MergeRaisesID(s: State, a: Abs)
    requires WellFormed(s) && Rel(s, a) && !s.closed
    ensures (forall id | id in s.dir.files :: id < MergeStep(s).0.activeID) <==> a.cur != map[]
    ensures a.cur == map[] ==> MergeStep(s).0.activeID == 1 && MergeStep(s).0.dir == Dir(map[1 := []], None)
  {
    hide GoodIndex, CopyLive, ReplayAll, Clean, LiveBytes, TotalBytes, HintMatches, CanonicalLog, MaxID;
    hide LiveKeys, HintBytes, ValueAt;
    if a.cur != map[] {
      MergeCanonical(s, a);
    } else {
      assert LiveSet(s.index) == a.cur.Keys;
      LiveKeysList(s.index);
      assert s.activeID in s.dir.files && s.activeID >= 1;
      var none: Files := map[];
      assert s.dir.files - s.segments == none;
    }
  }

  // ---- A lost write, concretely ----

  const A: Key := [97]
  const B: Key := [98]

  function FirstStore(): State {
    State(Dir(map[1 := []], None), map[], {1}, 1, false, 0)
  }

  lemma Opening()
    ensures WellFormed(EMPTY) && Allowed(EMPTY, Open(0)) && Step(EMPTY, Open(0)) == (FirstStore(), Done)
  {
    hide RecoverIndex, MaxID, ParsedID, SegmentName;
    var none: Files := map[];
    assert Listed(none) == {};
    assert none[1 := []] == map[1 := []];
  }

  lemma FirstPut()
    ensures var s, r := FirstStore(), Record(A, [1], false); var t := AppendRecord(s, r);
      && Rel(s, Abs(map[], None, false)) && Allowed(s, Put(A, [1])) && Step(s, Put(A, [1])) == (t, Done)
      && Rel(t, Abs(map[A := [1]], None, false)) && t.segments == {1} && !t.closed
      && Allowed(t, Merge) && TotalBytes(t.dir.files) == 19
  {
    hide Rel, LiveBytes, TotalBytes, Frame, MaxID;
    var s, r := FirstStore(), Record(A, [1], false);
    var t := AppendRecord(s, r);
    FirstSegment(0);
    MaxIDIs({1}, 1);
    StepRel(s, Abs(map[], None, false), Put(A, [1]));
    FrameSize(r);
    assert t.dir.files == map[1 := Frame(r)] by { assert [] + Frame(r) == Frame(r); }
    TotalAlone(1, Frame(r));
    assert LiveSet(t.index) == {A};
    RelBytes(t, Abs(map[A := [1]], None, false));
  }

  lemma RelBytes(s: State, a: Abs)
    requires Rel(s, a)
    ensures LiveBytes(s.index) <= TotalBytes(s.dir.files)
  {
  }

  lemma MergeThenPut(s: State)
    requires WellFormed(s) && Rel(s, Abs(map[A := [1]], None, false)) && !s.closed && s.segments == {1}
    requires Allowed(s, Merge) && TotalBytes(s.dir.files) == 19
    ensures Feasible(s, [Merge, Put(B, [2]), Close, Open(0), Get(B)])
  {
    hide Rel, LiveBytes, TotalBytes, Frame, MaxID, MergeStep, PutStep, CanonicalLog, OpenStep;
    var a := Abs(map[A := [1]], None, false);
    MaxIDIs({1}, 1);
    RelFiles(s, a);
    MergeLiveID(s, a);
    MergeCanonical(s, a);
    var t := MergeStep(s).0;
    MaxIDIs({2}, 2);
    TailFeasible(t);
    assert Step(s, Merge) == MergeStep(s);
    var ops := [Merge, Put(B, [2]), Close, Open(0), Get(B)];
    assert ops[1..] == [Put(B, [2]), Close, Open(0), Get(B)];
  }

  lemma TailFeasible(t: State)
    requires WellFormed(t) && Allowed(t, Put(B, [2]))
    ensures Feasible(t, [Put(B, [2]), Close, Open(0), Get(B)])
  {
    hide PutStep, OpenStep, MaxID, Frame;
    var ops := [Put(B, [2]), Close, Open(0), Get(B)];
    var u := Step(t, Put(B, [2])).0;
    var v := Step(u, Close).0;
    assert Feasible(Step(v, Open(0)).0, ops[3..]);
    assert ops[2..] == [Open(0)] + ops[3..];
    assert Feasible(v, ops[2..]);
    assert ops[1..] == [Close] + ops[2..];
    assert Feasible(u, ops[1..]);
  }

  lemma RelFiles(s: State, a: Abs)
    requires Rel(s, a) && !s.closed
    ensures s.dir.files.Keys == s.segments && LiveSet(s.index) == a.cur.Keys
  {
    hide GoodFiles, GoodIndex, LiveBytes, TotalBytes, HintMatches;
  }

  lemma MergeLiveID(s: State, a: Abs)
    requires WellFormed(s) && Rel(s, a) && !s.closed && a.cur != map[]
    ensures MergeStep(s).1 == Done && MergeStep(s).0.activeID == MaxID(s.segments) + 1
    ensures !MergeStep(s).0.closed
  {
    hide GoodFiles, GoodIndex, Live, LiveSet, LiveKeys, LiveBytes, TotalBytes, HintMatches, CopyLive;
    hide MergeStep, MaxID, HintBytes;
    RelFiles(s, a);
    MergeIsMerged(s);
  }

  function LostWrite(): seq<Op> {
    [Open(0), Put(A, [1]), Merge, Put(B, [2]), Close, Open(0), Get(B)]
  }

  /** A concrete run that a plain map would answer differently. */
  lemma LostWriteExample()
    ensures Feasible(EMPTY, LostWrite())
    ensures Replies(EMPTY, LostWrite()) == [Done, Done, Done, Done, Done, Done, Absent]
    ensures PlainReplies(Plain(map[], true), LostWrite()) == [Done, Done, Done, Done, Done, Done, Found([2])]
  {
    hide Rel, Step, AppendRecord, TotalBytes, Allowed;
    var ops := LostWrite();
    var rest := [Merge, Put(B, [2]), Close, Open(0), Get(B)];
    Opening();
    FirstPut();
    var s, t := FirstStore(), AppendRecord(FirstStore(), Record(A, [1], false));
    MergeThenPut(t);
    assert A in map[A := [1]];
    WriteAfterMergeIsLost(t, Abs(map[A := [1]], None, false), B, [2], 0);
    assert ops[1..][1..] == rest && ops[1..][0] == Put(A, [1]);
    assert Feasible(s, ops[1..]);
    assert Replies(s, ops[1..]) == [Done] + Replies(t, rest);
    assert Replies(EMPTY, ops) == [Done] + Replies(s, ops[1..]);
    LostWritePlain();
  }

  lemma LostWritePlain()
    ensures PlainReplies(Plain(map[], true), LostWrite()) == [Done, Done, Done, Done, Done, Done, Found([2])]
  {
    var ops := LostWrite();
    var p := Plain(map[A := [1]][B := [2]], false);
    assert PlainReplies(p, ops[6..]) == [Found([2])];
    assert PlainReplies(p.(closed := true), ops[5..]) == [Done] + PlainReplies(p, ops[6..]);
    assert PlainReplies(p, ops[4..]) == [Done] + PlainReplies(p.(closed := true), ops[5..]);
    var q := Plain(map[A := [1]], false);
    assert PlainReplies(q, ops[3..]) == [Done] + PlainReplies(p, ops[4..]);
    assert PlainReplies(q, ops[2..]) == [Done] + PlainReplies(q, ops[3..]);
    assert PlainReplies(Plain(map[], false), ops[1..]) == [Done] + PlainReplies(q, ops[2..]);
  }
}
