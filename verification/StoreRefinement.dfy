/** The store refines a plain map, over every run. */
module StoreRefinement {
  import opened Bytes
  import opened Order
  import opened LogEntry
  import opened LogReader
  import opened LogSegment
  import opened KeyIndex
  import opened StoreModel
  import opened StoreInvariant
  import opened StoreMerge

  // ---- What a caller sees ----

  /** The current map, the map as it was when the hint file was written, and whether the
      store is closed. */
  datatype Abs = Abs(cur: Values, saved: Option<Values>, closed: bool)

  datatype Op =
    | Put(key: Key, value: seq<byte>)
    | Delete(key: Key)
    | Get(key: Key)
    | Merge
    | Close
    | Open(maxFileSize: int)

  function AbsStep(a: Abs, op: Op): (Abs, Reply) {
    match op
    case Close => (a.(closed := true), Done)
    case Open(_) => (Abs(if a.saved.Some? then a.saved.value else a.cur, a.saved, false), Done)
    case _ =>
      if a.closed then (a, Failed(Closed)) else
      match op
      case Put(k, v) => if |k| == 0 then (a, Failed(EmptyKey)) else (a.(cur := a.cur[k := v]), Done)
      case Delete(k) => if |k| == 0 then (a, Failed(EmptyKey)) else (a.(cur := a.cur - {k}), Done)
      case Get(k) => (a, if k in a.cur then Found(a.cur[k]) else Absent)
      case _ => (a.(saved := if a.cur == map[] then None else Some(a.cur)), Done)
  }

  // ---- Steps and runs of the store ----

  /** The resource limits under which the store is used, and that Open is called on a
      directory no open store is using. */
  ghost predicate Allowed(s: State, op: Op)
    requires WellFormed(s)
  {
    match op
    case Open(_) => s.closed
    case Close => true
    case Get(_) => true
    case Merge =>
      s.closed || (MaxID(s.segments) + 1 < MAX_NAMED_ID
                   && |LiveSet(s.index)| <= MAX_HINT_ENTRIES && LiveBytes(s.index) < TWO63)
    case _ => s.closed || (Small(op) && MaxID(s.segments) + 1 < MAX_NAMED_ID
                           && |s.dir.files[s.activeID]| + PREFIX_SIZE + MAX_RECORD_PAYLOAD < TWO63)
  }

  /** Keys fit the hint file and payloads fit the reader. */
  predicate Small(op: Op) {
    match op
    case Put(k, v) => |k| <= MAX_HINT_KEY && |k| + |v| <= MAX_RECORD_PAYLOAD
    case Delete(k) => |k| <= MAX_HINT_KEY
    case _ => true
  }

  ghost function Step(s: State, op: Op): (r: (State, Reply))
    requires WellFormed(s) && Allowed(s, op)
    ensures WellFormed(r.0)
  {
    match op
    case Put(k, v) => PutStep(s, k, v)
    case Delete(k) => DeleteStep(s, k)
    case Get(k) => (s, GetReply(s, k))
    case Merge => MergeStep(s)
    case Close => (CloseStep(s), Done)
    case Open(n) =>
      match OpenStep(s.dir, n)
      case Err(e) => (s, Failed(e))
      case Ok(t) => (t, Done)
  }

  /** No store and an empty directory. */
  const EMPTY := State(Dir(map[], None), map[], {}, 0, true, 0)
  const EMPTY_ABS := Abs(map[], None, true)

  // ---- The refinement relation ----

  /** The index denotes the map, and its live records fit into the segments. */
  ghost predicate IndexMatches(files: Files, m: Table, vals: Values) {
    GoodIndex(files, m) && Live(files, m) == vals && LiveBytes(m) <= TotalBytes(files)
  }

  ghost predicate HintMatches(dir: Dir, index: Table, saved: Option<Values>) {
    match dir.hint
    case None => saved == None && AllClean(dir.files) && ReplayAll(dir.files) == Ok(index)
    case Some(h) =>
      saved.Some? && dir.files != map[] && ParseHint(h).Some? &&
      IndexMatches(dir.files, ParseHint(h).value.table, saved.value)
      && forall k | k in ParseHint(h).value.table :: !ParseHint(h).value.table[k].tombstone
  }

  ghost predicate SegmentsMatch(s: State) {
    !s.closed ==> s.segments == s.dir.files.Keys && s.activeID == MaxID(s.segments) && s.activeID in s.segments
  }

  /** What calls on an open store rely on. */
  ghost predicate Core(s: State, a: Abs) {
    && s.closed == a.closed
    && GoodFiles(s.dir.files)
    && IndexMatches(s.dir.files, s.index, a.cur)
    && SegmentsMatch(s)
  }

  /** What a later Open relies on as well. */
  ghost predicate Rel(s: State, a: Abs) {
    Core(s, a) && HintMatches(s.dir, s.index, a.saved)
  }

  lemma AppendFiles(files: Files, id: int, r: Record)
    requires id in files && GoodFiles(files) && |files[id]| + |Frame(r)| < TWO63
    ensures GoodFiles(Appended(files, id, r))
  {
    hide Frame;
  }

  lemma AppendClean(files: Files, id: int, r: Record)
    requires id in files && AllClean(files) && Scannable(r)
    ensures AllClean(Appended(files, id, r))
  {
    hide Frame, Clean, Scannable;
    ScanAppend(files[id], r);
  }

  lemma AppendIndex(files: Files, m: Table, vals: Values, id: int, r: Record)
    requires id in files && IndexMatches(files, m, vals) && GoodRecord(r)
    ensures IndexMatches(Appended(files, id, r), Indexed(files, m, id, r), Applied(vals, r))
  {
    hide GoodIndex, Live, LiveBytes, TotalBytes, Appended, Indexed, Applied, GoodRecord;
    AppendGood(files, m, id, r);
    AppendSizes(files, m, id, r);
  }

  lemma AppendUnindexed(files: Files, m: Table, vals: Values, id: int, r: Record)
    requires id in files && IndexMatches(files, m, vals)
    ensures IndexMatches(Appended(files, id, r), m, vals)
  {
    hide GoodIndex, Live, LiveBytes, TotalBytes, Frame;
    IndexStable(files, Appended(files, id, r), m);
    AppendSizes(files, m, id, r);
  }

  lemma AppendHint(dir: Dir, index: Table, saved: Option<Values>, id: int, r: Record)
    requires id in dir.files && (forall j | j in dir.files :: j <= id) && GoodRecord(r)
    requires HintMatches(dir, index, saved)
    ensures HintMatches(dir.(files := Appended(dir.files, id, r)), Indexed(dir.files, index, id, r), saved)
  {
    hide IndexMatches, ReplayAll, ParseHint, Clean, Frame, Indexed;
    match dir.hint {
      case None =>
        AppendClean(dir.files, id, r);
        ReplayAppend(dir.files, index, id, r);
      case Some(h) => AppendUnindexed(dir.files, ParseHint(h).value.table, saved.value, id, r);
    }
  }

  lemma AppendCore(s: State, a: Abs, r: Record)
    requires WellFormed(s) && !s.closed && Core(s, a) && GoodRecord(r)
    requires |s.dir.files[s.activeID]| + |Frame(r)| < TWO63
    ensures Core(AppendRecord(s, r), a.(cur := Applied(a.cur, r)))
  {
    hide IndexMatches, GoodFiles, Applied, Frame, MaxID;
    var files, id := s.dir.files, s.activeID;
    assert AppendRecord(s, r) ==
      s.(dir := s.dir.(files := Appended(files, id, r)), index := Indexed(files, s.index, id, r));
    AppendFiles(files, id, r);
    AppendIndex(files, s.index, a.cur, id, r);
  }

  lemma AppendRel(s: State, a: Abs, r: Record)
    requires WellFormed(s) && !s.closed && Rel(s, a) && GoodRecord(r)
    requires |s.dir.files[s.activeID]| + |Frame(r)| < TWO63
    ensures Rel(AppendRecord(s, r), a.(cur := Applied(a.cur, r)))
  {
    hide IndexMatches, GoodFiles, HintMatches, Applied, Frame, MaxID;
    var files, id := s.dir.files, s.activeID;
    assert AppendRecord(s, r) ==
      s.(dir := s.dir.(files := Appended(files, id, r)), index := Indexed(files, s.index, id, r));
    AppendCore(s, a, r);
    MaxIDAbove(s.segments);
    AppendHint(s.dir, s.index, a.saved, id, r);
  }

  lemma NewSegmentIndex(files: Files, m: Table, vals: Values, id: int)
    requires id !in files && IndexMatches(files, m, vals)
    ensures IndexMatches(files[id := []], m, vals)
  {
    hide GoodIndex, Live, LiveBytes, TotalBytes;
    NewSegmentGood(files, m, id);
  }

  lemma NewSegmentHint(dir: Dir, index: Table, saved: Option<Values>, id: int)
    requires (forall j | j in dir.files :: j < id) && HintMatches(dir, index, saved)
    ensures HintMatches(dir.(files := dir.files[id := []]), index, saved)
  {
    hide IndexMatches, ReplayAll, ParseHint, Clean;
    match dir.hint {
      case None =>
        EmptyClean();
        ReplayNewSegment(dir.files, id);
      case Some(h) => NewSegmentIndex(dir.files, ParseHint(h).value.table, saved.value, id);
    }
  }

  lemma NewSegmentFiles(files: Files, id: int)
    requires GoodFiles(files) && 1 <= id < MAX_NAMED_ID
    ensures GoodFiles(files[id := []])
  {
  }

  lemma RotateCore(s: State, a: Abs)
    requires WellFormed(s) && !s.closed && Core(s, a) && MaxID(s.segments) + 1 < MAX_NAMED_ID
    ensures Core(Rotate(s), a)
  {
    hide IndexMatches, GoodFiles, MaxID, WellFormed;
    var files, id := s.dir.files, MaxID(s.segments) + 1;
    var files' := files[id := []];
    MaxIDAbove(s.segments);
    NewSegmentFiles(files, id);
    NewSegmentIndex(files, s.index, a.cur, id);
    assert s.segments + {id} == files'.Keys;
    MaxIDPositive(files', id);
  }

  lemma RotateRel(s: State, a: Abs)
    requires WellFormed(s) && !s.closed && Rel(s, a) && MaxID(s.segments) + 1 < MAX_NAMED_ID
    ensures Rel(Rotate(s), a)
  {
    hide IndexMatches, GoodFiles, HintMatches, MaxID, WellFormed;
    RotateCore(s, a);
    MaxIDAbove(s.segments);
    NewSegmentHint(s.dir, s.index, a.saved, MaxID(s.segments) + 1);
  }

  lemma MaxIDPositive(files: Files, id: int)
    requires GoodFiles(files) && id in files && forall j | j in files :: j <= id
    ensures MaxID(files.Keys) == id
  {
    hide Clean, MaxID;
    MaxIDIs(files.Keys, id);
  }

  lemma EmptyClean()
    ensures Clean([])
  {
    ScanEnd([]);
  }

  lemma GetRel(s: State, a: Abs, k: Key)
    requires WellFormed(s) && Core(s, a)
    ensures GetReply(s, k) == AbsStep(a, Get(k)).1
  {
    hide ReadRecordAt, GoodFiles;
    if !s.closed && k in s.index {
      assert Located(s.dir.files, k, s.index[k]);
    }
  }

  /** The state Merge leaves when there are live keys. */
  ghost function Merged(s: State, newID: int, c: Copy): State
    requires newID in c.files
  {
    s.(dir := Dir(map[newID := c.files[newID]], Some(HintBytes(c.index))), index := c.index,
       segments := {newID}, activeID := newID)
  }

  lemma MergeIsMerged(s: State)
    requires WellFormed(s) && !s.closed && LiveSet(s.index) != {}
    requires GoodIndex(s.dir.files, s.index) && s.segments == s.dir.files.Keys
    ensures var newID := MaxID(s.segments) + 1; var c := CopyLive(s.dir.files, s.index, newID, LiveKeys(s.index));
      newID !in s.segments && MergeStep(s) == (Merged(s, newID, c), Done)
  {
    hide GoodIndex, Live, LiveSet, CopyLive, ReplayAll, Clean, LiveBytes, TotalBytes, HintBytes, CanonicalLog;
    hide MaxID, LiveKeys;
    LiveKeysList(s.index);
    MaxIDAbove(s.segments);
    MergedSegment(s.dir.files, s.index, MaxID(s.segments) + 1);
  }

  lemma MergedRel(s: State, a: Abs, newID: int, c: Copy)
    requires !s.closed && !a.closed && 1 <= newID < MAX_NAMED_ID && newID in c.files && |c.files[newID]| < TWO63
    requires var alone := map[newID := c.files[newID]];
      && Clean(c.files[newID]) && IndexMatches(alone, c.index, a.cur)
      && |c.index| <= MAX_HINT_ENTRIES && forall k | k in c.index :: !c.index[k].tombstone
    ensures Rel(Merged(s, newID, c), a.(saved := Some(a.cur)))
  {
    hide GoodIndex, Live, LiveBytes, TotalBytes, Clean, ParseHint, HintBytes, MaxID;
    var alone := map[newID := c.files[newID]];
    assert newID in alone;
    HintGood(alone, c.index);
    MaxIDIs({newID}, newID);
  }

  lemma MergeLiveRel(s: State, a: Abs)
    requires WellFormed(s) && Core(s, a) && Allowed(s, Merge) && !s.closed && LiveSet(s.index) != {}
    ensures MergeStep(s).1 == Done && Rel(MergeStep(s).0, a.(saved := Some(a.cur)))
  {
    hide GoodIndex, GoodFiles, CopyLive, ReplayAll, Clean, LiveBytes, TotalBytes, CanonicalLog, MaxID;
    hide LiveKeys, Merged, MergeStep, Live;
    MergeIsMerged(s);
    var newID := MaxID(s.segments) + 1;
    MergedSegment(s.dir.files, s.index, newID);
    var c := CopyLive(s.dir.files, s.index, newID, LiveKeys(s.index));
    assert |c.index| == |c.index.Keys|;
    MergedRel(s, a, newID, c);
  }

  /** Merge does not need the log to scan: it leaves one that does. */
  lemma MergeRel(s: State, a: Abs)
    requires WellFormed(s) && Core(s, a) && Allowed(s, Merge) && !s.closed
    ensures MergeStep(s).1 == AbsStep(a, Merge).1 && Rel(MergeStep(s).0, AbsStep(a, Merge).0)
  {
    hide GoodIndex, GoodFiles, CopyLive, LiveBytes, TotalBytes, HintMatches, MaxID, LiveKeys;
    LiveKeysList(s.index);
    assert a.cur.Keys == LiveSet(s.index);
    if |LiveKeys(s.index)| == 0 {
      assert a.cur == map[];
      ResetRel(s, a);
    } else {
      MergeLiveRel(s, a);
    }
  }

  /** A store on one empty segment. */
  lemma FirstSegment(n: int)
    ensures Rel(State(Dir(map[1 := []], None), map[], {1}, 1, false, n), Abs(map[], None, false))
  {
    hide ReplayAll, IndexMatches, MaxID, GoodFiles, Clean;
    var none: Files := map[];
    assert none[1 := []] == map[1 := []];
    EmptyClean();
    NothingLive();
    EmptyReplay();
    ReplayNewSegment(none, 1);
    NewSegmentIndex(none, map[], map[], 1);
    assert GoodFiles(none) by { NoFiles(); }
    NewSegmentFiles(none, 1);
    MaxIDIs({1}, 1);
  }

  lemma NoFiles()
    ensures GoodFiles(map[])
  {
  }

  lemma NothingLive()
    ensures IndexMatches(map[], map[], map[])
  {
    hide Located, ValueAt;
    assert LiveSizes(map[]) == map[];
  }

  lemma EmptyReplay()
    ensures ReplayAll(map[]) == Ok(map[])
  {
    assert SortedIDs({}) == [];
  }

  lemma ResetRel(s: State, a: Abs)
    requires WellFormed(s) && !s.closed && Core(s, a) && a.cur == map[]
    ensures Rel(ResetToEmpty(s), a.(saved := None))
  {
    hide GoodFiles, IndexMatches, HintMatches, MaxID;
    FirstSegment(s.maxFileSize);
    var none: Files := map[];
    assert s.dir.files - s.segments == none;
    assert none[1 := []] == map[1 := []];
  }

  lemma OpenRel(s: State, a: Abs, n: int)
    requires Rel(s, a) && s.closed
    ensures OpenStep(s.dir, n).Ok?
    ensures Rel(OpenStep(s.dir, n).value, AbsStep(a, Open(n)).0)
    ensures OpenStep(s.dir, n).value.dir.hint == s.dir.hint
  {
    hide GoodFiles, IndexMatches, ReplayAll, Replay, ParseHint, MaxID, Listed;
    var files := s.dir.files;
    NamedFiles(files);
    ListedAll(files);
    if files == map[] {
      OpenEmpty(s, a, n);
    } else {
      assert files.Keys != {};
      MaxIDMember(files);
      match s.dir.hint {
        case None => RecoverByReplay(s.dir);
        case Some(h) =>
      }
    }
  }

  lemma NamedFiles(files: Files)
    requires GoodFiles(files)
    ensures forall id | id in files :: 1 <= id < MAX_NAMED_ID
  {
    hide Clean;
  }

  lemma MaxIDMember(files: Files)
    requires GoodFiles(files) && files != map[]
    ensures MaxID(files.Keys) in files.Keys
  {
    hide Clean;
    assert files.Keys != {};
  }

  lemma RecoverByReplay(dir: Dir)
    requires GoodFiles(dir.files) && dir.hint == None
    ensures Listed(dir.files) == dir.files.Keys
    ensures RecoverIndex(dir) == ReplayAll(dir.files)
  {
    hide GoodFiles, Replay;
    NamedFiles(dir.files);
    ListedAll(dir.files);
  }

  lemma OpenEmpty(s: State, a: Abs, n: int)
    requires Rel(s, a) && s.closed && s.dir.files == map[]
    ensures OpenStep(s.dir, n).Ok? && Rel(OpenStep(s.dir, n).value, a.(closed := false))
    ensures OpenStep(s.dir, n).value.dir.hint == s.dir.hint
    ensures a.saved == None
  {
    hide MaxID, Rel, RecoverIndex;
    FirstSegment(n);
    EmptyDir(s, a);
    var none: Files := map[];
    assert Listed(none) == {};
    assert none[1 := []] == map[1 := []];
  }

  lemma EmptyDir(s: State, a: Abs)
    requires Rel(s, a) && s.dir.files == map[]
    ensures s.dir.hint == None && a.saved == None && s.index == map[] && a.cur == map[] && s.closed == a.closed
  {
    hide Located, LiveBytes, TotalBytes, MaxID, Replay;
    EmptyReplay();
    EmptyIndex(s.dir.files, s.index);
  }

  lemma EmptyIndex(files: Files, m: Table)
    requires GoodIndex(files, m)
    ensures m != map[] ==> files != map[]
  {
    hide ReadRecordAt;
    if m != map[] {
      var k :| k in m;
      assert Located(files, k, m[k]);
      assert m[k].fileID in files;
    }
  }

  lemma StepRel(s: State, a: Abs, op: Op)
    requires WellFormed(s) && Rel(s, a) && Allowed(s, op)
    ensures Step(s, op).1 == AbsStep(a, op).1 && Rel(Step(s, op).0, AbsStep(a, op).0)
  {
    hide GoodFiles, IndexMatches, HintMatches, Frame, OpenStep, MergeStep, GetReply, Rotate, AppendRecord, MaxID;
    match op {
      case Put(k, v) =>
        if !s.closed && |k| > 0 {
          PutRel(s, a, k, v);
        }
      case Delete(k) =>
        if !s.closed && |k| > 0 {
          var r := Record(k, [], true);
          FrameSize(r);
          AppendRel(s, a, r);
        }
      case Get(k) => GetRel(s, a, k);
      case Merge =>
        if s.closed {
          assert MergeStep(s) == (s, Failed(Closed)) by { ClosedMerge(s); }
        } else {
          MergeRel(s, a);
        }
      case Close =>
      case Open(n) => OpenRel(s, a, n);
    }
  }

  lemma ClosedMerge(s: State)
    requires WellFormed(s) && s.closed
    ensures MergeStep(s) == (s, Failed(Closed))
  {
  }

  lemma PutRel(s: State, a: Abs, k: Key, v: seq<byte>)
    requires WellFormed(s) && Rel(s, a) && Allowed(s, Put(k, v)) && !s.closed && |k| > 0
    ensures Rel(PutStep(s, k, v).0, a.(cur := a.cur[k := v]))
  {
    hide GoodFiles, IndexMatches, HintMatches, Frame, Rotate;
    var r := Record(k, v, false);
    FrameSize(r);
    AppendRel(s, a, r);
    RotateRel(AppendRecord(s, r), a.(cur := a.cur[k := v]));
  }

  // ---- Steps that do not open ----

  lemma PutCore(s: State, a: Abs, k: Key, v: seq<byte>)
    requires WellFormed(s) && Core(s, a) && Allowed(s, Put(k, v)) && !s.closed && |k| > 0
    ensures Core(PutStep(s, k, v).0, a.(cur := a.cur[k := v]))
  {
    hide GoodFiles, IndexMatches, Frame, Rotate;
    var r := Record(k, v, false);
    FrameSize(r);
    AppendCore(s, a, r);
    RotateCore(AppendRecord(s, r), a.(cur := a.cur[k := v]));
  }

  /** Without the scan of a later Open in view, the log need not be clean. */
  lemma StepCore(s: State, a: Abs, op: Op)
    requires WellFormed(s) && Core(s, a) && Allowed(s, op) && !op.Open? && (op.Merge? ==> s.closed)
    ensures Step(s, op).1 == AbsStep(a, op).1 && Core(Step(s, op).0, AbsStep(a, op).0)
  {
    hide GoodFiles, IndexMatches, Frame, MergeStep, GetReply, Rotate, AppendRecord, MaxID;
    match op {
      case Put(k, v) =>
        if !s.closed && |k| > 0 {
          PutCore(s, a, k, v);
        }
      case Delete(k) =>
        if !s.closed && |k| > 0 {
          var r := Record(k, [], true);
          FrameSize(r);
          AppendCore(s, a, r);
        }
      case Get(k) => GetRel(s, a, k);
      case Merge => assert MergeStep(s) == (s, Failed(Closed)) by { ClosedMerge(s); }
      case Close =>
    }
  }

  // ---- Runs ----

  ghost predicate Feasible(s: State, ops: seq<Op>)
    requires WellFormed(s)
    decreases |ops|
  {
    |ops| == 0 || (Allowed(s, ops[0]) && Feasible(Step(s, ops[0]).0, ops[1..]))
  }

  ghost function Run(s: State, ops: seq<Op>): (t: State)
    requires WellFormed(s) && Feasible(s, ops)
    ensures WellFormed(t)
    decreases |ops|
  {
    if |ops| == 0 then s else Run(Step(s, ops[0]).0, ops[1..])
  }

  ghost function Replies(s: State, ops: seq<Op>): seq<Reply>
    requires WellFormed(s) && Feasible(s, ops)
    decreases |ops|
  {
    if |ops| == 0 then [] else [Step(s, ops[0]).1] + Replies(Step(s, ops[0]).0, ops[1..])
  }

  function AbsRun(a: Abs, ops: seq<Op>): Abs
    decreases |ops|
  {
    if |ops| == 0 then a else AbsRun(AbsStep(a, ops[0]).0, ops[1..])
  }

  function AbsReplies(a: Abs, ops: seq<Op>): seq<Reply>
    decreases |ops|
  {
    if |ops| == 0 then [] else [AbsStep(a, ops[0]).1] + AbsReplies(AbsStep(a, ops[0]).0, ops[1..])
  }

  lemma {:induction false} RunRel(s: State, a: Abs, ops: seq<Op>)
    requires WellFormed(s) && Rel(s, a) && Feasible(s, ops)
    ensures Replies(s, ops) == AbsReplies(a, ops) && Rel(Run(s, ops), AbsRun(a, ops))
    decreases |ops|
  {
    hide Rel, Step, AbsStep, Allowed;
    if |ops| > 0 {
      StepRel(s, a, ops[0]);
      RunRel(Step(s, ops[0]).0, AbsStep(a, ops[0]).0, ops[1..]);
    }
  }

  /** No Open comes before a Merge of the open store. */
  predicate MergesFirst(closed: bool, ops: seq<Op>)
    decreases |ops|
  {
    || |ops| == 0
    || (ops[0].Merge? && !closed)
    || (!ops[0].Open? && MergesFirst(closed || ops[0].Close?, ops[1..]))
  }

  lemma {:induction false} RunCore(s: State, a: Abs, ops: seq<Op>)
    requires WellFormed(s) && Core(s, a) && Feasible(s, ops) && MergesFirst(s.closed, ops)
    ensures Replies(s, ops) == AbsReplies(a, ops)
    decreases |ops|
  {
    hide Core, Rel, Step, AbsStep, Allowed;
    if |ops| > 0 {
      var t, b := Step(s, ops[0]).0, AbsStep(a, ops[0]).0;
      if ops[0].Merge? && !s.closed {
        MergeStepRel(s, a);
        RunRel(t, b, ops[1..]);
      } else {
        StepCore(s, a, ops[0]);
        StepCloses(s, ops[0]);
        RunCore(t, b, ops[1..]);
      }
    }
  }

  lemma MergeStepRel(s: State, a: Abs)
    requires WellFormed(s) && Core(s, a) && Allowed(s, Merge) && !s.closed
    ensures Step(s, Merge).1 == AbsStep(a, Merge).1 && Rel(Step(s, Merge).0, AbsStep(a, Merge).0)
  {
    hide Core, Rel, AbsStep, MergeStep;
    MergeRel(s, a);
  }

  lemma StepCloses(s: State, op: Op)
    requires WellFormed(s) && Allowed(s, op) && !op.Open? && (op.Merge? ==> s.closed)
    ensures Step(s, op).0.closed == (s.closed || op.Close?)
  {
    hide Allowed, Frame, MaxID, GetReply;
    if op.Merge? {
      assert MergeStep(s) == (s, Failed(Closed)) by { ClosedMerge(s); }
    }
  }

  lemma EmptyRel()
    ensures WellFormed(EMPTY) && Rel(EMPTY, EMPTY_ABS)
  {
    assert SortedIDs({}) == [];
  }
}
