/** Runs of the store in which it also crashes and is opened again, any number of times. */
module StoreRecovery {
  import opened Bytes
  import opened Order
  import opened LogEntry
  import opened LogReader
  import opened KeyIndex
  import opened StoreModel
  import opened StoreInvariant
  import opened StoreMerge
  import opened StoreRefinement
  import opened StoreCrash

  // ---- Where the store can stop ----

  /** The record a Put or Delete appends. */
  function RecordOf(op: Op): Record
    requires op.Put? || op.Delete?
  {
    if op.Put? then Record(op.key, op.value, false) else Record(op.key, [], true)
  }

  /** An open store about to append the record of a Put or Delete. */
  ghost predicate CanWrite(s: State, op: Op) {
    WellFormed(s) && !s.closed && (op.Put? || op.Delete?) && |op.key| > 0 && Allowed(s, op)
  }

  ghost predicate CanMerge(s: State) {
    WellFormed(s) && !s.closed && LiveSet(s.index) != {} && Allowed(s, Merge)
  }

  datatype Crash =
    | Idle                        // between two calls
    | InWrite(op: Op, n: nat)     // n bytes of the record of a Put or Delete are written
    | Copying(i: nat)             // Merge has copied i records
    | InCopy(i: nat, n: nat)      // and n bytes of the next one
    | Removing(gone: set<int>)    // Merge has written the hint and removed these segments

  /** The crashes after which Open succeeds and the log can be relied on: those that leave part of
      a record need a hint.  With all of a record written, the crash is the one between the append
      of a Put and its rotation. */
  ghost predicate Survivable(s: State, c: Crash) {
    WellFormed(s) && !s.closed &&
    match c
    case Idle => true
    case InWrite(op, n) =>
      && CanWrite(s, op) && n <= |Frame(RecordOf(op))|
      && (s.dir.hint.Some? || n == 0 || n == |Frame(RecordOf(op))|)
    case Copying(i) => CanMerge(s) && i <= |LiveKeys(s.index)|
    case InCopy(i, n) =>
      && CanMerge(s) && i < |LiveKeys(s.index)| && LiveKeys(s.index)[i] in s.index
      && n < |Frame(LiveRecord(s.dir.files, s.index, LiveKeys(s.index)[i]))|
      && (s.dir.hint.Some? || n == 0)
    case Removing(gone) => CanMerge(s) && gone <= s.segments
  }

  ghost function CrashDir(s: State, c: Crash): Dir
    requires Survivable(s, c)
  {
    match c
    case Idle => s.dir
    case InWrite(op, n) => TornDir(s, RecordOf(op), n)
    case Copying(i) => AfterAppends(s, i)
    case InCopy(i, n) => TornCopyDir(s, i, n)
    case Removing(gone) => AfterRemovals(s, gone)
  }

  /** The map that a crash and Open leave: a write counts when its record is whole. */
  function AfterCrash(a: Abs, c: Crash): Abs {
    match c
    case InWrite(op, n) =>
      if (op.Put? || op.Delete?) && n == |Frame(RecordOf(op))|
      then Recovered(a.(cur := Applied(a.cur, RecordOf(op)))) else Recovered(a)
    case Removing(_) => Abs(a.cur, Some(a.cur), false)
    case _ => Recovered(a)
  }

  // ---- One crash ----

  lemma WritesFit(s: State, op: Op)
    requires CanWrite(s, op)
    ensures var r := RecordOf(op);
      && GoodRecord(r) && Scannable(r) && |r.key| + |r.value| > 0
      && |s.dir.files[s.activeID]| + |Frame(r)| < TWO63 && PREFIX_SIZE < |Frame(r)|
  {
    hide Frame, MaxID;
    FrameSize(RecordOf(op));
  }

  lemma IdleCrash(s: State, a: Abs, max: int)
    requires WellFormed(s) && !s.closed && Rel(s, a)
    ensures var o := OpenStep(s.dir, max); o.Ok? && Rel(o.value, Recovered(a))
  {
    hide Rel, Core, OpenStep;
    RelHint(s, a);
    OpenRel(CloseStep(s), a.(closed := true), max);
  }

  lemma WriteCrash(s: State, a: Abs, op: Op, n: nat, max: int)
    requires Rel(s, a) && Survivable(s, InWrite(op, n))
    ensures var o := OpenStep(CrashDir(s, InWrite(op, n)), max);
      o.Ok? && Rel(o.value, AfterCrash(a, InWrite(op, n)))
  {
    hide Rel, Core, OpenStep, TornDir, Frame, RecordOf, Allowed, Scannable, GoodRecord, Applied, Recovered;
    hide AppendRecord;
    RelHint(s, a);
    WritesFit(s, op);
    var r := RecordOf(op);
    if n == |Frame(r)| {
      AppendRel(s, a, r);
      WholeRecord(s, r);
      IdleCrash(AppendRecord(s, r), a.(cur := Applied(a.cur, r)), max);
    } else {
      TornAppend(s, a, r, n, max);
    }
  }

  lemma WholeRecord(s: State, r: Record)
    requires WellFormed(s) && !s.closed
    ensures var t := AppendRecord(s, r);
      WellFormed(t) && !t.closed && TornDir(s, r, |Frame(r)|) == t.dir
  {
    hide Frame;
    assert Frame(r)[..|Frame(r)|] == Frame(r);
  }

  lemma CopyCrash(s: State, a: Abs, i: nat, n: nat, max: int)
    requires Rel(s, a) && Survivable(s, InCopy(i, n))
    ensures var o := OpenStep(CrashDir(s, InCopy(i, n)), max); o.Ok? && Rel(o.value, Recovered(a))
  {
    hide Rel, OpenStep, TornDir, TornCopyDir, AsIfWritten, Frame, Scannable, Allowed, LiveRecord, LiveKeys, LiveSet;
    RelHint(s, a);
    CopyIsAppend(s, a, i);
    TornCopyIsTornAppend(s, a, i, n);
    TornAppend(AsIfWritten(s, i), a, LiveRecord(s.dir.files, s.index, LiveKeys(s.index)[i]), n, max);
  }

  /** Open after any of these crashes succeeds and keeps the refinement relation. */
  lemma CrashRel(s: State, a: Abs, c: Crash, max: int)
    requires Rel(s, a) && Survivable(s, c)
    ensures var o := OpenStep(CrashDir(s, c), max); o.Ok? && Rel(o.value, AfterCrash(a, c))
  {
    hide Rel, OpenStep, TornDir, TornCopyDir, AfterAppends, AfterRemovals, LiveKeys, LiveSet, Allowed, Frame;
    match c {
      case Idle => IdleCrash(s, a, max);
      case InWrite(op, n) => WriteCrash(s, a, op, n, max);
      case Copying(i) => CrashWhileCopying(s, a, i, max);
      case InCopy(i, n) => CopyCrash(s, a, i, n, max);
      case Removing(gone) => CrashWhileRemoving(s, a, gone, max);
    }
  }

  // ---- Runs with crashes ----

  datatype Event = Call(op: Op) | Crashed(crash: Crash, maxFileSize: int)

  ghost predicate Possible(s: State, e: Event)
    requires WellFormed(s)
  {
    match e
    case Call(op) => Allowed(s, op)
    case Crashed(c, _) => Survivable(s, c)
  }

  ghost function EventStep(s: State, e: Event): (r: (State, Reply))
    requires WellFormed(s) && Possible(s, e)
    ensures WellFormed(r.0)
  {
    match e
    case Call(op) => Step(s, op)
    case Crashed(c, max) =>
      match OpenStep(CrashDir(s, c), max)
      case Err(why) => (s, Failed(why))
      case Ok(t) => (t, Done)
  }

  function AbsEvent(a: Abs, e: Event): (Abs, Reply) {
    match e
    case Call(op) => AbsStep(a, op)
    case Crashed(c, _) => (AfterCrash(a, c), Done)
  }

  ghost predicate CanHappen(s: State, es: seq<Event>)
    requires WellFormed(s)
    decreases |es|
  {
    |es| == 0 || (Possible(s, es[0]) && CanHappen(EventStep(s, es[0]).0, es[1..]))
  }

  ghost function After(s: State, es: seq<Event>): (t: State)
    requires WellFormed(s) && CanHappen(s, es)
    ensures WellFormed(t)
    decreases |es|
  {
    if |es| == 0 then s else After(EventStep(s, es[0]).0, es[1..])
  }

  ghost function Answers(s: State, es: seq<Event>): seq<Reply>
    requires WellFormed(s) && CanHappen(s, es)
    decreases |es|
  {
    if |es| == 0 then [] else [EventStep(s, es[0]).1] + Answers(EventStep(s, es[0]).0, es[1..])
  }

  function AbsAfter(a: Abs, es: seq<Event>): Abs
    decreases |es|
  {
    if |es| == 0 then a else AbsAfter(AbsEvent(a, es[0]).0, es[1..])
  }

  function AbsAnswers(a: Abs, es: seq<Event>): seq<Reply>
    decreases |es|
  {
    if |es| == 0 then [] else [AbsEvent(a, es[0]).1] + AbsAnswers(AbsEvent(a, es[0]).0, es[1..])
  }

  lemma EventRel(s: State, a: Abs, e: Event)
    requires WellFormed(s) && Rel(s, a) && Possible(s, e)
    ensures EventStep(s, e).1 == AbsEvent(a, e).1 && Rel(EventStep(s, e).0, AbsEvent(a, e).0)
  {
    hide Rel, Step, AbsStep, Allowed, Survivable, CrashDir, AfterCrash, OpenStep;
    match e {
      case Call(op) => StepRel(s, a, op);
      case Crashed(c, max) => CrashRel(s, a, c, max);
    }
  }

  lemma {:induction false} EventsRel(s: State, a: Abs, es: seq<Event>)
    requires WellFormed(s) && Rel(s, a) && CanHappen(s, es)
    ensures Answers(s, es) == AbsAnswers(a, es) && Rel(After(s, es), AbsAfter(a, es))
    decreases |es|
  {
    hide Rel, EventStep, AbsEvent, Possible;
    if |es| > 0 {
      EventRel(s, a, es[0]);
      EventsRel(EventStep(s, es[0]).0, AbsEvent(a, es[0]).0, es[1..]);
    }
  }

  /** From an empty directory, over any run of calls and crashes, each crash followed by Open,
      every call answers as the map does: Open succeeds after each crash and brings back the map
      with the writes whose records are whole, or the one an older hint stands for. */
  lemma EveryRunWithCrashes(es: seq<Event>)
    requires CanHappen(EMPTY, es)
    ensures Answers(EMPTY, es) == AbsAnswers(EMPTY_ABS, es)
  {
    EmptyRel();
    EventsRel(EMPTY, EMPTY_ABS, es);
  }
}
