/** internal/store/store.go and merge.go as state transformers over an abstract directory.
    Every read goes through byte offsets into segment bytes. */
module StoreModel {
  import opened Bytes
  import opened Order
  import opened LogEntry
  import opened LogReader
  import opened LogSegment
  import opened KeyIndex

  datatype StoreError =
    | EmptyKey
    | Closed
    | SegmentNotOpen
    | MissingFile
    | ReadFailed(read: LogError)
    | ScanFailed(scan: LogError)
    | HintMalformed

  datatype Reply = Done | Found(value: seq<byte>) | Absent | Failed(error: StoreError)

  type Files = map<int, seq<byte>>

  datatype Dir = Dir(files: Files, hint: Option<seq<byte>>)

  /** A store object together with its directory.  `segments` are the open segments. */
  datatype State = State(
    dir: Dir, index: Table, segments: set<int>, activeID: int, closed: bool, maxFileSize: int)

  /** An open store has an active segment, and its open segments exist on disk. */
  predicate WellFormed(s: State) {
    !s.closed ==> s.activeID in s.segments && s.segments <= s.dir.files.Keys
  }

  /** maxFileID: the largest ID, or zero. */
  ghost function MaxID(ids: set<int>): (m: nat)
    ensures forall id | id in ids :: id <= m
    ensures m == 0 || m in ids
    ensures ids != {} && (forall id | id in ids :: id >= 0) ==> m in ids
  {
    if ids == {} then 0 else
    var x := Pick(ids);
    var m := MaxID(ids - {x});
    assert ids == ids - {x} + {x};
    if x > m then x else m
  }

  lemma MaxIDIs(ids: set<int>, m: nat)
    requires (forall id | id in ids :: id <= m) && (m == 0 || m in ids)
    ensures MaxID(ids) == m
  {
  }

  lemma MaxIDAbove(ids: set<int>)
    ensures MaxID(ids) + 1 !in ids && forall id | id in ids :: id < MaxID(ids) + 1
  {
  }

  function WithSegment(files: Files, id: int): Files {
    if id in files then files else files[id := []]
  }

  // ---- Put, Delete, Get, Close ----

  function AppendRecord(s: State, r: Record): State
    requires WellFormed(s) && !s.closed
  {
    var data := s.dir.files[s.activeID];
    s.(dir := s.dir.(files := s.dir.files[s.activeID := data + Frame(r)]),
       index := s.index[r.key := Location(s.activeID, |data|, |Frame(r)|, r.tombstone)])
  }

  ghost function Rotate(s: State): State {
    var newID := MaxID(s.segments) + 1;
    s.(dir := s.dir.(files := WithSegment(s.dir.files, newID)), segments := s.segments + {newID}, activeID := newID)
  }

  ghost function PutStep(s: State, key: Key, value: seq<byte>): (r: (State, Reply))
    requires WellFormed(s)
    ensures WellFormed(r.0)
  {
    if s.closed then (s, Failed(Closed)) else
    if |key| == 0 then (s, Failed(EmptyKey)) else
    var t := AppendRecord(s, Record(key, value, false));
    (if s.maxFileSize > 0 && |t.dir.files[t.activeID]| > s.maxFileSize then Rotate(t) else t, Done)
  }

  function DeleteStep(s: State, key: Key): (r: (State, Reply))
    requires WellFormed(s)
    ensures WellFormed(r.0)
  {
    if s.closed then (s, Failed(Closed)) else
    if |key| == 0 then (s, Failed(EmptyKey)) else
    (AppendRecord(s, Record(key, [], true)), Done)
  }

  function GetReply(s: State, key: Key): Reply
    requires WellFormed(s)
  {
    if s.closed then Failed(Closed) else
    if key !in s.index || s.index[key].tombstone then Absent else
    var loc := s.index[key];
    if loc.fileID !in s.segments then Failed(SegmentNotOpen) else
    match ReadRecordAt(s.dir.files[loc.fileID], loc.fileID, loc.offset)
    case Err(e) => Failed(ReadFailed(e))
    case Ok(e) => Found(e.value)
  }

  function CloseStep(s: State): State {
    if s.closed then s else s.(closed := true, segments := {}, activeID := 0)
  }

  // ---- Merge ----

  datatype Copy = Copy(files: Files, index: Table, error: Option<StoreError>)

  /** The copying loop of Merge after the keys `ks`: each live record is read through its
      location and appended to segment newID. */
  function CopyLive(files: Files, index: Table, newID: int, ks: seq<Key>): (c: Copy)
    requires forall k | k in ks :: k in index
    ensures newID in c.files && files.Keys <= c.files.Keys
  {
    if |ks| == 0 then Copy(WithSegment(files, newID), map[], None) else
    var c, k := CopyLive(files, index, newID, ks[..|ks| - 1]), ks[|ks| - 1];
    CopyOne(c, index[k], newID, k)
  }

  function CopyOne(c: Copy, loc: Location, newID: int, k: Key): (d: Copy)
    requires newID in c.files
    ensures c.files.Keys == d.files.Keys && |c.files[newID]| <= |d.files[newID]|
  {
    if c.error.Some? then c else
    if loc.fileID !in c.files then c.(error := Some(MissingFile)) else
    match ReadRecordAt(c.files[loc.fileID], loc.fileID, loc.offset)
    case Err(e) => c.(error := Some(ReadFailed(e)))
    case Ok(e) =>
      var data, f := c.files[newID], Frame(Record(e.key, e.value, false));
      Copy(c.files[newID := data + f], c.index[k := Location(newID, |data|, |f|, false)], None)
  }

  ghost function MergeStep(s: State): (r: (State, Reply))
    requires WellFormed(s)
    ensures WellFormed(r.0)
  {
    if s.closed then (s, Failed(Closed)) else
    var live := LiveKeys(s.index);
    if |live| == 0 then (ResetToEmpty(s), Done) else
    var newID := MaxID(s.segments) + 1;
    var c := CopyLive(s.dir.files, s.index, newID, live);
    if c.error.Some? then (s.(dir := s.dir.(files := c.files)), Failed(c.error.value)) else
    (s.(dir := Dir(c.files - s.segments, Some(HintBytes(c.index))),
        index := c.index, segments := {newID}, activeID := newID), Done)
  }

  function ResetToEmpty(s: State): State {
    s.(dir := Dir(WithSegment(s.dir.files - s.segments, 1), None), index := map[], segments := {1}, activeID := 1)
  }

  // ---- Open ----

  /** listSegments: the IDs whose file names parse. */
  function Listed(files: Files): set<int> {
    set id | id in files && ParsedID(SegmentName(id)) == Some(id)
  }

  function ApplyEntries(m: Table, id: int, es: seq<Entry>): Table {
    if |es| == 0 then m else
    var e := es[|es| - 1];
    ApplyEntries(m, id, es[..|es| - 1])[e.key := Location(id, e.offset, e.size, e.tombstone)]
  }

  lemma NoEntries(m: Table, id: int)
    ensures ApplyEntries(m, id, []) == m
  {
  }

  lemma OneEntry(m: Table, id: int, es: seq<Entry>, e: Entry)
    ensures ApplyEntries(m, id, es + [e]) ==
      ApplyEntries(m, id, es)[e.key := Location(id, e.offset, e.size, e.tombstone)]
  {
    assert (es + [e])[..|es|] == es;
  }

  lemma {:induction false} ApplyConcat(m: Table, id: int, a: seq<Entry>, b: seq<Entry>)
    ensures ApplyEntries(m, id, a + b) == ApplyEntries(ApplyEntries(m, id, a), id, b)
    decreases |b|
  {
    hide ApplyEntries;
    if |b| == 0 {
      assert a + b == a;
      NoEntries(ApplyEntries(m, id, a), id);
    } else {
      var init, e := b[..|b| - 1], b[|b| - 1];
      ApplyConcat(m, id, a, init);
      assert a + b == (a + init) + [e] && b == init + [e];
      OneEntry(m, id, a + init, e);
      OneEntry(ApplyEntries(m, id, a), id, init, e);
    }
  }

  /** scanIndex over the segments `ids`, in that order. */
  function Replay(files: Files, ids: seq<int>): Result<Table, StoreError>
    requires forall id | id in ids :: id in files
  {
    if |ids| == 0 then Ok(map[]) else
    var id := ids[|ids| - 1];
    match Replay(files, ids[..|ids| - 1])
    case Err(e) => Err(e)
    case Ok(m) =>
      var scan := ScanFrom(files[id], 0);
      if scan.error == ErrEOF then Ok(ApplyEntries(m, id, scan.entries)) else Err(ScanFailed(scan.error))
  }

  ghost function OpenStep(dir: Dir, maxFileSize: int): (r: Result<State, StoreError>)
    ensures r.Ok? ==> WellFormed(r.value) && !r.value.closed
  {
    var ids := Listed(dir.files);
    if ids == {} then
      Ok(State(dir.(files := WithSegment(dir.files, 1)), map[], {1}, 1, false, maxFileSize))
    else
      match RecoverIndex(dir)
      case Err(e) => Err(e)
      case Ok(m) => Ok(State(dir, m, ids, MaxID(ids), false, maxFileSize))
  }

  /** The hint when there is one, a scan of the log otherwise. */
  ghost function RecoverIndex(dir: Dir): Result<Table, StoreError> {
    match dir.hint
    case Some(h) => (match ParseHint(h) case None => Err(HintMalformed) case Some(l) => Ok(l.table))
    case None => Replay(dir.files, SortedIDs(Listed(dir.files)))
  }
}
