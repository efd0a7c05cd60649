/** What every store operation keeps. */
module StoreInvariant {
  import opened Bytes
  import opened Order
  import opened LogEntry
  import opened LogReader
  import opened LogSegment
  import opened KeyIndex
  import opened StoreModel

  // ---- The map an index denotes ----

  /** The location reads back a record of this key, with the flag and size it states. */
  predicate Located(files: Files, k: Key, loc: Location) {
    loc.fileID in files &&
    match ReadRecordAt(files[loc.fileID], loc.fileID, loc.offset)
    case Err(_) => false
    case Ok(e) => e.key == k && e.tombstone == loc.tombstone && e.size == loc.size
  }

  function ValueAt(files: Files, loc: Location): seq<byte> {
    if loc.fileID !in files then [] else
    match ReadRecordAt(files[loc.fileID], loc.fileID, loc.offset)
    case Err(_) => []
    case Ok(e) => e.value
  }

  function Live(files: Files, m: Table): Values {
    map k | k in LiveSet(m) :: ValueAt(files, m[k])
  }

  ghost predicate GoodIndex(files: Files, m: Table) {
    forall k | k in m ::
      Located(files, k, m[k]) && m[k].size <= PREFIX_SIZE + MAX_RECORD_PAYLOAD && 0 < |k| <= MAX_HINT_KEY
  }

  /** The segments the index points into keep their contents, possibly extended. */
  ghost predicate Keeps(files: Files, files': Files, m: Table) {
    forall k | k in m && m[k].fileID in files ::
      m[k].fileID in files' && files[m[k].fileID] <= files'[m[k].fileID]
  }

  lemma LocatedStable(files: Files, files': Files, k: Key, loc: Location)
    requires Located(files, k, loc)
    requires loc.fileID in files' && files[loc.fileID] <= files'[loc.fileID]
    ensures Located(files', k, loc) && ValueAt(files', loc) == ValueAt(files, loc)
  {
    hide ReadRecordAt;
    var data, data' := files[loc.fileID], files'[loc.fileID];
    ReadStable(data, data'[|data|..], loc.fileID, loc.offset);
    assert data + data'[|data|..] == data';
  }

  lemma IndexStable(files: Files, files': Files, m: Table)
    requires GoodIndex(files, m) && Keeps(files, files', m)
    ensures GoodIndex(files', m) && Live(files', m) == Live(files, m)
  {
    hide Located, ValueAt;
    forall k | k in m
      ensures Located(files', k, m[k]) && ValueAt(files', m[k]) == ValueAt(files, m[k])
    {
      assert m[k].fileID in files by { LocatedFile(files, k, m[k]); }
      LocatedStable(files, files', k, m[k]);
    }
  }

  lemma LocatedFile(files: Files, k: Key, loc: Location)
    requires Located(files, k, loc)
    ensures loc.fileID in files && 0 <= loc.offset && PREFIX_SIZE <= loc.size
    ensures loc.offset + loc.size <= |files[loc.fileID]|
    ensures loc.size == PREFIX_SIZE + |k| + |ValueAt(files, loc)|
  {
    hide Crc32.Checksum, GetBE, PutBE, ParseHeader, Decode, Frame;
    var data := files[loc.fileID];
    var head := data[loc.offset..loc.offset + PREFIX_SIZE];
    var h := ParseHeader(head[4..]);
    var total := PREFIX_SIZE + h.keyLen + h.valueLen;
    var b := data[loc.offset..loc.offset + total];
    DecodeSound(b);
    var e := Decode(b).value;
    FrameSize(Record(e.key, e.value, e.tombstone));
  }

  // ---- Appending one record ----

  function Appended(files: Files, id: int, r: Record): Files
    requires id in files
  {
    files[id := files[id] + Frame(r)]
  }

  function Indexed(files: Files, m: Table, id: int, r: Record): Table
    requires id in files
  {
    m[r.key := Location(id, |files[id]|, |Frame(r)|, r.tombstone)]
  }

  function Applied(vals: Values, r: Record): Values {
    if r.tombstone then vals - {r.key} else vals[r.key := r.value]
  }

  predicate GoodRecord(r: Record) {
    0 < |r.key| <= MAX_HINT_KEY && Scannable(r)
  }

  lemma AppendGood(files: Files, m: Table, id: int, r: Record)
    requires id in files && GoodIndex(files, m) && GoodRecord(r)
    ensures GoodIndex(Appended(files, id, r), Indexed(files, m, id, r))
    ensures Live(Appended(files, id, r), Indexed(files, m, id, r)) == Applied(Live(files, m), r)
  {
    hide Located, ValueAt, Frame;
    var files', m' := Appended(files, id, r), Indexed(files, m, id, r);
    IndexStable(files, files', m);
    AppendLocated(files, id, r);
    assert LiveSet(m') == if r.tombstone then LiveSet(m) - {r.key} else LiveSet(m) + {r.key};
    assert Live(files', m').Keys == Applied(Live(files, m), r).Keys;
    forall k | k in LiveSet(m') ensures Live(files', m')[k] == Applied(Live(files, m), r)[k] {
      if k != r.key {
        assert Live(files', m')[k] == Live(files', m)[k];
      }
    }
  }

  lemma AppendLocated(files: Files, id: int, r: Record)
    requires id in files && GoodRecord(r)
    ensures var loc := Location(id, |files[id]|, |Frame(r)|, r.tombstone); var files' := Appended(files, id, r);
      Located(files', r.key, loc) && ValueAt(files', loc) == r.value && |Frame(r)| <= PREFIX_SIZE + MAX_RECORD_PAYLOAD
  {
    hide ReadRecordAt, Frame;
    FrameSize(r);
    ReadFrameAt(files[id], r, [], id);
    assert files[id] + Frame(r) + [] == files[id] + Frame(r);
  }

  // ---- Sizes ----

  function LiveSizes(m: Table): map<Key, nat> {
    map k | k in LiveSet(m) :: if m[k].size >= 0 then m[k].size else 0
  }

  function FileSizes(files: Files): map<int, nat> {
    map id | id in files :: |files[id]|
  }

  /** The bytes taken by live records, and the bytes of all segments. */
  ghost function LiveBytes(m: Table): nat { Sum(LiveSizes(m)) }

  ghost function TotalBytes(files: Files): nat { Sum(FileSizes(files)) }

  lemma AppendSizes(files: Files, m: Table, id: int, r: Record)
    requires id in files
    ensures TotalBytes(Appended(files, id, r)) == TotalBytes(files) + |Frame(r)|
    ensures LiveBytes(Indexed(files, m, id, r)) <= LiveBytes(m) + |Frame(r)|
    ensures r.key !in m && !r.tombstone ==> LiveBytes(Indexed(files, m, id, r)) == LiveBytes(m) + |Frame(r)|
  {
    hide Frame, Sum;
    var files', m' := Appended(files, id, r), Indexed(files, m, id, r);
    assert FileSizes(files') == FileSizes(files)[id := |files'[id]|];
    SumPut(FileSizes(files), id, |files'[id]|);
    if r.tombstone {
      assert LiveSizes(m') == LiveSizes(m) - {r.key};
      if r.key in LiveSizes(m) {
        SumRemove(LiveSizes(m), r.key);
      } else {
        assert LiveSizes(m) - {r.key} == LiveSizes(m);
      }
    } else {
      assert LiveSizes(m') == LiveSizes(m)[r.key := |Frame(r)|];
      SumPut(LiveSizes(m), r.key, |Frame(r)|);
    }
  }

  lemma NewSegmentSizes(files: Files, id: int)
    requires id !in files
    ensures TotalBytes(files[id := []]) == TotalBytes(files)
  {
    assert FileSizes(files[id := []]) == FileSizes(files)[id := 0];
    SumPut(FileSizes(files), id, 0);
  }

  /** Adding an empty segment with a fresh ID changes nothing that is stored. */
  lemma NewSegmentGood(files: Files, m: Table, id: int)
    requires id !in files && GoodIndex(files, m)
    ensures GoodIndex(files[id := []], m) && Live(files[id := []], m) == Live(files, m)
    ensures TotalBytes(files[id := []]) == TotalBytes(files)
  {
    hide Located, Live, TotalBytes, GoodIndex;
    IndexStable(files, files[id := []], m);
    NewSegmentSizes(files, id);
  }

  // ---- Replay ----

  ghost predicate GoodFiles(files: Files) {
    forall id | id in files :: 1 <= id < MAX_NAMED_ID && |files[id]| < TWO63
  }

  /** Every segment scans to its end. */
  ghost predicate AllClean(files: Files) {
    forall id | id in files :: Clean(files[id])
  }

  lemma ListedAll(files: Files)
    requires forall id | id in files :: 0 <= id < MAX_NAMED_ID
    ensures Listed(files) == files.Keys
  {
    forall id | id in files ensures ParsedID(SegmentName(id)) == Some(id) { NameRoundTrip(id); }
  }

  ghost function ReplayAll(files: Files): Result<Table, StoreError> {
    Replay(files, SortedIDs(files.Keys))
  }

  /** The segment with the largest ID is replayed last. */
  lemma ReplayLast(files: Files, id: int)
    requires id in files && forall j | j in files :: j <= id
    ensures var rest := SortedIDs(files.Keys - {id});
      && (forall j | j in rest :: j in files)
      && SortedIDs(files.Keys) == rest + [id]
      && ReplayAll(files) == match Replay(files, rest)
         case Err(e) => Err(e)
         case Ok(m) =>
           var scan := ScanFrom(files[id], 0);
           if scan.error == ErrEOF then Ok(ApplyEntries(m, id, scan.entries)) else Err(ScanFailed(scan.error))
  {
    hide ScanFrom;
    IdOrder();
    SortedAppend(IdLess, files.Keys - {id}, id);
    assert files.Keys - {id} + {id} == files.Keys;
    var ids := SortedIDs(files.Keys);
    assert ids[..|ids| - 1] == SortedIDs(files.Keys - {id});
  }

  lemma {:induction false} ReplaySame(files: Files, files': Files, ids: seq<int>)
    requires forall id | id in ids :: id in files && id in files' && files[id] == files'[id]
    ensures Replay(files', ids) == Replay(files, ids)
  {
    hide ScanFrom;
    if |ids| > 0 {
      ReplaySame(files, files', ids[..|ids| - 1]);
    }
  }

  /** Appending to the last segment replays as one more index update. */
  lemma ReplayAppend(files: Files, m: Table, id: int, r: Record)
    requires id in files && (forall j | j in files :: j <= id)
    requires Clean(files[id]) && Scannable(r) && ReplayAll(files) == Ok(m)
    ensures ReplayAll(Appended(files, id, r)) == Ok(Indexed(files, m, id, r))
  {
    hide ScanFrom, Frame, Replay;
    var files' := Appended(files, id, r);
    assert files'.Keys == files.Keys;
    ReplayLast(files, id);
    ReplayLast(files', id);
    var rest := SortedIDs(files.Keys - {id});
    ReplaySame(files, files', rest);
    ScanAppend(files[id], r);
    var es := ScanFrom(files[id], 0).entries;
    assert (es + [EntryOf(r, |files[id]|)])[..|es|] == es;
  }

  lemma ReplayNewSegment(files: Files, id: int)
    requires forall j | j in files :: j < id
    ensures ReplayAll(files[id := []]) == ReplayAll(files)
  {
    hide ScanFrom, Replay;
    var files' := files[id := []];
    ReplayLast(files', id);
    assert files'.Keys - {id} == files.Keys;
    ReplaySame(files, files', SortedIDs(files.Keys));
    ScanEnd([]);
  }
}
