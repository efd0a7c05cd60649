/** internal/store/store.go and merge.go as written: a store object over segment objects,
    an index object and a shared directory.  Every method is proved to perform the state
    transformer of StoreModel. */
module Store {
  import opened Bytes
  import opened Order
  import opened LogEntry
  import opened LogReader
  import opened LogSegment
  import opened KeyIndex
  import opened StoreModel

  class Store {
    const disk: Disk
    const maxFileSize: int
    var index: Index
    var segments: map<int, Segment>
    var activeID: int
    var active: Segment?
    var closed: bool

    /** The state of StoreModel this object is in. */
    ghost function View(): State
      reads this, disk, index
    {
      State(Dir(disk.files, disk.hint), index.m, segments.Keys, activeID, closed, maxFileSize)
    }

    ghost predicate Valid()
      reads this, disk, segments.Values
    {
      && (forall id | id in segments ::
            segments[id].disk == disk && segments[id].fileID == id && segments[id].open && segments[id].Valid())
      && (!closed ==> activeID in segments && active == segments[activeID])
    }

    lemma Opened()
      requires Valid()
      ensures WellFormed(View())
      ensures !closed ==> active != null && active in segments.Values
      ensures !closed ==> active.disk == disk && active.fileID == activeID && active.open && active.Valid()
    {
      assert forall id | id in segments :: segments[id].Valid() && segments[id].open && id in disk.files;
      if !closed {
        assert segments[activeID] in segments.Values;
      }
    }

    constructor Empty(disk: Disk, maxFileSize: int, index: Index)
      ensures this.disk == disk && this.maxFileSize == maxFileSize && this.index == index
      ensures segments == map[] && closed && Valid()
    {
      this.disk, this.maxFileSize, this.index := disk, maxFileSize, index;
      segments, activeID, active, closed := map[], 0, null, true;
    }

    method Put(key: Key, value: seq<byte>) returns (r: Reply)
      requires Valid()
      modifies this, disk`files, index, segments.Values
      ensures Valid() && index == old(index)
      ensures WellFormed(old(View())) && (View(), r) == PutStep(old(View()), key, value)
    {
      hide Frame, MaxID;
      Opened();
      if closed {
        return Failed(Closed);
      }
      if |key| == 0 {
        return Failed(EmptyKey);
      }
      var off, size, err := active.Append(key, value, false);
      assert err == None;
      index.Put(key, Location(activeID, off, size, false));
      if maxFileSize > 0 && active.size > maxFileSize {
        RotateSegment();
      }
      return Done;
    }

    method Delete(key: Key) returns (r: Reply)
      requires Valid()
      modifies this, disk`files, index, segments.Values
      ensures Valid() && index == old(index)
      ensures WellFormed(old(View())) && (View(), r) == DeleteStep(old(View()), key)
    {
      hide Frame;
      Opened();
      if closed {
        return Failed(Closed);
      }
      if |key| == 0 {
        return Failed(EmptyKey);
      }
      var off, size, err := active.Append(key, [], true);
      assert err == None;
      index.Put(key, Location(activeID, off, size, true));
      return Done;
    }

    method Get(key: Key) returns (r: Reply)
      requires Valid()
      ensures WellFormed(View()) && r == GetReply(View(), key)
    {
      hide ReadRecordAt;
      Opened();
      if closed {
        return Failed(Closed);
      }
      var loc, ok := index.Get(key);
      if !ok || loc.tombstone {
        return Absent;
      }
      if loc.fileID !in segments {
        return Failed(SegmentNotOpen);
      }
      var e := segments[loc.fileID].ReadAt(loc.offset);
      match e {
        case Err(why) => return Failed(ReadFailed(why));
        case Ok(entry) => return Found(entry.value);
      }
    }

    method MaxFileID() returns (max: nat)
      ensures max == MaxID(segments.Keys)
    {
      hide MaxID;
      max := 0;
      var left := segments.Keys;
      while left != {}
        invariant left <= segments.Keys
        invariant forall id | id in segments && id !in left :: id <= max
        invariant max == 0 || max in segments
        decreases left
      {
        ghost var some: int := Pick(left);
        var id: int :| id in left;
        left := left - {id};
        if id > max {
          max := id;
        }
      }
      MaxIDIs(segments.Keys, max);
    }

    /** A segment with an ID above all open ones. */
    method NextSegment() returns (seg: Segment)
      requires Valid()
      modifies disk`files
      ensures Valid() && fresh(seg) && seg.Valid() && seg.open && seg.disk == disk
      ensures seg.fileID == MaxID(segments.Keys) + 1 && seg.fileID !in segments
      ensures disk.files == WithSegment(old(disk.files), seg.fileID)
    {
      hide MaxID;
      var max := MaxFileID();
      MaxIDAbove(segments.Keys);
      seg := new Segment(disk, max + 1);
    }

    method RotateSegment()
      requires Valid() && !closed
      modifies this, disk`files
      ensures Valid() && index == old(index) && View() == Rotate(old(View()))
      ensures segments.Values <= old(segments.Values) + {active} && fresh(active)
    {
      hide MaxID;
      var seg := NextSegment();
      segments := segments[seg.fileID := seg];
      activeID := seg.fileID;
      active := seg;
    }

    method CloseAll()
      requires Valid()
      modifies this`segments, this`active, this`activeID, segments.Values
      ensures segments == map[] && active == null && activeID == 0
      ensures forall id | id in old(segments) :: !old(segments)[id].open
    {
      ghost var before := segments;
      var left := segments;
      while left != map[]
        invariant left.Values <= old(segments.Values)
        invariant forall id | id in left :: id in before && left[id] == before[id]
        invariant forall id | id in before :: before[id] in before.Values && (id in left || !before[id].open)
        decreases |left|
      {
        ghost var some: int := Pick(left.Keys);
        var id: int :| id in left;
        assert left[id] in left.Values;
        left[id].Close();
        assert |left.Keys - {id}| < |left.Keys|;
        assert (left - {id}).Keys == left.Keys - {id};
        left := left - {id};
      }
      segments := map[];
      active := null;
      activeID := 0;
    }

    method Close()
      requires Valid()
      modifies this, segments.Values
      ensures Valid() && index == old(index) && View() == CloseStep(old(View()))
      ensures closed && View().dir == old(View()).dir && View().index == old(View()).index
      ensures !old(closed) ==> segments == map[] && activeID == 0 && active == null
      ensures !old(closed) ==> forall id | id in old(segments) :: !old(segments)[id].open
    {
      if closed {
        return;
      }
      closed := true;
      CloseAll();
    }

    /** Close and remove every open segment, in no particular order; the file of a segment
        goes right after its handle. */
    method RemoveSegments()
      requires Valid()
      modifies this`segments, disk`files, segments.Values
      ensures segments == map[] && disk.files == old(disk.files) - old(segments.Keys)
    {
      ghost var before, files := segments, disk.files;
      var left := segments.Keys;
      DropNone(before);
      assert files - (before.Keys - before.Keys) == files;
      while left != {}
        invariant left <= before.Keys && segments == before - (before.Keys - left)
        invariant disk.files == files - (before.Keys - left)
        decreases left
      {
        ghost var some: int := Pick(left);
        var id: int :| id in left;
        assert segments[id] == before[id] && before[id] in before.Values;
        segments[id].Close();
        DropOne(before, before.Keys - left, id);
        DropOne(files, before.Keys - left, id);
        assert before.Keys - left + {id} == before.Keys - (left - {id});
        segments := segments - {id};
        disk.files := disk.files - {id};
        left := left - {id};
      }
      assert before - before.Keys == map[];
    }

    method ResetAll()
      requires Valid() && !closed
      modifies this, disk, segments.Values
      ensures Valid() && fresh(index) && View() == ResetToEmpty(old(View()))
    {
      RemoveSegments();
      disk.hint := None;
      StartOver();
    }

    /** One empty segment with ID 1 and an empty index. */
    method StartOver()
      modifies this`segments, this`activeID, this`active, this`index, disk`files
      ensures Valid() && fresh(index) && index.m == map[] && segments.Keys == {1}
      ensures activeID == 1 && active == segments[1]
      ensures disk.files == WithSegment(old(disk.files), 1) && forall id | id in segments :: fresh(segments[id])
    {
      var seg := new Segment(disk, 1);
      segments := map[1 := seg];
      activeID := 1;
      active := seg;
      index := new Index();
    }

    /** The copying loop of Merge.  At its head the directory is AfterAppends of StoreCrash. */
    method CopyRecords(live: seq<KeyLocation>, newSeg: Segment, newIndex: Index, ghost files: Files)
      returns (failure: Option<StoreError>)
      requires Valid() && newSeg.Valid() && newSeg.open && newSeg.disk == disk && newSeg.fileID !in segments
      requires newIndex != index && Indexed(live, index.m)
      requires Copy(disk.files, newIndex.m, None) == CopyLive(files, index.m, newSeg.fileID, [])
      modifies newSeg, disk`files, newIndex
      ensures Valid() && newSeg.Valid() && newSeg.open
      ensures Copy(disk.files, newIndex.m, failure) == CopyLive(files, index.m, newSeg.fileID, KeysOf(live))
    {
      hide ReadRecordAt, CopyLive, Frame;
      ghost var ks := KeysOf(live);
      assert ks[..0] == [];
      for i := 0 to |live|
        invariant Valid() && newSeg.Valid() && newSeg.open
        invariant Copy(disk.files, newIndex.m, None) == CopyLive(files, index.m, newSeg.fileID, ks[..i])
      {
        var key, loc := live[i].key, live[i].loc;
        CopyNext(files, index.m, newSeg.fileID, ks, i);
        if loc.fileID !in disk.files {
          return Some(MissingFile);
        }
        var read := ReadRecordAt(disk.files[loc.fileID], loc.fileID, loc.offset);
        match read {
          case Err(why) => return Some(ReadFailed(why));
          case Ok(e) =>
            var off, size, err := newSeg.Append(e.key, e.value, false);
            assert err == None;
            newIndex.Put(key, Location(newSeg.fileID, off, size, false));
        }
      }
      assert ks[..|ks|] == ks;
      return None;
    }

    method WriteHintFile(idx: Index)
      modifies disk`hint
      ensures disk.hint == Some(HintBytes(idx.m))
    {
      hide HintBytes;
      disk.hint := Some([]);
      var w := idx.WriteHint();
      disk.hint := Some(w);
    }

    /** Drop the old segments and switch to the new one. */
    method Promote(newSeg: Segment, newIndex: Index)
      requires Valid() && newSeg.Valid() && newSeg.open && newSeg.disk == disk && newSeg.fileID !in segments
      requires newSeg !in segments.Values
      modifies this, disk`files, segments.Values
      ensures Valid() && index == newIndex && segments.Keys == {newSeg.fileID} && activeID == newSeg.fileID
      ensures disk.files == old(disk.files) - old(segments.Keys) && closed == old(closed)
    {
      ghost var files := disk.files;
      RemoveSegments();
      assert disk.files[newSeg.fileID] == files[newSeg.fileID];
      segments := map[newSeg.fileID := newSeg];
      activeID := newSeg.fileID;
      active := newSeg;
      index := newIndex;
    }

    method Install(newSeg: Segment, newIndex: Index)
      requires Valid() && newSeg.Valid() && newSeg.open && newSeg.disk == disk && newSeg.fileID !in segments
      requires newSeg !in segments.Values
      modifies this, disk, segments.Values
      ensures Valid() && index == newIndex && segments.Keys == {newSeg.fileID} && activeID == newSeg.fileID
      ensures disk.files == old(disk.files) - old(segments.Keys) && closed == old(closed)
      ensures disk.hint == Some(HintBytes(newIndex.m))
    {
      hide HintBytes;
      WriteHintFile(newIndex);
      Promote(newSeg, newIndex);
    }

    method Merge() returns (r: Reply)
      requires Valid()
      modifies this, disk, segments.Values
      ensures Valid() && (index == old(index) || fresh(index))
      ensures WellFormed(old(View())) && (View(), r) == MergeStep(old(View()))
    {
      hide MaxID, LiveKeys, MergeStep, ResetToEmpty, CopyLive, WellFormed, HintBytes, Distinct;
      Opened();
      MergeOutcome(View());
      if closed {
        return Failed(Closed);
      }
      var live := index.LiveEntries();
      if |live| == 0 {
        ResetAll();
        return Done;
      }
      r := MergeLive(live);
    }

    method MergeLive(live: seq<KeyLocation>) returns (r: Reply)
      requires Valid() && !closed && Indexed(live, index.m)
      modifies this, disk, segments.Values
      ensures Valid() && (index == old(index) || fresh(index))
      ensures var newID := MaxID(old(segments).Keys) + 1;
        var c := CopyLive(old(disk.files), old(index.m), newID, KeysOf(live));
        closed == old(closed) &&
        if c.error.Some? then
          && r == Failed(c.error.value) && disk.files == c.files && disk.hint == old(disk.hint)
          && index.m == old(index.m) && segments == old(segments) && activeID == old(activeID)
        else
          && r == Done && disk.files == c.files - old(segments).Keys && disk.hint == Some(HintBytes(c.index))
          && index.m == c.index && segments.Keys == {newID} && activeID == newID
    {
      hide MaxID, HintBytes, CopyLive;
      ghost var files := disk.files;
      var newSeg := NextSegment();
      var newIndex := new Index();
      CopyNone(files, index.m, newSeg.fileID);
      var failure := CopyRecords(live, newSeg, newIndex, files);
      if failure.Some? {
        return Failed(failure.value);
      }
      Install(newSeg, newIndex);
      return Done;
    }

    // ---- Open ----

    /** The loop body of scanIndex for one segment. */
    method ScanSegment(id: int, data: seq<byte>) returns (failure: Option<StoreError>)
      modifies index
      ensures var scan := ScanFrom(data, 0);
        if scan.error == ErrEOF then failure == None && index.m == ApplyEntries(old(index.m), id, scan.entries)
        else failure == Some(ScanFailed(scan.error))
    {
      hide NextAt, ScanFrom, ApplyEntries;
      NoEntries(index.m, id);
      var rd := new Reader(data);
      ghost var done: seq<Entry> := [];
      while true
        invariant rd.Valid() && rd.data == data && rd.pos == rd.cursor && fresh(rd)
        invariant index.m == ApplyEntries(old(index.m), id, done)
        invariant var rest := ScanFrom(data, rd.pos);
          ScanFrom(data, 0) == Scan(done + rest.entries, rest.position, rest.error)
        decreases |data| - rd.cursor
      {
        ScanStep(data, rd.pos);
        ghost var rest := if NextAt(data, rd.pos, rd.pos).result.Ok?
          then ScanFrom(data, NextAt(data, rd.pos, rd.pos).cursor).entries else [];
        var r := rd.Next();
        match r {
          case Err(e) =>
            assert done + [] == done;
            return if e == ErrEOF then None else Some(ScanFailed(e));
          case Ok(e) =>
            index.Put(e.key, Location(id, e.offset, e.size, e.tombstone));
            assert done + ([e] + rest) == done + [e] + rest;
            OneEntry(old(index.m), id, done, e);
            done := done + [e];
        }
      }
    }

    method ScanIndex(ids: seq<int>) returns (failure: Option<StoreError>)
      requires index.m == map[] && forall id | id in ids :: id in disk.files
      modifies index
      ensures Replay(disk.files, ids) == if failure.Some? then Err(failure.value) else Ok(index.m)
    {
      hide ScanFrom;
      ghost var files := disk.files;
      assert ids[..0] == [];
      forall j | 0 <= j < |ids| ensures ids[j] in files {
        var id := ids[j];
        assert id in ids;
      }
      for i := 0 to |ids|
        invariant disk.files == files
        invariant Replay(files, ids[..i]) == Ok(index.m)
      {
        var data := disk.files[ids[i]];
        assert ids[..i + 1][..i] == ids[..i];
        failure := ScanSegment(ids[i], data);
        if failure.Some? {
          ReplayStuck(disk.files, ids, i + 1, |ids|);
          assert ids[..|ids|] == ids;
          return;
        }
      }
      assert ids[..|ids|] == ids;
      return None;
    }

    method OpenSegments(ids: seq<int>)
      requires closed && segments == map[] && |ids| > 0 && Distinct(ids)
      requires forall id | id in ids :: id in disk.files
      modifies this, disk`files
      ensures Valid() && !closed && index == old(index) && disk.files == old(disk.files)
      ensures (forall id :: id in segments <==> id in ids) && activeID == ids[|ids| - 1]
      ensures forall id | id in segments :: fresh(segments[id])
    {
      ghost var files := disk.files;
      for i := 0 to |ids|
        invariant index == old(index) && disk.files == files && closed
        invariant forall id :: id in segments <==> id in ids[..i]
        invariant forall id | id in segments :: fresh(segments[id])
        invariant forall id | id in segments ::
          segments[id].disk == disk && segments[id].fileID == id && segments[id].open && segments[id].Valid()
      {
        assert ids[..i + 1] == ids[..i] + [ids[i]] && ids[i] in ids;
        var seg := OpenSegment(ids[i], i == |ids| - 1);
        segments := segments[ids[i] := seg];
      }
      assert ids[..|ids|] == ids && ids[|ids| - 1] in ids;
      activeID := ids[|ids| - 1];
      active := segments[activeID];
      closed := false;
    }

    method OpenSegment(id: int, last: bool) returns (seg: Segment)
      requires id in disk.files
      modifies disk`files
      ensures disk.files == old(disk.files) && fresh(seg)
      ensures seg.disk == disk && seg.fileID == id && seg.open && seg.Valid()
    {
      if last {
        seg := new Segment(disk, id);
      } else {
        var r := Segment.OpenReadOnly(disk, id);
        seg := r.value;
      }
    }

    static method Open(disk: Disk, maxFileSize: int) returns (r: Result<Store, StoreError>)
      modifies disk`files
      ensures disk.hint == old(disk.hint)
      ensures r.Err? ==> disk.files == old(disk.files)
      ensures r.Ok? ==> fresh(r.value) && r.value.Valid() && r.value.disk == disk && fresh(r.value.index)
      ensures r.Ok? ==> forall id | id in r.value.segments :: fresh(r.value.segments[id])
      ensures OpenStep(Dir(old(disk.files), disk.hint), maxFileSize) ==
        match r case Err(e) => Err(e) case Ok(s) => Ok(s.View())
    {
      hide MaxID, Listed, RecoverIndex;
      var ids := ListSegments(disk);
      var idx := new Index();
      var s := new Store.Empty(disk, maxFileSize, idx);
      if |ids| == 0 {
        assert Listed(disk.files) == {};
        s.StartOver();
        s.closed := false;
        return Ok(s);
      }
      ListedNatural(disk.files);
      SortedIDsFacts(Listed(disk.files));
      s.OpenSegments(ids);
      assert s.segments.Keys == Listed(disk.files) by {
        assert forall id :: id in s.segments.Keys <==> id in Listed(disk.files);
      }
      var failure := s.LoadIndex(ids);
      if failure.Some? {
        return Err(failure.value);
      }
      return Ok(s);
    }

    /** The index of the hint file when there is one, of a scan otherwise. */
    method LoadIndex(ids: seq<int>) returns (failure: Option<StoreError>)
      requires index.m == map[] && ids == SortedIDs(Listed(disk.files)) && forall id | id in ids :: id in disk.files
      modifies index
      ensures RecoverIndex(Dir(disk.files, disk.hint)) == if failure.Some? then Err(failure.value) else Ok(index.m)
    {
      hide Listed, ParseHint, Replay;
      match disk.hint {
        case Some(h) =>
          var ok := index.LoadHint(h);
          return if ok then None else Some(HintMalformed);
        case None =>
          failure := ScanIndex(ids);
      }
    }
  }

  /** The entries are those of the index. */
  predicate Indexed(live: seq<KeyLocation>, m: Table) {
    && (forall i | 0 <= i < |live| :: live[i].key in m && live[i].loc == m[live[i].key])
    && forall k | k in KeysOf(live) :: k in m
  }

  /** Every file of the directory whose name is a segment name, in ascending order. */
  method ListSegments(disk: Disk) returns (ids: seq<int>)
    ensures ids == SortedIDs(Listed(disk.files)) && forall id | id in ids :: id in disk.files
  {
    hide SegmentName, ParsedID, StrictTotal, SortedBy, Sorted;
    ids := [];
    var left := disk.Entries();
    while left != {}
      invariant left <= disk.Entries() && Distinct(ids)
      invariant forall id :: id in ids <==> id in Listed(disk.files) && DirEntry(SegmentName(id), false) !in left
      decreases left
    {
      ghost var some: DirEntry := Pick(left);
      var e: DirEntry :| e in left;
      left := left - {e};
      if !e.isDir {
        var id, ok := ParseSegmentID(e.name);
        if ok {
          ParsedEntry(disk, e);
          ids := ids + [id];
        }
      }
    }
    assert forall id | id in disk.files :: DirEntry(SegmentName(id), false) !in left;
    assert Elements(ids) == Listed(disk.files) by {
      assert forall id :: id in Elements(ids) <==> id in Listed(disk.files);
    }
    ids := SortIDs(ids);
  }

  /** A file whose name parses is the segment file with that ID. */
  lemma ParsedEntry(disk: Disk, e: DirEntry)
    requires e in disk.Entries() && !e.isDir && ParsedID(e.name).Some?
    ensures var id := ParsedID(e.name).value; id in Listed(disk.files) && e == DirEntry(SegmentName(id), false)
  {
    hide SegmentName, ParsedID;
    var file :| file in disk.files && e == DirEntry(SegmentName(file), false);
    NameRoundTrip(file);
  }

  lemma ListedNatural(files: Files)
    ensures forall id | id in Listed(files) :: id >= 0
  {
    hide SegmentName;
    forall id | id in Listed(files) ensures id >= 0 {
      assert ParsedID(SegmentName(id)).value >= 0;
    }
  }

  lemma SortedIDsFacts(s: set<int>)
    requires s != {} && forall id | id in s :: id >= 0
    ensures var ids := SortedIDs(s); |ids| > 0 && Distinct(ids) && ids[|ids| - 1] == MaxID(s)
  {
    var ids := SortedIDs(s);
    MaxIDIs(s, ids[|ids| - 1]);
  }

  lemma {:induction false} ReplayStuck(files: Files, ids: seq<int>, i: nat, j: nat)
    requires i <= j <= |ids| && forall id | id in ids :: id in files
    requires Replay(files, ids[..i]).Err?
    ensures Replay(files, ids[..j]) == Replay(files, ids[..i])
    decreases j
  {
    hide ScanFrom;
    if i < j {
      ReplayStuck(files, ids, i, j - 1);
      assert ids[..j][..j - 1] == ids[..j - 1];
    }
  }

  lemma DropNone<T>(m: map<int, T>)
    ensures m - (m.Keys - m.Keys) == m
  {
  }

  lemma DropOne<T>(m: map<int, T>, gone: set<int>, id: int)
    ensures m - gone - {id} == m - (gone + {id})
  {
  }

  /** The four ways a Merge can go. */
  lemma MergeOutcome(s: State)
    requires WellFormed(s)
    ensures s.closed ==> MergeStep(s) == (s, Failed(Closed))
    ensures !s.closed && |LiveKeys(s.index)| == 0 ==> MergeStep(s) == (ResetToEmpty(s), Done)
    ensures !s.closed && |LiveKeys(s.index)| > 0 ==>
      var newID := MaxID(s.segments) + 1;
      var c := CopyLive(s.dir.files, s.index, newID, LiveKeys(s.index));
      MergeStep(s) == if c.error.Some? then (s.(dir := s.dir.(files := c.files)), Failed(c.error.value)) else
        (s.(dir := Dir(c.files - s.segments, Some(HintBytes(c.index))),
            index := c.index, segments := {newID}, activeID := newID), Done)
  {
    hide MaxID, HintBytes, CopyLive, ResetToEmpty;
  }

  lemma CopyNone(files: Files, index: Table, newID: int)
    ensures CopyLive(files, index, newID, []) == Copy(WithSegment(files, newID), map[], None)
  {
  }

  /** The next round of the copying loop; once it fails, the loop is over. */
  lemma CopyNext(files: Files, index: Table, newID: int, ks: seq<Key>, i: nat)
    requires i < |ks| && forall k | k in ks :: k in index
    ensures CopyLive(files, index, newID, ks[..i + 1]) ==
      CopyOne(CopyLive(files, index, newID, ks[..i]), index[ks[i]], newID, ks[i])
    ensures CopyLive(files, index, newID, ks[..i + 1]).error.Some? ==>
      CopyLive(files, index, newID, ks) == CopyLive(files, index, newID, ks[..i + 1])
  {
    hide CopyOne;
    assert ks[..i + 1][..i] == ks[..i];
    if CopyLive(files, index, newID, ks[..i + 1]).error.Some? {
      CopyStuck(files, index, newID, ks, i + 1, |ks|);
      assert ks[..|ks|] == ks;
    }
  }

  /** A copy that has failed goes no further. */
  lemma CopyFailed(c: Copy, loc: Location, newID: int, k: Key)
    requires c.error.Some? && newID in c.files
    ensures CopyOne(c, loc, newID, k) == c
  {
    hide ReadRecordAt;
  }

  lemma CopyLast(files: Files, index: Table, newID: int, ks: seq<Key>)
    requires |ks| > 0 && forall k | k in ks :: k in index
    ensures var init, k := ks[..|ks| - 1], ks[|ks| - 1];
      CopyLive(files, index, newID, ks) == CopyOne(CopyLive(files, index, newID, init), index[k], newID, k)
  {
    hide CopyOne;
  }

  lemma {:induction false} CopyStuck(files: Files, index: Table, newID: int, ks: seq<Key>, i: nat, j: nat)
    requires i <= j <= |ks| && forall k | k in ks :: k in index
    requires CopyLive(files, index, newID, ks[..i]).error.Some?
    ensures CopyLive(files, index, newID, ks[..j]) == CopyLive(files, index, newID, ks[..i])
    decreases j
  {
    hide CopyLive, CopyOne;
    if i < j {
      CopyStuck(files, index, newID, ks, i, j - 1);
      assert ks[..j][..j - 1] == ks[..j - 1];
      CopyFailed(CopyLive(files, index, newID, ks[..j - 1]), index[ks[j - 1]], newID, ks[j - 1]);
      CopyLast(files, index, newID, ks[..j]);
    }
  }
}
