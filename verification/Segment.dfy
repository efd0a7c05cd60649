/** internal/log/segment.go: append-only segment files, their names and point reads. */
module LogSegment {
  import opened Bytes
  import opened Crc32
  import opened LogEntry
  import opened LogReader

  // ---- Segment names ----

  const MAX_NAMED_ID := 100_0000_0000

  function Digit(d: nat): (c: char)
    requires d < 10
    ensures '0' <= c <= '9' && c as int - '0' as int == d
  {
    (d + '0' as int) as char
  }

  function Decimal(n: nat): (s: string)
    ensures |s| > 0
  {
    if n < 10 then [Digit(n)] else Decimal(n / 10) + [Digit(n % 10)]
  }

  function ZeroPad(s: string, width: nat): string
    decreases width - |s|
  {
    if |s| >= width then s else ZeroPad("0" + s, width)
  }

  /** fmt.Sprintf("%010d.log", id): the sign counts towards the width. */
  function SegmentName(id: int): string {
    (if id >= 0 then ZeroPad(Decimal(id), 10) else "-" + ZeroPad(Decimal(-id), 9)) + ".log"
  }

  predicate IsDigit(c: char) { '0' <= c <= '9' }

  function DigitsValue(s: string): nat
    requires forall c | c in s :: IsDigit(c)
  {
    if |s| == 0 then 0 else
    assert IsDigit(s[|s| - 1]);
    DigitsValue(s[..|s| - 1]) * 10 + (s[|s| - 1] as int - '0' as int)
  }

  /** What ParseSegmentID answers.  For a name of 14 characters, filepath.Ext being ".log"
      says that the last four characters are ".log". */
  function ParsedID(name: string): Option<nat> {
    if |name| == 14 && name[10..] == ".log" && forall c | c in name[..10] :: IsDigit(c)
    then Some(DigitsValue(name[..10])) else None
  }

  method ParseSegmentID(name: string) returns (id: int, ok: bool)
    ensures ok == ParsedID(name).Some?
    ensures id == if ok then ParsedID(name).value else 0
  {
    if |name| != |"0000000000.log"| || name[10..] != ".log" {
      return 0, false;
    }
    id := 0;
    for i := 0 to 10
      invariant forall c | c in name[..i] :: IsDigit(c)
      invariant id == DigitsValue(name[..i])
    {
      var c := name[i];
      if c < '0' || c > '9' {
        assert c in name[..10];
        return 0, false;
      }
      assert name[..i + 1][..i] == name[..i];
      id := id * 10 + (c as int - '0' as int);
    }
    return id, true;
  }

  function Pow10(n: nat): (p: nat)
    ensures p > 0
  {
    if n == 0 then 1 else 10 * Pow10(n - 1)
  }

  /** v written with exactly n digits. */
  function FixedDecimal(v: nat, n: nat): (s: string)
    ensures |s| == n && forall c | c in s :: IsDigit(c)
  {
    if n == 0 then "" else FixedDecimal(v / 10, n - 1) + [Digit(v % 10)]
  }

  lemma {:induction false} FixedValue(v: nat, n: nat)
    requires v < Pow10(n)
    ensures DigitsValue(FixedDecimal(v, n)) == v
  {
    if n > 0 {
      FixedValue(v / 10, n - 1);
      assert FixedDecimal(v, n)[..n - 1] == FixedDecimal(v / 10, n - 1);
    }
  }

  lemma {:induction false} ValueFixed(s: string)
    requires forall c | c in s :: IsDigit(c)
    ensures DigitsValue(s) < Pow10(|s|) && FixedDecimal(DigitsValue(s), |s|) == s
  {
    if |s| > 0 {
      ValueFixed(s[..|s| - 1]);
      assert IsDigit(s[|s| - 1]);
      assert s == s[..|s| - 1] + [s[|s| - 1]];
    }
  }

  lemma {:induction false} ZeroFixed(n: nat)
    ensures FixedDecimal(0, n + 1) == "0" + FixedDecimal(0, n)
  {
    if n > 0 { ZeroFixed(n - 1); }
  }

  /** Padding and fixed-width digits agree when the number fits, and a number that does
      not fit keeps all its digits. */
  lemma {:induction false} DecimalFixed(v: nat, n: nat)
    requires n > 0
    ensures v < Pow10(n) ==> |Decimal(v)| <= n && ZeroPad(Decimal(v), n) == FixedDecimal(v, n)
    ensures v >= Pow10(n) ==> |Decimal(v)| > n
  {
    if n == 1 {
      assert Pow10(1) == 10;
      assert FixedDecimal(v, 1) == FixedDecimal(v / 10, 0) + [Digit(v % 10)];
    } else if v < 10 {
      assert Pow10(n) >= 10;
      PadDigit(v, n);
    } else {
      DecimalFixed(v / 10, n - 1);
      if v < Pow10(n) {
        PadAppend(Decimal(v / 10), [Digit(v % 10)], n - 1);
      }
    }
  }

  lemma {:induction false} PadAppend(s: string, t: string, n: nat)
    requires |s| <= n && |t| == 1
    ensures ZeroPad(s + t, n + 1) == ZeroPad(s, n) + t
    decreases n - |s|
  {
    if |s| < n {
      assert "0" + (s + t) == ("0" + s) + t;
      PadAppend("0" + s, t, n);
    }
  }

  lemma {:induction false} PadDigit(v: nat, n: nat)
    requires v < 10 && n > 0
    ensures ZeroPad([Digit(v)], n) == FixedDecimal(v, n)
  {
    PadAppend("", [Digit(v)], n - 1);
    assert "" + [Digit(v)] == [Digit(v)];
    PadEmpty(n - 1, n - 1);
    assert "" == FixedDecimal(0, 0);
  }

  lemma {:induction false} PadEmpty(k: nat, n: nat)
    requires k <= n
    ensures ZeroPad(FixedDecimal(0, n - k), n) == FixedDecimal(0, n)
  {
    if k > 0 {
      ZeroFixed(n - k);
      PadEmpty(k - 1, n);
    }
  }

  /** A segment name parses back to its file ID exactly when the ID has at most ten digits. */
  lemma NameRoundTrip(id: int)
    ensures ParsedID(SegmentName(id)) == if 0 <= id < MAX_NAMED_ID then Some(id) else None
  {
    assert Pow10(5) == 10_0000 && Pow10(10) == MAX_NAMED_ID;
    if id >= 0 {
      DecimalFixed(id, 10);
      var s := ZeroPad(Decimal(id), 10);
      if id < MAX_NAMED_ID {
        assert SegmentName(id)[..10] == s && SegmentName(id)[10..] == ".log";
        FixedValue(id, 10);
      } else {
        assert s == Decimal(id);
      }
    } else {
      assert SegmentName(id)[0] == '-';
      assert |SegmentName(id)| == 14 ==> SegmentName(id)[0] in SegmentName(id)[..10];
    }
  }

  /** Nothing but a segment name parses. */
  lemma ParsedIsName(name: string)
    requires ParsedID(name).Some?
    ensures ParsedID(name).value < MAX_NAMED_ID && SegmentName(ParsedID(name).value) == name
  {
    assert Pow10(5) == 10_0000 && Pow10(10) == MAX_NAMED_ID;
    ValueFixed(name[..10]);
    DecimalFixed(ParsedID(name).value, 10);
    assert name == name[..10] + ".log";
  }

  // ---- Point reads ----

  /** readRecordAt on a file with the given contents. */
  function ReadRecordAt(data: seq<byte>, fileID: int, offset: int): (r: Result<Entry, LogError>) {
    if offset < 0 || offset + PREFIX_SIZE > |data| then Err(ErrShortRead) else
    var head := data[offset..offset + PREFIX_SIZE];
    var h := ParseHeader(head[4..]);
    var total := PREFIX_SIZE + h.keyLen + h.valueLen;
    if offset + total > |data| then Err(ErrShortRead) else
    match Decode(data[offset..offset + total])
    case Err(e) => Err(e)
    case Ok(e) => Ok(e.(fileID := fileID, offset := offset))
  }

  /** Reading at the offset Append returned gives the record back, whatever surrounds it. */
  lemma ReadFrameAt(pre: seq<byte>, r: Record, post: seq<byte>, fileID: int)
    requires Encodable(r)
    ensures ReadRecordAt(pre + Frame(r) + post, fileID, |pre|) ==
      Ok(EntryOf(r, |pre|).(fileID := fileID))
  {
    hide Checksum, PutBE, GetBE, ParseHeader, Frame, Decode;
    var data, f, c := pre + Frame(r) + post, Frame(r), |pre|;
    FrameLayout(r);
    FrameSize(r);
    assert data[c..c + PREFIX_SIZE] == f[..PREFIX_SIZE];
    assert data[c..c + PREFIX_SIZE][4..] == f[4..PREFIX_SIZE];
    assert data[c..c + |f|] == f == f + [];
    DecodeFrame(r, []);
  }

  /** A record that can be read stays readable, unchanged, under later appends. */
  lemma ReadStable(data: seq<byte>, tail: seq<byte>, fileID: int, offset: int)
    requires ReadRecordAt(data, fileID, offset).Ok?
    ensures ReadRecordAt(data + tail, fileID, offset) == ReadRecordAt(data, fileID, offset)
  {
    hide Checksum, PutBE, GetBE, ParseHeader, Decode;
    var head := data[offset..offset + PREFIX_SIZE];
    var h := ParseHeader(head[4..]);
    var total := PREFIX_SIZE + h.keyLen + h.valueLen;
    assert (data + tail)[offset..offset + PREFIX_SIZE] == head;
    assert (data + tail)[offset..offset + total] == data[offset..offset + total];
  }

  /** Every record of an appended log is found again at the offset and size that the scan
      reports for it, also when more is appended later. */
  lemma {:induction false} EntriesReadBack(rs: seq<Record>, i: nat, later: seq<byte>, fileID: int)
    requires (forall r | r in rs :: Scannable(r)) && i < |rs|
    ensures ReadRecordAt(FrameAll(rs) + later, fileID, EntriesOf(rs)[i].offset) ==
      Ok(EntriesOf(rs)[i].(fileID := fileID))
    ensures EntriesOf(rs)[i] == EntryOf(rs[i], |FrameAll(rs[..i])|)
  {
    hide ReadRecordAt, Frame;
    var n := |rs| - 1;
    var last := Frame(rs[n]);
    if i == n {
      assert Scannable(rs[n]);
      ReadFrameAt(FrameAll(rs[..n]), rs[n], later, fileID);
    } else {
      EntriesReadBack(rs[..n], i, last + later, fileID);
      assert rs[..n][..i] == rs[..i];
      assert FrameAll(rs[..n]) + (last + later) == FrameAll(rs) + later;
    }
  }

  /** A damaged frame read in place: rejected, or the original record after all. */
  lemma ReadDamagedAt(pre: seq<byte>, r: Record, g: seq<byte>, at: nat, n: nat, post: seq<byte>, fileID: int)
    requires Encodable(r) && Damaged(Frame(r), g, at, n)
    ensures var o := ReadRecordAt(pre + g + post, fileID, |pre|);
      o == Err(ErrChecksum) || o == Ok(EntryOf(r, |pre|).(fileID := fileID))
  {
    hide Checksum, PutBE, GetBE, ParseHeader, Frame, Decode;
    var data, f, c := pre + g + post, Frame(r), |pre|;
    FrameLayout(r);
    FrameSize(r);
    DamagedRawChecksum(r, g, at, n);
    HeaderFields(f);
    HeaderFields(g);
    assert data[c..c + PREFIX_SIZE] == g[..PREFIX_SIZE];
    assert data[c..c + PREFIX_SIZE][4..] == g[4..PREFIX_SIZE];
    assert data[c..c + |g|] == g;
    DecodeDamaged(r, g, at, n);
  }

  // ---- Segment objects over a directory ----

  datatype DirEntry = DirEntry(name: string, isDir: bool)

  /** A subdirectory, or a file whose name is not a segment name. */
  type Foreign = e: DirEntry | e.isDir || ParsedID(e.name).None? witness DirEntry("", true)

  /** The database directory: segment files by ID, the hint file when there is one, and
      whatever else is there. */
  class Disk {
    var files: map<int, seq<byte>>
    var hint: Option<seq<byte>>
    const foreign: set<Foreign>

    constructor (foreign: set<Foreign>)
      ensures files == map[] && hint == None && this.foreign == foreign
    {
      files, hint, this.foreign := map[], None, foreign;
    }

    /** os.ReadDir, without the hint file, which is one more foreign name. */
    function Entries(): set<DirEntry>
      reads this
    {
      (set id | id in files :: DirEntry(SegmentName(id), false)) + foreign
    }
  }

  class Segment {
    const disk: Disk
    const fileID: int
    var open: bool     // s.f != nil
    var size: nat

    ghost predicate Valid()
      reads this, disk
    {
      open ==> fileID in disk.files && size == |disk.files[fileID]|
    }

    /** NewSegment: the file is created when missing and kept as it is otherwise. */
    constructor (disk: Disk, fileID: int)
      modifies disk`files
      ensures Valid() && open && this.disk == disk && this.fileID == fileID
      ensures disk.files == if fileID in old(disk.files) then old(disk.files) else old(disk.files)[fileID := []]
    {
      this.disk, this.fileID, open := disk, fileID, true;
      size := if fileID in disk.files then |disk.files[fileID]| else 0;
      new;
      if fileID !in disk.files {
        disk.files := disk.files[fileID := []];
      }
    }

    constructor Existing(disk: Disk, fileID: int)
      requires fileID in disk.files
      ensures Valid() && open && this.disk == disk && this.fileID == fileID
    {
      this.disk, this.fileID, open, size := disk, fileID, true, |disk.files[fileID]|;
    }

    static method OpenReadOnly(disk: Disk, fileID: int) returns (r: Result<Segment, LogError>)
      ensures r.Ok? <==> fileID in disk.files
      ensures r.Ok? ==> fresh(r.value) && r.value.Valid() && r.value.open
      ensures r.Ok? ==> r.value.disk == disk && r.value.fileID == fileID
      ensures r.Err? ==> r.error == ErrNotExist
    {
      if fileID !in disk.files {
        return Err(ErrNotExist);
      }
      var seg := new Segment.Existing(disk, fileID);
      return Ok(seg);
    }

    method Append(key: seq<byte>, value: seq<byte>, tombstone: bool)
      returns (offset: nat, n: nat, err: Option<LogError>)
      requires Valid()
      modifies this`size, disk`files
      ensures Valid()
      ensures err == if open then None else Some(ErrSegmentClosed)
      ensures !open ==> offset == 0 && n == 0 && disk.files == old(disk.files)
      ensures open ==> var f := Frame(Record(key, value, tombstone));
        && offset == |old(disk.files)[fileID]| && n == |f|
        && disk.files == old(disk.files)[fileID := old(disk.files)[fileID] + f]
    {
      hide Frame;
      var buf := Encode(key, value, tombstone);
      if !open {
        return 0, 0, Some(ErrSegmentClosed);
      }
      offset := size;
      disk.files := disk.files[fileID := disk.files[fileID] + buf[..]];
      n := buf.Length;
      size := size + n;
      err := None;
    }

    method Close()
      modifies this`open
      ensures !open && Valid()
    {
      open := false;
    }

    method ReadAt(offset: int) returns (r: Result<Entry, LogError>)
      requires Valid()
      ensures r == if open then ReadRecordAt(disk.files[fileID], fileID, offset) else Err(ErrSegmentClosed)
    {
      if !open {
        return Err(ErrSegmentClosed);
      }
      return ReadRecordAt(disk.files[fileID], fileID, offset);
    }
  }

  // ---- What the names and the point reads are ----

  lemma {:induction false} FixedDigit(v: nat, n: nat, i: nat)
    requires i < n
    ensures FixedDecimal(v, n)[i] as int == '0' as int + v / Pow10(n - 1 - i) % 10
    decreases n
  {
    if i < n - 1 {
      FixedDigit(v / 10, n - 1, i);
      DivTwice(v, 10, Pow10(n - 2 - i));
    }
  }

  /** The name of a file ID below 10^10: its ten decimal digits and the suffix. */
  lemma NameDigits(id: nat)
    requires id < MAX_NAMED_ID
    ensures |SegmentName(id)| == 14 && SegmentName(id)[10..] == ".log"
    ensures forall i: nat | i < 10 :: SegmentName(id)[i] as int == '0' as int + id / Pow10(9 - i) % 10
  {
    hide Pow10, FixedDecimal, Decimal, ZeroPad;
    assert Pow10(10) == MAX_NAMED_ID by { TenTens(); }
    DecimalFixed(id, 10);
    var s := FixedDecimal(id, 10);
    assert SegmentName(id) == s + ".log";
    forall i: nat | i < 10 ensures SegmentName(id)[i] as int == '0' as int + id / Pow10(9 - i) % 10 {
      FixedDigit(id, 10, i);
    }
  }

  lemma TenTens()
    ensures Pow10(10) == MAX_NAMED_ID
  {
    assert Pow10(5) == 10_0000;
  }

  /** What a point read accepts is a frame at that place, up to the tombstone and reserved bytes;
      it runs short exactly when the prefix or the lengths in it reach past the end. */
  lemma ReadSound(data: seq<byte>, fileID: int, offset: int)
    ensures var o := ReadRecordAt(data, fileID, offset);
      && (o == Err(ErrShortRead) <==>
            || offset < 0 || offset + PREFIX_SIZE > |data|
            || offset + PREFIX_SIZE + GetBE(data[offset + 4..offset + 8])
                 + GetBE(data[offset + 8..offset + 12]) > |data|)
      && (o.Ok? ==>
            var e := o.value;
            var f := Frame(Record(e.key, e.value, e.tombstone));
            && e.fileID == fileID && e.offset == offset >= 0 && e.size == |f| <= |data| - offset
            && data[offset..offset + 12] == f[..12]
            && data[offset + PREFIX_SIZE..offset + |f|] == f[PREFIX_SIZE..]
            && (e.tombstone <==> data[offset + 12] == 1))
  {
    hide Checksum, PutBE, GetBE, Frame, Decode;
    if 0 <= offset && offset + PREFIX_SIZE <= |data| {
      var head := data[offset..offset + PREFIX_SIZE];
      HeaderFields(head);
      SubSlice(data, offset, offset + PREFIX_SIZE, 4, 8);
      SubSlice(data, offset, offset + PREFIX_SIZE, 8, 12);
      assert head[4..PREFIX_SIZE] == head[4..];
      var total := PREFIX_SIZE + GetBE(data[offset + 4..offset + 8]) + GetBE(data[offset + 8..offset + 12]);
      if offset + total <= |data| {
        ReadDecodes(data, offset, total);
      }
    }
  }

  lemma ReadDecodes(data: seq<byte>, offset: nat, total: nat)
    requires PREFIX_SIZE <= total && offset + total <= |data|
    ensures var d := data[offset..offset + total];
      Decode(d) != Err(ErrShortRead) &&
      (Decode(d).Ok? ==>
         var e := Decode(d).value;
         var f := Frame(Record(e.key, e.value, e.tombstone));
         && e.size == |f| <= total
         && data[offset..offset + 12] == f[..12]
         && data[offset + PREFIX_SIZE..offset + |f|] == f[PREFIX_SIZE..]
         && (e.tombstone <==> data[offset + 12] == 1))
  {
    hide Checksum, PutBE, GetBE, Frame, ParseHeader;
    var d := data[offset..offset + total];
    if Decode(d).Ok? {
      DecodeSound(d);
      var e := Decode(d).value;
      SubSlice(data, offset, offset + total, 0, 12);
      SubSlice(data, offset, offset + total, PREFIX_SIZE, e.size);
    }
  }
}
