/** internal/log/entry.go: the on-disk frame of one record and its checksum. */
module LogEntry {
  import opened Bytes
  import opened Crc32

  const HEADER_SIZE := 13
  const PREFIX_SIZE := 17

  datatype LogError =
    | ErrEOF            // io.EOF
    | ErrCorrupt
    | ErrChecksum
    | ErrShortRead      // ReadAt past the end of the file
    | ErrNotExist       // os.Open on a missing file
    | ErrSegmentClosed

  /** The two lengths are uint32 values. */
  datatype Header = Header(keyLen: nat, valueLen: nat, tombstone: bool)

  datatype Record = Record(key: seq<byte>, value: seq<byte>, tombstone: bool)

  datatype Entry = Entry(key: seq<byte>, value: seq<byte>, tombstone: bool, fileID: int, offset: int, size: int)

  /** Both lengths survive the conversion to uint32. */
  predicate Encodable(r: Record) {
    |r.key| < TWO32 && |r.value| < TWO32
  }

  function HeaderBytes(h: Header): (b: seq<byte>)
    ensures |b| == HEADER_SIZE
  {
    PutBE(h.keyLen, 4) + PutBE(h.valueLen, 4) + [if h.tombstone then 1 else 0, 0, 0, 0, 0]
  }

  function ParseHeader(b: seq<byte>): (h: Header)
    requires |b| == HEADER_SIZE
    ensures h.keyLen < TWO32 && h.valueLen < TWO32
  {
    Bytes.Pow256Widths();
    Header(GetBE(b[..4]), GetBE(b[4..8]), b[8] == 1)
  }

  function HeaderOf(key: seq<byte>, value: seq<byte>, tombstone: bool): Header {
    Header(|key| % TWO32, |value| % TWO32, tombstone)
  }

  function Payload(h: Header, key: seq<byte>, value: seq<byte>): seq<byte> {
    HeaderBytes(h) + key + value
  }

  /** log.Encode. */
  function Frame(r: Record): (f: seq<byte>)
    ensures |f| == PREFIX_SIZE + |r.key| + |r.value|
  {
    var body := Payload(HeaderOf(r.key, r.value, r.tombstone), r.key, r.value);
    PutBE(Checksum(body), 4) + body
  }

  /** log.Decode: the checksum is taken over a re-encoded header. */
  function Decode(data: seq<byte>): (r: Result<Entry, LogError>) {
    if |data| < PREFIX_SIZE then Err(ErrCorrupt) else
    var h := ParseHeader(data[4..PREFIX_SIZE]);
    var total := HEADER_SIZE + h.keyLen + h.valueLen;
    if 4 + total > |data| then Err(ErrCorrupt) else
    var key := data[PREFIX_SIZE..PREFIX_SIZE + h.keyLen];
    var value := data[PREFIX_SIZE + h.keyLen..4 + total];
    if Checksum(Payload(h, key, value)) != GetBE(data[..4]) then Err(ErrChecksum) else
    Ok(Entry(key, value, h.tombstone, 0, 0, 4 + total))
  }

  // ---- The encoder as written: byte buffers filled in place ----

  method PutUint32(b: array<byte>, at: nat, v: nat)
    requires at + 4 <= b.Length
    modifies b
    ensures b[..] == old(b[..at]) + PutBE(v, 4) + old(b[at + 4..])
  {
    b[at] := v / 0x100_0000 % 256;
    b[at + 1] := v / 0x1_0000 % 256;
    b[at + 2] := v / 0x100 % 256;
    b[at + 3] := v % 256;
    assert PutBE(v, 4) == [v / 256 / 256 / 256 % 256, v / 256 / 256 % 256, v / 256 % 256, v % 256];
  }

  method EncodeHeader(h: Header) returns (b: array<byte>)
    ensures fresh(b) && b[..] == HeaderBytes(h)
  {
    hide PutBE;
    b := new byte[HEADER_SIZE](_ => 0);
    assert b[4..] == [0, 0, 0, 0, 0, 0, 0, 0, 0];
    PutUint32(b, 0, h.keyLen);
    assert b[..4] == PutBE(h.keyLen, 4) && b[8..] == [0, 0, 0, 0, 0];
    PutUint32(b, 4, h.valueLen);
    assert b[..] == PutBE(h.keyLen, 4) + PutBE(h.valueLen, 4) + [0, 0, 0, 0, 0];
    if h.tombstone {
      b[8] := 1;
    }
  }

  method Encode(key: seq<byte>, value: seq<byte>, tombstone: bool) returns (out: array<byte>)
    ensures fresh(out) && out[..] == Frame(Record(key, value, tombstone))
  {
    hide Checksum, PutBE;
    var h := HeaderOf(key, value, tombstone);
    var hb := EncodeHeader(h);
    var body := hb[..];
    body := body + key;
    body := body + value;
    var crc := Checksum(body);
    out := new byte[4 + |body|](_ => 0);
    PutUint32(out, 0, crc);
    forall i | 0 <= i < |body| {
      out[4 + i] := body[i];
    }
    assert out[..] == PutBE(crc, 4) + body;
  }

  // ---- Round trip ----

  lemma HeaderRoundTrip(h: Header)
    requires h.keyLen < TWO32 && h.valueLen < TWO32
    ensures ParseHeader(HeaderBytes(h)) == h
  {
    Bytes.Pow256Widths();
    GetPutBE(h.keyLen, 4);
    GetPutBE(h.valueLen, 4);
    assert HeaderBytes(h)[..4] == PutBE(h.keyLen, 4);
    assert HeaderBytes(h)[4..8] == PutBE(h.valueLen, 4);
  }

  /** Where the fields of a frame lie. */
  lemma FrameLayout(r: Record)
    requires Encodable(r)
    ensures var f, k := Frame(r), |r.key|;
      && GetBE(f[..4]) == Checksum(f[4..])
      && ParseHeader(f[4..PREFIX_SIZE]) == Header(k, |r.value|, r.tombstone)
      && f[4..PREFIX_SIZE] == HeaderBytes(Header(k, |r.value|, r.tombstone))
      && f[PREFIX_SIZE..PREFIX_SIZE + k] == r.key && f[PREFIX_SIZE + k..] == r.value
  {
    hide Checksum, PutBE, GetBE, ParseHeader;
    var f, h := Frame(r), HeaderOf(r.key, r.value, r.tombstone);
    var body := Payload(h, r.key, r.value);
    Bytes.Pow256Widths();
    GetPutBE(Checksum(body), 4);
    HeaderRoundTrip(h);
    assert f[..4] == PutBE(Checksum(body), 4) && f[4..] == body;
    assert f[4..PREFIX_SIZE] == HeaderBytes(h);
    assert f[PREFIX_SIZE..PREFIX_SIZE + |r.key|] == r.key;
    assert f[PREFIX_SIZE + |r.key|..] == r.value;
  }

  /** A frame byte by byte: four bytes of checksum over all that follows them, the lengths of key
      and value modulo 2^32, the tombstone, four zeros, the key and the value.  In each number
      the most significant byte comes first. */
  lemma FrameBytes(r: Record, i: nat)
    requires i < 4
    ensures var f, k, w := Frame(r), |r.key|, Pow256(3 - i);
      && |f| == PREFIX_SIZE + k + |r.value|
      && f[i] == Checksum(f[4..]) / w % 256 && f[4 + i] == k / w % 256 && f[8 + i] == |r.value| / w % 256
      && f[12] == (if r.tombstone then 1 else 0) && f[13 + i] == 0
      && f[PREFIX_SIZE..PREFIX_SIZE + k] == r.key && f[PREFIX_SIZE + k..] == r.value
  {
    hide Checksum, PutBE, Pow256;
    var h := HeaderOf(r.key, r.value, r.tombstone);
    var body := Payload(h, r.key, r.value);
    Bytes.Pow256Widths();
    PutBETruncates(|r.key|, 4);
    PutBETruncates(|r.value|, 4);
    PutBEDigit(|r.key|, 4, i);
    PutBEDigit(|r.value|, 4, i);
    PutBEDigit(Checksum(body), 4, i);
    assert Frame(r)[4..] == body && Frame(r)[4..PREFIX_SIZE] == HeaderBytes(h);
    assert forall j: nat | j < HEADER_SIZE :: Frame(r)[4 + j] == HeaderBytes(h)[j];
    assert body[HEADER_SIZE..] == r.key + r.value;
  }

  lemma DecodeFrame(r: Record, rest: seq<byte>)
    requires Encodable(r)
    ensures Decode(Frame(r) + rest) == Ok(Entry(r.key, r.value, r.tombstone, 0, 0, |Frame(r)|))
  {
    hide Checksum, PutBE, GetBE;
    var f, data := Frame(r), Frame(r) + rest;
    FrameLayout(r);
    assert data[..4] == f[..4] && data[4..PREFIX_SIZE] == f[4..PREFIX_SIZE];
    assert data[PREFIX_SIZE..PREFIX_SIZE + |r.key|] == r.key;
    assert data[PREFIX_SIZE + |r.key|..|f|] == r.value;
    assert f[4..] == Payload(Header(|r.key|, |r.value|, r.tombstone), r.key, r.value);
  }

  lemma HeaderFields(g: seq<byte>)
    requires |g| >= PREFIX_SIZE
    ensures ParseHeader(g[4..PREFIX_SIZE]) == Header(GetBE(g[4..8]), GetBE(g[8..12]), g[12] == 1)
  {
    hide PutBE, GetBE;
    SubSlice(g, 4, PREFIX_SIZE, 0, 4);
    SubSlice(g, 4, PREFIX_SIZE, 4, 8);
  }

  /** What Decode accepts is a frame of what it returns, up to the tombstone byte and the
      four reserved bytes, whose raw values it does not look at. */
  lemma DecodeSound(data: seq<byte>)
    requires Decode(data).Ok?
    ensures var e := Decode(data).value; var f := Frame(Record(e.key, e.value, e.tombstone));
      && e.size == |f| <= |data|
      && f[..12] == data[..12] && f[PREFIX_SIZE..] == data[PREFIX_SIZE..|f|]
      && (e.tombstone <==> data[12] == 1)
  {
    hide Checksum, PutBE, GetBE;
    var e := Decode(data).value;
    var r := Record(e.key, e.value, e.tombstone);
    var f := Frame(r);
    FrameLayout(r);
    Bytes.Pow256Widths();
    GetBEInjective(f[..4], data[..4]);
    HeaderFields(data);
    HeaderFields(f);
    GetBEInjective(f[4..8], data[4..8]);
    GetBEInjective(f[8..12], data[8..12]);
    assert f[..12] == f[..4] + f[4..8] + f[8..12] && data[..12] == data[..4] + data[4..8] + data[8..12];
    assert data[PREFIX_SIZE..|f|] == e.key + e.value;
    assert f[PREFIX_SIZE..] == e.key + e.value;
  }

  // ---- Corruption detection ----

  /** g is f changed inside a window of at most four bytes that lies wholly in the
      tombstone/reserved/key/value region or wholly in the checksum field. */
  predicate Damaged(f: seq<byte>, g: seq<byte>, at: nat, n: nat) {
    && |g| == |f| && g != f
    && n <= 4 && at + n <= |f| && (at + n <= 4 || at >= 12)
    && forall j | 0 <= j < |f| && !(at <= j < at + n) :: g[j] == f[j]
  }

  /** The checksum field and the bytes it covers no longer match. */
  lemma DamagedRawChecksum(r: Record, g: seq<byte>, at: nat, n: nat)
    requires Encodable(r) && Damaged(Frame(r), g, at, n)
    ensures g[4..8] == Frame(r)[4..8] && g[8..12] == Frame(r)[8..12]
    ensures at >= 12 ==> g[..4] == Frame(r)[..4]
    ensures GetBE(g[..4]) != Checksum(g[4..])
  {
    hide Checksum, PutBE, GetBE, Frame, HeaderBytes, ParseHeader;
    var f := Frame(r);
    FrameLayout(r);
    assert g[4..8] == f[4..8] && g[8..12] == f[8..12];
    assert f == f[..4] + f[4..] && g == g[..4] + g[4..];
    if at >= 12 {
      assert g[..4] == f[..4];
      FourBytesDetected(f[4..], g[4..], at - 4, n);
    } else {
      assert g[4..] == f[4..];
      if GetBE(g[..4]) == GetBE(f[..4]) {
        GetBEInjective(g[..4], f[..4]);
      }
    }
  }

  lemma FrameBody(r: Record)
    requires Encodable(r)
    ensures var f := Frame(r);
      |f| >= PREFIX_SIZE && f[4..] == HeaderBytes(Header(|r.key|, |r.value|, r.tombstone)) + f[PREFIX_SIZE..]
  {
    hide Checksum, PutBE, GetBE;
    FrameLayout(r);
  }

  /** The body that Decode rebuilds from a damaged frame differs from the original body,
      if at all, inside the same window. */
  lemma RebuiltBody(r: Record, g: seq<byte>, at: nat, n: nat)
    requires Encodable(r) && Damaged(Frame(r), g, at, n) && at >= 12
    ensures var f, h := Frame(r), Header(|r.key|, |r.value|, g[12] == 1);
      Checksum(HeaderBytes(h) + g[PREFIX_SIZE..]) == Checksum(f[4..]) <==>
        g[PREFIX_SIZE..] == f[PREFIX_SIZE..] && (g[12] == 1) == r.tombstone
  {
    hide Checksum, PutBE, GetBE, Frame;
    var f, h := Frame(r), Header(|r.key|, |r.value|, r.tombstone);
    FrameLayout(r);
    var a := f[4..];
    var b := HeaderBytes(h.(tombstone := g[12] == 1)) + g[PREFIX_SIZE..];
    FrameBody(r);
    assert f[12] == a[8] == HeaderBytes(h)[8];
    assert forall j | 4 <= j < |f| :: a[j - 4] == f[j];
    FourBytesDetected(a, b, at - 4, n);
    if a == b {
      assert g[PREFIX_SIZE..] == b[HEADER_SIZE..] && f[PREFIX_SIZE..] == a[HEADER_SIZE..];
      assert a[8] == b[8];
    }
  }

  /** Decode on a damaged frame: it accepts exactly when the damage left the checksum,
      the payload and the meaning of the tombstone byte alone, and then what it returns
      is the original record; otherwise it reports a checksum error. */
  lemma DecodeDamaged(r: Record, g: seq<byte>, at: nat, n: nat)
    requires Encodable(r) && Damaged(Frame(r), g, at, n)
    ensures var f := Frame(r);
      var intact := g[..4] == f[..4] && g[PREFIX_SIZE..] == f[PREFIX_SIZE..] && (g[12] == 1) == r.tombstone;
      Decode(g) == if intact then Ok(Entry(r.key, r.value, r.tombstone, 0, 0, |f|)) else Err(ErrChecksum)
  {
    hide Checksum, PutBE, GetBE, Frame, HeaderBytes, ParseHeader, Decode;
    var f, k := Frame(r), |r.key|;
    FrameLayout(r);
    DamagedRawChecksum(r, g, at, n);
    HeaderFields(f);
    HeaderFields(g);
    DecodeFields(g, k, |r.value|, g[12] == 1);
    if at >= 12 {
      RebuiltBody(r, g, at, n);
      if g[PREFIX_SIZE..] == f[PREFIX_SIZE..] {
        SamePayload(f, g, k);
      }
    } else {
      FrameBody(r);
      assert g[PREFIX_SIZE..] == f[PREFIX_SIZE..] && g[4..] == f[4..];
      SamePayload(f, g, k);
    }
  }

  /** Two damages that Decode does not notice, in every frame: a reserved byte, and a tombstone
      byte that is neither 0 nor 1 on a record without a tombstone. */
  lemma DamageUnnoticed(r: Record)
    requires Encodable(r)
    ensures var f := Frame(r); var same := Ok(Entry(r.key, r.value, r.tombstone, 0, 0, |f|));
      && Damaged(f, f[13 := 1], 13, 1) && Decode(f[13 := 1]) == same
      && (!r.tombstone ==> Damaged(f, f[12 := 2], 12, 1) && Decode(f[12 := 2]) == same)
  {
    hide Checksum, PutBE, GetBE, Frame, ParseHeader, Decode;
    var f := Frame(r);
    FrameLayout(r);
    FrameBody(r);
    HeaderFields(f);
    assert f[12] == f[4..][8] && f[13] == f[4..][9];
    DecodeDamaged(r, f[13 := 1], 13, 1);
    if !r.tombstone {
      DecodeDamaged(r, f[12 := 2], 12, 1);
    }
  }

  lemma SamePayload(f: seq<byte>, g: seq<byte>, k: nat)
    requires |f| == |g| && PREFIX_SIZE + k <= |f| && g[PREFIX_SIZE..] == f[PREFIX_SIZE..]
    ensures g[PREFIX_SIZE..PREFIX_SIZE + k] == f[PREFIX_SIZE..PREFIX_SIZE + k]
    ensures g[PREFIX_SIZE + k..] == f[PREFIX_SIZE + k..]
  {
    assert forall x: seq<byte> | |x| == |f| ::
      x[PREFIX_SIZE..PREFIX_SIZE + k] == x[PREFIX_SIZE..][..k] && x[PREFIX_SIZE + k..] == x[PREFIX_SIZE..][k..];
  }

  /** Decode, when the header fields add up to the length of the input. */
  lemma DecodeFields(g: seq<byte>, k: nat, v: nat, tombstone: bool)
    requires |g| == PREFIX_SIZE + k + v && ParseHeader(g[4..PREFIX_SIZE]) == Header(k, v, tombstone)
    ensures Decode(g) ==
      if Checksum(HeaderBytes(Header(k, v, tombstone)) + g[PREFIX_SIZE..]) == GetBE(g[..4])
      then Ok(Entry(g[PREFIX_SIZE..PREFIX_SIZE + k], g[PREFIX_SIZE + k..], tombstone, 0, 0, |g|)) else Err(ErrChecksum)
  {
    hide Checksum, HeaderBytes, ParseHeader;
    var h := Header(k, v, tombstone);
    var key, value := g[PREFIX_SIZE..PREFIX_SIZE + k], g[PREFIX_SIZE + k..];
    assert value == g[PREFIX_SIZE + k..|g|];
    assert g[PREFIX_SIZE..] == key + value;
    assert HeaderBytes(h) + g[PREFIX_SIZE..] == Payload(h, key, value);
  }
}
