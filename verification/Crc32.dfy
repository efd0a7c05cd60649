/** CRC-32 with the IEEE polynomial (section 3.2.9 of IEEE 802.3), computed by the
    reflected algorithm of section 8 of RFC 1952.  A 32-bit word is the sequence of
    its bits, least significant first, so that shifting and xor are pointwise. */
module Crc32 {
  import opened Bytes

  type Word = w: seq<bool> | |w| == 32 witness Bits(0, 32)

  /** The unsigned value of a bit string, least significant bit first. */
  function Value(bits: seq<bool>): (v: nat)
    ensures v < Pow2(|bits|)
  {
    if |bits| == 0 then 0 else (if bits[0] then 1 else 0) + 2 * Value(bits[1..])
  }

  /** The n low bits of v, least significant first. */
  function Bits(v: nat, n: nat): (bits: seq<bool>)
    ensures |bits| == n
  {
    if n == 0 then [] else [v % 2 == 1] + Bits(v / 2, n - 1)
  }

  lemma {:induction false} ValueInjective(a: seq<bool>, b: seq<bool>)
    requires |a| == |b| && Value(a) == Value(b)
    ensures a == b
  {
    if |a| > 0 {
      ValueInjective(a[1..], b[1..]);
      assert a == [a[0]] + a[1..];
      assert b == [b[0]] + b[1..];
    }
  }

  lemma {:induction false} BitsInjective(u: nat, v: nat, n: nat)
    requires u < Pow2(n) && v < Pow2(n) && Bits(u, n) == Bits(v, n)
    ensures u == v
  {
    if n > 0 {
      assert Bits(u, n)[1..] == Bits(u / 2, n - 1);
      assert Bits(v, n)[1..] == Bits(v / 2, n - 1);
      assert Bits(u, n)[0] == Bits(v, n)[0];
      BitsInjective(u / 2, v / 2, n - 1);
    }
  }

  /** The powers of x below 32 in the generating polynomial of section 3.2.9 of IEEE 802.3. */
  predicate IsTerm(e: int) {
    || e == 26 || e == 23 || e == 22 || e == 16 || e == 12 || e == 11 || e == 10
    || e == 8 || e == 7 || e == 5 || e == 4 || e == 2 || e == 1 || e == 0
  }

  /** Bit i of the reflected polynomial. */
  predicate PolyBit(i: nat) {
    IsTerm(31 - i)
  }

  function Polynomial(): Word {
    seq(32, i requires 0 <= i < 32 => PolyBit(i))
  }

  /** The bits of the polynomial from i up, as a number. */
  function PolyFrom(i: nat): nat
    requires i <= 32
    decreases 32 - i
  {
    if i == 32 then 0 else (if PolyBit(i) then 1 else 0) + 2 * PolyFrom(i + 1)
  }

  lemma {:induction false} PolySuffix(i: nat)
    requires i <= 32
    ensures Value(Polynomial()[i..]) == PolyFrom(i)
    decreases 32 - i
  {
    if i < 32 {
      PolySuffix(i + 1);
      assert Polynomial()[i..][1..] == Polynomial()[i + 1..];
    }
  }

  lemma PolyNibble(i: nat)
    requires i <= 28
    ensures PolyFrom(i) == (if PolyBit(i) then 1 else 0) + (if PolyBit(i + 1) then 2 else 0) +
      (if PolyBit(i + 2) then 4 else 0) + (if PolyBit(i + 3) then 8 else 0) +
      16 * if i == 28 then 0 else PolyFrom(i + 4)
  {
    hide PolyBit;
    assert PolyFrom(i + 2) == (if PolyBit(i + 2) then 1 else 0) + 2 * PolyFrom(i + 3);
  }

  /** The reflected polynomial of IEEE 802.3 is the constant that RFC 1952 uses. */
  lemma PolynomialValue()
    ensures Value(Polynomial()) == 0xEDB8_8320
  {
    hide Value, PolyFrom;
    PolySuffix(0);
    assert Polynomial()[0..] == Polynomial();
    PolyNibble(28);
    PolyNibble(24);
    PolyNibble(20);
    PolyNibble(16);
    PolyNibble(12);
    PolyNibble(8);
    PolyNibble(4);
    PolyNibble(0);
  }

  function Ones(): (w: Word) {
    seq(32, i => true)
  }

  function Complement(c: Word): (r: Word) {
    seq(32, i requires 0 <= i < 32 => !c[i])
  }

  /** One round of section 8 of RFC 1952: c >> 1, xor the polynomial when c is odd. */
  function Shift(c: Word): (r: Word) {
    seq(32, i requires 0 <= i < 32 => (i < 31 && c[i + 1]) != (c[0] && PolyBit(i)))
  }

  /** c xor a word whose low bits are `low` and whose other bits are zero. */
  function XorLow(c: Word, low: seq<bool>): (r: Word) {
    seq(32, i requires 0 <= i < 32 => c[i] != (i < |low| && low[i]))
  }

  /** Xor one message bit into the low bit, then one round. */
  function Feed(c: Word, bit: bool): (r: Word) {
    Shift(XorLow(c, [bit]))
  }

  function FeedAll(c: Word, bits: seq<bool>): (r: Word)
    decreases |bits|
  {
    if |bits| == 0 then c else FeedAll(Feed(c, bits[0]), bits[1..])
  }

  /** The message as the bit stream the checksum consumes: each byte low bit first. */
  function Stream(data: seq<byte>): (bits: seq<bool>)
    ensures |bits| == 8 * |data|
  {
    if |data| == 0 then [] else Bits(data[0], 8) + Stream(data[1..])
  }

  /** crc32.ChecksumIEEE as an unsigned 32-bit value. */
  function Checksum(data: seq<byte>): (crc: nat)
    ensures crc < TWO32
  {
    Pow2Widths();
    Value(Complement(FeedAll(Ones(), Stream(data))))
  }

  lemma Pow2Widths()
    ensures Pow2(8) == 256 && Pow2(31) == 0x8000_0000 && Pow2(32) == TWO32
  {
    assert Pow2(4) == 16 && Pow2(8) == 256 && Pow2(12) == 4096 && Pow2(16) == 65536;
    assert Pow2(20) == 0x10_0000 && Pow2(24) == 0x100_0000 && Pow2(28) == 0x1000_0000;
  }

  lemma {:induction false} FeedAllConcat(c: Word, p: seq<bool>, q: seq<bool>)
    ensures FeedAll(c, p + q) == FeedAll(FeedAll(c, p), q)
    decreases |p|
  {
    if |p| == 0 {
      assert p + q == q;
    } else {
      assert (p + q)[1..] == p[1..] + q;
      FeedAllConcat(Feed(c, p[0]), p[1..], q);
    }
  }

  lemma {:induction false} StreamConcat(a: seq<byte>, b: seq<byte>)
    ensures Stream(a + b) == Stream(a) + Stream(b)
  {
    if |a| == 0 {
      assert a + b == b;
    } else {
      assert (a + b)[1..] == a[1..] + b;
      StreamConcat(a[1..], b);
    }
  }

  lemma {:induction false} StreamInjective(a: seq<byte>, b: seq<byte>)
    requires Stream(a) == Stream(b)
    ensures a == b
  {
    if |a| > 0 {
      assert Stream(a)[..8] == Bits(a[0], 8) && Stream(b)[..8] == Bits(b[0], 8);
      Pow2Widths();
      BitsInjective(a[0], b[0], 8);
      assert Stream(a)[8..] == Stream(a[1..]) && Stream(b)[8..] == Stream(b[1..]);
      StreamInjective(a[1..], b[1..]);
      assert a == [a[0]] + a[1..] && b == [b[0]] + b[1..];
    }
  }

  // ---- The algorithm of RFC 1952: eight rounds per byte are eight one-bit steps ----

  function Rounds(c: Word, n: nat): (r: Word)
    decreases n
  {
    if n == 0 then c else Rounds(Shift(c), n - 1)
  }

  /** Consume one byte: xor it in, then eight rounds. */
  function Step(c: Word, b: byte): (r: Word) {
    Rounds(XorLow(c, Bits(b, 8)), 8)
  }

  function Update(c: Word, data: seq<byte>): (r: Word)
    decreases |data|
  {
    if |data| == 0 then c else Update(Step(c, data[0]), data[1..])
  }

  lemma {:induction false} RoundsAreFeeds(c: Word, bits: seq<bool>)
    requires |bits| <= 32
    ensures Rounds(XorLow(c, bits), |bits|) == FeedAll(c, bits)
    decreases |bits|
  {
    if |bits| == 0 {
      assert XorLow(c, bits) == c;
    } else {
      assert Shift(XorLow(c, bits)) == XorLow(Feed(c, bits[0]), bits[1..]);
      RoundsAreFeeds(Feed(c, bits[0]), bits[1..]);
    }
  }

  /** The byte-wise checksum state is the bit-serial one over the whole stream. */
  lemma {:induction false} UpdateIsBitSerial(c: Word, data: seq<byte>)
    ensures Update(c, data) == FeedAll(c, Stream(data))
    decreases |data|
  {
    if |data| > 0 {
      RoundsAreFeeds(c, Bits(data[0], 8));
      FeedAllConcat(c, Bits(data[0], 8), Stream(data[1..]));
      UpdateIsBitSerial(Step(c, data[0]), data[1..]);
    }
  }

  lemma ChecksumByByte(data: seq<byte>)
    ensures Checksum(data) == Value(Complement(Update(Ones(), data)))
  {
    UpdateIsBitSerial(Ones(), data);
  }

  // ---- Detection ----

  /** The two words agree on every bit from position k up. */
  predicate Agree(a: Word, b: Word, k: nat) {
    forall i | k <= i < 32 :: a[i] == b[i]
  }

  /** One step backwards.  The polynomial has its top bit set, so the top bit of the
      result tells whether the polynomial was applied. */
  lemma FeedBack(a: Word, x: bool, b: Word, y: bool, k: nat)
    requires k <= 31 && Agree(Feed(a, x), Feed(b, y), k)
    ensures (a[0] != x) == (b[0] != y) && Agree(a, b, k + 1)
  {
    hide Bits;
    assert PolyBit(31);
    assert Feed(a, x)[31] == Feed(b, y)[31];
    forall i | k + 1 <= i < 32 ensures a[i] == b[i] {
      assert Feed(a, x)[i - 1] == Feed(b, y)[i - 1];
    }
  }

  lemma {:induction false} FeedAllBack(a: Word, p: seq<bool>, b: Word, q: seq<bool>)
    requires |p| == |q| <= 32 && FeedAll(a, p) == FeedAll(b, q)
    ensures Agree(a, b, |p|)
    decreases |p|
  {
    if |p| > 0 {
      FeedAllBack(Feed(a, p[0]), p[1..], Feed(b, q[0]), q[1..]);
      FeedBack(a, p[0], b, q[0], |p| - 1);
    }
  }

  /** From one state, two bit strings of at most 32 bits that reach one state are equal. */
  lemma {:induction false} BurstInjective(c: Word, p: seq<bool>, q: seq<bool>)
    requires |p| == |q| <= 32 && FeedAll(c, p) == FeedAll(c, q)
    ensures p == q
    decreases |p|
  {
    if |p| > 0 {
      FeedAllBack(Feed(c, p[0]), p[1..], Feed(c, q[0]), q[1..]);
      FeedBack(c, p[0], c, q[0], |p| - 1);
      BurstInjective(Feed(c, p[0]), p[1..], q[1..]);
      assert p == [p[0]] + p[1..] && q == [q[0]] + q[1..];
    }
  }

  /** For a fixed message the state is never forgotten. */
  lemma {:induction false} StateInjective(a: Word, b: Word, p: seq<bool>)
    requires FeedAll(a, p) == FeedAll(b, p)
    ensures a == b
    decreases |p|
  {
    if |p| > 0 {
      StateInjective(Feed(a, p[0]), Feed(b, p[0]), p[1..]);
      FeedBack(a, p[0], b, p[0], 0);
      assert forall i | 0 <= i < 32 :: a[i] == b[i];
    }
  }

  lemma ChecksumIsFinalState(a: seq<byte>, b: seq<byte>)
    requires Checksum(a) == Checksum(b)
    ensures FeedAll(Ones(), Stream(a)) == FeedAll(Ones(), Stream(b))
  {
    var u, v := FeedAll(Ones(), Stream(a)), FeedAll(Ones(), Stream(b));
    ValueInjective(Complement(u), Complement(v));
    forall i | 0 <= i < 32 ensures u[i] == v[i] {
      assert Complement(u)[i] == Complement(v)[i];
    }
  }

  /** Every error burst of at most 32 consecutive bits changes the checksum, in a message
      of any length: two messages whose bit streams agree outside such a window and whose
      checksums agree are the same message. */
  lemma BurstDetected(a: seq<byte>, b: seq<byte>, start: nat, len: nat)
    requires |a| == |b| && len <= 32 && start + len <= 8 * |a|
    requires Stream(a)[..start] == Stream(b)[..start]
    requires Stream(a)[start + len..] == Stream(b)[start + len..]
    requires Checksum(a) == Checksum(b)
    ensures a == b
  {
    hide Checksum, FeedAll, Stream, Ones;
    var s, t := Stream(a), Stream(b);
    var p, q, post := s[start..start + len], t[start..start + len], s[start + len..];
    assert s == s[..start] + (p + post) && t == s[..start] + (q + post);
    ChecksumIsFinalState(a, b);
    FeedAllConcat(Ones(), s[..start], p + post);
    FeedAllConcat(Ones(), s[..start], q + post);
    var c := FeedAll(Ones(), s[..start]);
    FeedAllConcat(c, p, post);
    FeedAllConcat(c, q, post);
    StateInjective(FeedAll(c, p), FeedAll(c, q), post);
    BurstInjective(c, p, q);
    StreamInjective(a, b);
  }

  /** The same for two messages that agree outside n <= 4 consecutive bytes. */
  lemma FourBytesDetected(a: seq<byte>, b: seq<byte>, at: nat, n: nat)
    requires |a| == |b| && n <= 4 && at + n <= |a|
    requires forall j | 0 <= j < |a| && !(at <= j < at + n) :: a[j] == b[j]
    ensures Checksum(a) == Checksum(b) <==> a == b
  {
    if Checksum(a) == Checksum(b) {
      var pre, post := a[..at], a[at + n..];
      assert a == pre + a[at..at + n] + post && b == pre + b[at..at + n] + post;
      StreamConcat(pre + a[at..at + n], post);
      StreamConcat(pre, a[at..at + n]);
      StreamConcat(pre + b[at..at + n], post);
      StreamConcat(pre, b[at..at + n]);
      BurstDetected(a, b, 8 * at, 8 * n);
    }
  }
}
