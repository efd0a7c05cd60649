/** internal/codec/codec.go: varints (unsigned LEB128, section 7.6 of DWARF Version 5) and
    zig-zag integers. A 64-bit word is its value; the bit operations act on its binary digits. */
module Codec {
  import opened Bytes

  const MAX_VARINT_LEN: nat := 10

  datatype VarintError = EndOfInput | Overflow

  /** Bitwise or. */
  function Or(a: nat, b: nat): nat {
    if a == 0 && b == 0 then 0 else 2 * Or(a / 2, b / 2) + if a % 2 == 1 || b % 2 == 1 then 1 else 0
  }

  /** Bitwise exclusive or. */
  function Xor(a: nat, b: nat): nat {
    if a == 0 && b == 0 then 0 else 2 * Xor(a / 2, b / 2) + if a % 2 != b % 2 then 1 else 0
  }

  /** Bitwise and. */
  function And(a: nat, b: nat): nat {
    if a == 0 && b == 0 then 0 else 2 * And(a / 2, b / 2) + if a % 2 == 1 && b % 2 == 1 then 1 else 0
  }

  /** A left shift of a 64-bit word drops what leaves the word. */
  function ShiftLeft(a: nat, s: nat): (r: nat)
    ensures r < TWO64
  {
    a * Pow2(s) % TWO64
  }

  /** Or with bits above those of the left operand adds: no bit is lost. */
  lemma {:induction false} OrDisjoint(x: nat, b: nat, s: nat)
    requires x < Pow2(s)
    ensures Or(x, b * Pow2(s)) == x + b * Pow2(s)
    decreases s
  {
    if s == 0 {
      OrZero(b);
    } else {
      var y := b * Pow2(s - 1);
      assert b * Pow2(s) == 2 * y;
      OrDisjoint(x / 2, b, s - 1);
      assert 2 * y / 2 == y && (2 * y) % 2 == 0;
    }
  }

  lemma {:induction false} OrZero(b: nat)
    ensures Or(0, b) == b
  {
    if b > 0 { OrZero(b / 2); }
  }

  lemma {:induction false} XorZero(a: nat)
    ensures Xor(a, 0) == a
  {
    if a > 0 { XorZero(a / 2); }
  }

  /** Exclusive or with all ones complements. */
  lemma {:induction false} XorOnes(a: nat, n: nat)
    requires a < Pow2(n)
    ensures Xor(a, Pow2(n) - 1) == Pow2(n) - 1 - a
    decreases n
  {
    hide Pow2;
    if n == 0 {
      Seven();
      XorZero(0);
    } else {
      HalveOnes(a, n);
      XorOnes(a / 2, n - 1);
    }
  }

  /** n ones without the lowest are n - 1 ones. */
  lemma HalveOnes(a: nat, n: nat)
    requires n > 0
    ensures (Pow2(n) - 1) / 2 == Pow2(n - 1) - 1 && (Pow2(n) - 1) % 2 == 1 && Pow2(n) == 2 * Pow2(n - 1)
    ensures a < Pow2(n) <==> a / 2 < Pow2(n - 1)
  {
  }

  /** And with n ones keeps the low n bits. */
  lemma {:induction false} AndOnes(a: nat, n: nat)
    ensures And(a, Pow2(n) - 1) == a % Pow2(n)
    decreases n, a
  {
    hide Pow2;
    if n == 0 {
      Seven();
      AndZero(a);
    } else {
      HalveOnes(a, n);
      AndOnes(a / 2, n - 1);
      DivTwice(a, 2, Pow2(n - 1));
    }
  }

  lemma {:induction false} AndZero(a: nat)
    ensures And(a, 0) == 0
  {
    if a > 0 { AndZero(a / 2); }
  }

  /** Or with a bit adds it when it is not there and changes nothing when it is. */
  lemma {:induction false} OrBit(y: nat, s: nat)
    requires y < Pow2(s)
    ensures Or(y, Pow2(s)) == y + Pow2(s) && Or(y + Pow2(s), Pow2(s)) == y + Pow2(s)
    decreases s
  {
    if s == 0 {
      assert Or(0, 1) == 1 && Or(1, 1) == 1;
    } else {
      OrBit(y / 2, s - 1);
      assert (y + Pow2(s)) / 2 == y / 2 + Pow2(s - 1) && Pow2(s) / 2 == Pow2(s - 1);
    }
  }

  lemma Pow2Add(a: nat, b: nat)
    ensures Pow2(a + b) == Pow2(a) * Pow2(b)
    decreases a
  {
    if a > 0 {
      Pow2Add(a - 1, b);
      assert Pow2(a + b) == 2 * Pow2(a - 1 + b);
    }
  }

  lemma Pow64()
    ensures Pow2(63) == TWO63 && Pow2(64) == TWO64
  {
    assert Pow2(16) == 0x1_0000;
    Pow2Add(16, 16);
    Pow2Add(32, 16);
    Pow2Add(48, 15);
    assert Pow2(15) == 0x8000;
    assert Pow2(64) == 2 * Pow2(63);
  }

  lemma Seven()
    ensures Pow2(0) == 1 && Pow2(7) == 0x80
  {
  }

  // ---- Varints ----

  /** The shortest base-128 form of v, least significant digit first. */
  function Varint(v: nat): (bs: seq<byte>)
    ensures |bs| > 0
  {
    if v < 0x80 then [v] else [v % 0x80 + 0x80] + Varint(v / 0x80)
  }

  /** A varint of n bytes at the start of bs: only the last one has its top bit clear. */
  predicate Terminated(bs: seq<byte>, n: nat) {
    0 < n <= |bs| && bs[n - 1] < 0x80 && forall i | 0 <= i < n - 1 :: bs[i] >= 0x80
  }

  /** The first n bytes of bs as base-128 digits. */
  function Digits(bs: seq<byte>, n: nat): nat
    requires n <= |bs|
  {
    if n == 0 then 0 else Digits(bs, n - 1) + bs[n - 1] % 0x80 * Pow2(7 * (n - 1))
  }

  /** What reading a varint from bs yields: the value, the bytes consumed and the error. */
  predicate Reads(bs: seq<byte>, x: nat, n: nat, err: Option<VarintError>) {
    match err
    case None =>
      Terminated(bs, n) && n <= MAX_VARINT_LEN && (n == MAX_VARINT_LEN ==> bs[n - 1] <= 1) && x == Digits(bs, n)
    case Some(EndOfInput) =>
      x == 0 && n == |bs| < MAX_VARINT_LEN && forall i | 0 <= i < n :: bs[i] >= 0x80
    case Some(Overflow) =>
      && x == 0 && n == MAX_VARINT_LEN <= |bs| && bs[n - 1] > 1
      && forall i | 0 <= i < n - 1 :: bs[i] >= 0x80
  }

  /** The bytes a reader has not consumed yet are data[pos..]. */
  class ByteReader {
    const data: seq<byte>
    var pos: nat

    ghost predicate Valid()
      reads this
    {
      pos <= |data|
    }

    constructor (data: seq<byte>)
      ensures Valid() && this.data == data && pos == 0
    {
      this.data, pos := data, 0;
    }

    method ReadByte() returns (b: Option<byte>)
      requires Valid()
      modifies this
      ensures Valid()
      ensures b == if old(pos) < |data| then Some(data[old(pos)]) else None
      ensures pos == old(pos) + if b.Some? then 1 else 0
    {
      if pos == |data| {
        return None;
      }
      b := Some(data[pos]);
      pos := pos + 1;
    }
  }

  /** Ten bytes of buffer are enough for every word. */
  method EncodeVarint(v: nat) returns (bs: seq<byte>)
    requires v < TWO64
    ensures bs == Varint(v) && |bs| <= MAX_VARINT_LEN
  {
    WordLength(v);
    var buf := new byte[10];
    var x, i := v, 0;
    while x >= 0x80
      invariant 0 <= i < 10 && i + |Varint(x)| <= 10
      invariant buf[..i] + Varint(x) == Varint(v)
    {
      ghost var before := buf[..i];
      LowByte(x);
      buf[i] := Or(x % 0x100, 0x80);
      assert buf[..i + 1] == before + [x % 0x80 + 0x80];
      x := x / 0x80;
      i := i + 1;
    }
    buf[i] := x;
    return buf[..i + 1];
  }

  lemma LowByte(x: nat)
    ensures Or(x % 0x100, 0x80) == x % 0x80 + 0x80
  {
    hide Or, Pow2;
    Seven();
    OrBit(x % 0x80, 7);
    assert x % 0x100 == x % 0x80 || x % 0x100 == x % 0x80 + 0x80;
  }

  /** The value is the exact base-128 sum, and the reader has moved by the bytes reported. */
  method ReadVarint(r: ByteReader) returns (x: nat, n: nat, err: Option<VarintError>)
    requires r.Valid()
    modifies r
    ensures r.Valid() && r.pos == old(r.pos) + n
    ensures Reads(r.data[old(r.pos)..], x, n, err) && x < TWO64
  {
    hide Or, And, Pow2;
    ghost var rest := r.data[r.pos..];
    var acc, s := 0, 0;
    for i := 0 to MAX_VARINT_LEN
      invariant r.Valid() && r.pos == old(r.pos) + i && s == 7 * i
      invariant forall j | 0 <= j < i :: rest[j] >= 0x80
      invariant i < MAX_VARINT_LEN ==> acc == Digits(rest, i)
    {
      var b := r.ReadByte();
      if b.None? {
        return 0, i, Some(EndOfInput);
      }
      assert b.value == rest[i];
      if b.value < 0x80 {
        if i == MAX_VARINT_LEN - 1 && b.value > 1 {
          return 0, i + 1, Some(Overflow);
        }
        NextDigit(rest, i, b.value);
        return Or(acc, ShiftLeft(b.value, s)), i + 1, None;
      }
      if i < MAX_VARINT_LEN - 1 {
        NextDigit(rest, i, b.value % 0x80);
      }
      LowBits(b.value);
      acc := Or(acc, ShiftLeft(And(b.value, 0x7f), s));
      s := s + 7;
    }
    return 0, MAX_VARINT_LEN, Some(Overflow);
  }

  lemma LowBits(b: byte)
    ensures And(b, 0x7f) == b % 0x80
  {
    assert Pow2(7) == 0x80;
    AndOnes(b, 7);
  }

  /** Putting the next digit in place neither drops a bit nor touches one already there. */
  lemma NextDigit(bs: seq<byte>, i: nat, d: nat)
    requires i < |bs| && i < MAX_VARINT_LEN && d == bs[i] % 0x80 && (i == MAX_VARINT_LEN - 1 ==> d <= 1)
    ensures Or(Digits(bs, i), ShiftLeft(d, 7 * i)) == Digits(bs, i + 1) < TWO64
  {
    DigitsBound(bs, i);
    Placed(d, i);
    OrDisjoint(Digits(bs, i), d, 7 * i);
  }

  lemma Placed(d: nat, i: nat)
    requires i < MAX_VARINT_LEN && d < 0x80 && (i == MAX_VARINT_LEN - 1 ==> d <= 1)
    ensures ShiftLeft(d, 7 * i) == d * Pow2(7 * i) && Pow2(7 * i) + d * Pow2(7 * i) <= TWO64
  {
    hide Pow2;
    Pow64();
    var p := Pow2(7 * i);
    if i == MAX_VARINT_LEN - 1 {
      assert d == 0 || d == 1;
    } else {
      Pow2Monotone(7 * i + 7, 63);
      Pow2Add(7, 7 * i);
      Seven();
      DigitTimes(d, p);
    }
  }

  lemma DigitTimes(d: nat, p: nat)
    requires d < 0x80
    ensures p + d * p <= 0x80 * p
  {
    assert p + d * p == (d + 1) * p <= 0x80 * p;
  }

  lemma {:induction false} Pow2Monotone(a: nat, b: nat)
    requires a <= b
    ensures Pow2(a) <= Pow2(b)
    decreases b
  {
    if a < b { Pow2Monotone(a, b - 1); }
  }

  lemma {:induction false} DigitsBound(bs: seq<byte>, n: nat)
    requires n <= |bs|
    ensures Digits(bs, n) < Pow2(7 * n)
    decreases n
  {
    hide Pow2;
    Seven();
    if n > 0 {
      DigitsBound(bs, n - 1);
      Pow2Add(7, 7 * (n - 1));
      Seven();
      DigitTimes(bs[n - 1] % 0x80, Pow2(7 * (n - 1)));
    }
  }

  /** Every input has one outcome only. */
  lemma ReadsUnique(bs: seq<byte>, x: nat, n: nat, e: Option<VarintError>, x': nat, n': nat, e': Option<VarintError>)
    requires Reads(bs, x, n, e) && Reads(bs, x', n', e')
    ensures x == x' && n == n' && e == e'
  {
    hide Digits;
  }

  /** A varint has at most n bytes exactly when the value has at most 7n bits. */
  lemma {:induction false} VarintLength(v: nat, n: nat)
    requires n > 0
    ensures |Varint(v)| <= n <==> v < Pow2(7 * n)
    decreases n
  {
    assert Pow2(7) == 0x80;
    if n == 1 {
    } else {
      Pow2Add(7, 7 * (n - 1));
      assert Pow2(7 * n) == 0x80 * Pow2(7 * (n - 1));
      if v >= 0x80 {
        VarintLength(v / 0x80, n - 1);
        assert v < 0x80 * Pow2(7 * (n - 1)) <==> v / 0x80 < Pow2(7 * (n - 1));
      }
    }
  }

  lemma WordLength(v: nat)
    requires v < TWO64
    ensures |Varint(v)| <= MAX_VARINT_LEN
  {
    Pow64();
    Pow2Monotone(64, 70);
    VarintLength(v, 10);
  }

  /** The digits from the first byte on. */
  lemma {:induction false} DigitsFront(bs: seq<byte>, n: nat)
    requires 0 < n <= |bs|
    ensures Digits(bs, n) == bs[0] % 0x80 + 0x80 * Digits(bs[1..], n - 1)
    decreases n
  {
    if n > 1 {
      DigitsFront(bs, n - 1);
      Pow2Add(7, 7 * (n - 2));
      assert Pow2(7) == 0x80;
      var d, p := bs[n - 1] % 0x80, Pow2(7 * (n - 2));
      assert Pow2(7 * (n - 1)) == 0x80 * p;
      assert d * (0x80 * p) == 0x80 * (d * p);
      assert bs[1..][n - 2] == bs[n - 1];
    } else {
      assert Digits(bs, 1) == Digits(bs, 0) + bs[0] % 0x80 * Pow2(0);
    }
  }

  lemma {:induction false} VarintTerminated(v: nat, tail: seq<byte>)
    ensures Terminated(Varint(v) + tail, |Varint(v)|)
  {
    if v >= 0x80 {
      var bs, n := Varint(v) + tail, |Varint(v)|;
      VarintTerminated(v / 0x80, tail);
      var more := Varint(v / 0x80) + tail;
      assert bs == [v % 0x80 + 0x80] + more;
      forall i | 0 <= i < n - 1 ensures bs[i] >= 0x80 {
        if i > 0 { assert bs[i] == more[i - 1]; }
      }
      assert bs[n - 1] == more[n - 2];
    }
  }

  lemma {:induction false} VarintDigits(v: nat, tail: seq<byte>)
    ensures Digits(Varint(v) + tail, |Varint(v)|) == v
  {
    hide Digits;
    var bs, n := Varint(v) + tail, |Varint(v)|;
    DigitsFront(bs, n);
    if v >= 0x80 {
      VarintDigits(v / 0x80, tail);
      assert bs[1..] == Varint(v / 0x80) + tail;
    } else {
      NoDigits(bs[1..]);
    }
  }

  lemma NoDigits(bs: seq<byte>)
    ensures Digits(bs, 0) == 0
  {
  }

  /** Whatever follows an encoded word, reading gives back the word and stops right after it. */
  lemma VarintRoundTrip(v: nat, tail: seq<byte>, x: nat, n: nat, err: Option<VarintError>)
    requires v < TWO64
    requires Reads(Varint(v) + tail, x, n, err)
    ensures err == None && x == v && n == |Varint(v)|
  {
    var bs, len := Varint(v) + tail, |Varint(v)|;
    VarintTerminated(v, tail);
    VarintDigits(v, tail);
    WordLength(v);
    if len == MAX_VARINT_LEN {
      LastDigit(bs, v);
    }
    ReadsUnique(bs, x, n, err, v, len, None);
  }

  lemma LastDigit(bs: seq<byte>, v: nat)
    requires |bs| >= 10 && bs[9] < 0x80 && Digits(bs, 10) == v < TWO64
    ensures bs[9] <= 1
  {
    hide Pow2;
    Pow64();
    assert v >= bs[9] * TWO63;
  }

  /** What is accepted is what EncodeVarint writes exactly when it does not end in a zero digit
      above the first: longer forms of a value are accepted too. */
  lemma {:induction false} CanonicalIff(bs: seq<byte>, n: nat)
    requires Terminated(bs, n)
    ensures Varint(Digits(bs, n)) == bs[..n] <==> n == 1 || bs[n - 1] != 0
    decreases n
  {
    DigitsFront(bs, n);
    var v := Digits(bs, n);
    if n == 1 {
      assert bs[..1] == [bs[0]];
    } else {
      var more := bs[1..];
      var d := Digits(more, n - 1);
      assert more[n - 2] == bs[n - 1];
      CanonicalIff(more, n - 1);
      assert bs[0] >= 0x80;
      assert bs[..n] == [bs[0]] + more[..n - 1];
      if d == 0 {
        ZeroDigits(more, n - 1);
      } else {
        assert v / 0x80 == d && v % 0x80 + 0x80 == bs[0];
        assert Varint(v) == [bs[0]] + Varint(d);
        assert Varint(v)[1..] == Varint(d) && bs[..n][1..] == more[..n - 1];
        if n == 2 { DigitsFront(more, 1); }
      }
    }
  }

  lemma ZeroDigits(bs: seq<byte>, n: nat)
    requires Terminated(bs, n) && Digits(bs, n) == 0
    ensures bs[n - 1] == 0
  {
    var p := Pow2(7 * (n - 1));
    assert bs[n - 1] * p >= bs[n - 1];
  }

  /** Byte i of a varint holds bits 7i to 7i + 6 of the value, and its top bit says whether
      another byte follows. */
  lemma {:induction false} VarintByte(v: nat, i: nat)
    requires i < |Varint(v)|
    ensures Varint(v)[i] == v / Pow2(7 * i) % 0x80 + if i < |Varint(v)| - 1 then 0x80 else 0
    decreases i
  {
    hide Pow2;
    Seven();
    if i > 0 {
      VarintByte(v / 0x80, i - 1);
      Pow2Add(7, 7 * (i - 1));
      DivTwice(v, 0x80, Pow2(7 * (i - 1)));
    }
  }

  /** A whole varint of n bytes is at the start of bs, and its value is a 64-bit word. */
  ghost predicate WordAt(bs: seq<byte>, n: nat) {
    Terminated(bs, n) && Digits(bs, n) < TWO64
  }

  /** Reading succeeds exactly on the inputs that start with a word in at most ten bytes, and its
      value is then that word.  Otherwise the input has ended within nine bytes or ten bytes have
      been taken; the value is zero in both cases. */
  lemma ReadsExact(bs: seq<byte>, x: nat, n: nat, err: Option<VarintError>)
    requires Reads(bs, x, n, err)
    ensures err == None <==> exists m: nat :: m <= MAX_VARINT_LEN && WordAt(bs, m)
    ensures err == None ==> WordAt(bs, n) && x == Digits(bs, n)
    ensures err != None ==> x == 0 && n == if |bs| < MAX_VARINT_LEN then |bs| else MAX_VARINT_LEN
    ensures err == Some(EndOfInput) <==> |bs| < MAX_VARINT_LEN && forall m: nat :: !Terminated(bs, m)
  {
    hide Digits, Pow2;
    if err == None {
      TenBytes(bs, n);
      assert WordAt(bs, n);
    } else if m: nat :| m <= MAX_VARINT_LEN && WordAt(bs, m) {
      if m == MAX_VARINT_LEN { LastDigit(bs, Digits(bs, MAX_VARINT_LEN)); }
      assert false;
    }
  }

  /** Ten bytes hold a word if the last one is at most 1. */
  lemma TenBytes(bs: seq<byte>, n: nat)
    requires Terminated(bs, n) && n <= MAX_VARINT_LEN && (n == MAX_VARINT_LEN ==> bs[n - 1] <= 1)
    ensures Digits(bs, n) < TWO64
  {
    NextDigit(bs, n - 1, bs[n - 1]);
  }

  // ---- Zig-zag ----

  function ZigZagEncode(v: int): nat
    requires IsInt64(v)
  {
    Xor(ShiftLeft(ToUint64(v), 1), ToUint64(v / TWO63))
  }

  function ZigZagDecode(u: nat): int
    requires u < TWO64
  {
    ToInt64(Xor(u / 2, ToUint64(0 - And(u, 1))))
  }

  /** The sign goes to the lowest bit. */
  lemma ZigZagMeaning(v: int)
    requires IsInt64(v)
    ensures ZigZagEncode(v) == if v >= 0 then 2 * v else -2 * v - 1
  {
    hide Xor, ShiftLeft, Pow2;
    Pow64();
    ShiftedSign(v);
    if v >= 0 {
      XorZero(2 * v);
    } else {
      XorOnes(2 * v + TWO64, 64);
    }
  }

  /** Both operands of the exclusive or, as 64-bit patterns. */
  lemma ShiftedSign(v: int)
    requires IsInt64(v)
    ensures v >= 0 ==> ShiftLeft(ToUint64(v), 1) == 2 * v && ToUint64(v / TWO63) == 0
    ensures v < 0 ==> ShiftLeft(ToUint64(v), 1) == 2 * v + TWO64 && ToUint64(v / TWO63) == TWO64 - 1
  {
    assert Pow2(1) == 2;
    assert v >= 0 ==> v / TWO63 == 0;
    assert v < 0 ==> v / TWO63 == -1;
  }

  lemma UnZigZagMeaning(u: nat)
    requires u < TWO64
    ensures ZigZagDecode(u) == if u % 2 == 0 then u / 2 else -(u / 2) - 1
  {
    hide Xor, And;
    Pow64();
    AndOnes(u, 1);
    assert Pow2(1) == 2;
    if u % 2 == 0 {
      XorZero(u / 2);
    } else {
      XorOnes(u / 2, 64);
    }
  }

  /** Zig-zag is a bijection between int64 and uint64. */
  lemma ZigZagBijection(v: int, u: nat)
    requires IsInt64(v) && u < TWO64
    ensures ZigZagEncode(v) < TWO64 && ZigZagDecode(ZigZagEncode(v)) == v
    ensures IsInt64(ZigZagDecode(u)) && ZigZagEncode(ZigZagDecode(u)) == u
  {
    hide ZigZagEncode, ZigZagDecode;
    ZigZagMeaning(v);
    UnZigZagMeaning(ZigZagEncode(v));
    UnZigZagMeaning(u);
    ZigZagMeaning(ZigZagDecode(u));
  }

  /** Every int64 survives zig-zag, varint and back, and the numbers of at most 7n bits with
      their sign take at most n bytes. */
  lemma SignedRoundTrip(v: int, tail: seq<byte>, x: nat, n: nat, err: Option<VarintError>)
    requires IsInt64(v)
    requires Reads(Varint(ZigZagEncode(v)) + tail, x, n, err)
    ensures err == None && x < TWO64 && ZigZagDecode(x) == v
    ensures forall k | k > 0 :: n <= k <==> 0 - Pow2(7 * k - 1) <= v < Pow2(7 * k - 1)
  {
    hide ZigZagEncode, ZigZagDecode;
    ZigZagMeaning(v);
    ZigZagBijection(v, 0);
    VarintRoundTrip(ZigZagEncode(v), tail, x, n, err);
    forall k | k > 0 ensures n <= k <==> 0 - Pow2(7 * k - 1) <= v < Pow2(7 * k - 1) {
      VarintLength(ZigZagEncode(v), k);
      assert Pow2(7 * k) == 2 * Pow2(7 * k - 1);
    }
  }
}
