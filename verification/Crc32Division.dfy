/** What the checksum is: the definition of section 3.2.9 of IEEE 802.3, a division of
    polynomials over GF(2), without the shift register. */
module Crc32Division {
  import opened Bytes
  import opened Crc32

  // ---- Division over GF(2) ----

  /** A polynomial over GF(2) is the list of its coefficients, the highest power first.  The
      generating polynomial has degree 32: x^32 and the powers of IsTerm. */
  function Generator(): seq<bool> {
    seq(33, i => i == 0 || IsTerm(32 - i))
  }

  /** The sum of two polynomials whose highest powers stand first. */
  function Sum(a: seq<bool>, b: seq<bool>): (r: seq<bool>)
    requires |b| <= |a|
    ensures |r| == |a|
  {
    seq(|a|, i requires 0 <= i < |a| => a[i] != (i < |b| && b[i]))
  }

  /** The dividend without its highest power, once that has been cancelled. */
  function Cancel(p: seq<bool>): (r: seq<bool>)
    requires |p| > 32
    ensures |r| == |p| - 1
  {
    if p[0] then Sum(p, Generator())[1..] else p[1..]
  }

  /** Long division: the remainder, of degree below 32. */
  function Remainder(p: seq<bool>): (r: seq<bool>)
    requires |p| >= 32
    ensures |r| == 32
    decreases |p|
  {
    if |p| == 32 then p else Remainder(Cancel(p))
  }

  function Quotient(p: seq<bool>): (q: seq<bool>)
    requires |p| >= 32
    ensures |q| == |p| - 32
    decreases |p|
  {
    if |p| == 32 then [] else [p[0]] + Quotient(Cancel(p))
  }

  /** q times the generating polynomial, plus r. */
  function TimesPlus(q: seq<bool>, r: seq<bool>): (p: seq<bool>)
    requires |r| == 32
    ensures |p| == |q| + 32
  {
    if |q| == 0 then r else
    var rest := [false] + TimesPlus(q[1..], r);
    if q[0] then Sum(rest, Generator()) else rest
  }

  /** The division is exact: the dividend is the quotient times the generating polynomial plus
      the remainder. */
  lemma {:induction false} DivisionExact(p: seq<bool>)
    requires |p| >= 32
    ensures p == TimesPlus(Quotient(p), Remainder(p))
    decreases |p|
  {
    if |p| > 32 {
      DivisionExact(Cancel(p));
      assert Quotient(p)[1..] == Quotient(Cancel(p));
      AddBack(p);
    }
  }

  lemma AddBack(p: seq<bool>)
    requires |p| > 32
    ensures p == if p[0] then Sum([false] + Cancel(p), Generator()) else [false] + Cancel(p)
  {
    var back := if p[0] then Sum([false] + Cancel(p), Generator()) else [false] + Cancel(p);
    forall i | 0 <= i < |p| ensures back[i] == p[i] {
      if i > 0 { assert ([false] + Cancel(p))[i] == Cancel(p)[i - 1]; }
    }
  }

  // ---- The checksum ----

  /** Bit j of a message in transmission order: each byte goes out low bit first. */
  predicate MessageBit(data: seq<byte>, j: nat)
    requires j < 8 * |data|
  {
    data[j / 8] / Pow2(j % 8) % 2 == 1
  }

  /** The message times x^32, its first 32 bits complemented. */
  function Dividend(data: seq<byte>): (p: seq<bool>)
    ensures |p| == 8 * |data| + 32
  {
    seq(8 * |data| + 32, j requires 0 <= j < 8 * |data| + 32 =>
      (j < 32) != (j < 8 * |data| && MessageBit(data, j)))
  }

  /** The checksum of every byte string is the complement of the remainder, the coefficient of
      x^31 in its lowest bit. */
  lemma ChecksumIsRemainder(data: seq<byte>)
    ensures var r := Remainder(Dividend(data));
      Checksum(data) < TWO32 && forall i: nat | i < 32 :: Checksum(data) / Pow2(i) % 2 == 1 <==> !r[i]
  {
    hide Value, Complement, FeedAll, Stream, Remainder, Dividend, MessageBit;
    var r, c := Remainder(Dividend(data)), FeedAll(Ones(), Stream(data));
    RegisterIsRemainder(Ones(), Stream(data));
    DividendIsStream(data);
    forall i: nat | i < 32 ensures Checksum(data) / Pow2(i) % 2 == 1 <==> !r[i] {
      ChecksumValue(data);
      ValueBit(Complement(c), i);
      ComplementBit(c, i);
    }
  }

  lemma ChecksumValue(data: seq<byte>)
    ensures Checksum(data) == Value(Complement(FeedAll(Ones(), Stream(data))))
  {
    hide Value, Complement, FeedAll, Stream;
  }

  lemma ComplementBit(c: Word, i: nat)
    requires i < 32
    ensures Complement(c)[i] == !c[i]
  {
  }

  /** The dividend whose remainder a register in state c is about to find. */
  function Ahead(c: Word, bits: seq<bool>): (p: seq<bool>)
    ensures |p| == |bits| + 32
  {
    seq(|bits| + 32, i requires 0 <= i < |bits| + 32 => (i < |bits| && bits[i]) != (i < 32 && c[i]))
  }

  lemma {:induction false} RegisterIsRemainder(c: Word, bits: seq<bool>)
    ensures FeedAll(c, bits) == Remainder(Ahead(c, bits))
    decreases |bits|
  {
    hide Feed, Ahead, Cancel;
    if |bits| == 0 {
      AheadEmpty(c);
    } else {
      FeedCancels(c, bits);
      RegisterIsRemainder(Feed(c, bits[0]), bits[1..]);
    }
  }

  lemma AheadEmpty(c: Word)
    ensures Ahead(c, []) == c
  {
  }

  /** One step of the register cancels the highest power. */
  lemma FeedCancels(c: Word, bits: seq<bool>)
    requires |bits| > 0
    ensures Cancel(Ahead(c, bits)) == Ahead(Feed(c, bits[0]), bits[1..])
  {
    var p, d := Ahead(c, bits), Feed(c, bits[0]);
    var q := Ahead(d, bits[1..]);
    forall i | 0 <= i < |q| ensures Cancel(p)[i] == q[i] {
      CancelBit(p, i);
      if i < 32 { FeedBit(c, bits[0], i); }
    }
  }

  lemma CancelBit(p: seq<bool>, i: nat)
    requires |p| > 32 && i < |p| - 1
    ensures Cancel(p)[i] == (p[i + 1] != (p[0] && i < 32 && IsTerm(31 - i)))
  {
    hide IsTerm;
    if p[0] { assert Sum(p, Generator())[1..][i] == Sum(p, Generator())[i + 1]; }
  }

  lemma FeedBit(c: Word, x: bool, i: nat)
    requires i < 32
    ensures Feed(c, x)[i] == ((i < 31 && c[i + 1]) != ((c[0] != x) && IsTerm(31 - i)))
  {
    hide IsTerm;
  }

  lemma DividendIsStream(data: seq<byte>)
    ensures Ahead(Ones(), Stream(data)) == Dividend(data)
  {
    hide Stream, MessageBit;
    forall j | 0 <= j < 8 * |data| ensures Stream(data)[j] == MessageBit(data, j) { StreamBit(data, j); }
    var a, d := Ahead(Ones(), Stream(data)), Dividend(data);
    forall j | 0 <= j < |d| ensures a[j] == d[j] {}
  }

  lemma {:induction false} StreamBit(data: seq<byte>, j: nat)
    requires j < 8 * |data|
    ensures Stream(data)[j] == MessageBit(data, j)
  {
    hide Bits;
    if j < 8 {
      BitOf(data[0], 8, j);
    } else {
      StreamBit(data[1..], j - 8);
      assert (j - 8) / 8 == j / 8 - 1 && (j - 8) % 8 == j % 8;
    }
  }

  /** A binary digit, by division. */
  lemma {:induction false} BitOf(v: nat, n: nat, i: nat)
    requires i < n
    ensures Bits(v, n)[i] <==> v / Pow2(i) % 2 == 1
  {
    if i > 0 {
      BitOf(v / 2, n - 1, i - 1);
      DivTwice(v, 2, Pow2(i - 1));
    }
  }

  lemma {:induction false} ValueBit(bits: seq<bool>, i: nat)
    requires i < |bits|
    ensures Value(bits) / Pow2(i) % 2 == 1 <==> bits[i]
  {
    if i > 0 {
      ValueBit(bits[1..], i - 1);
      DivTwice(Value(bits), 2, Pow2(i - 1));
      assert Value(bits) / 2 == Value(bits[1..]);
    }
  }
}
