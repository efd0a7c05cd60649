/** Bytes, fixed-width big-endian integers and the wrappers shared by every module. */
module Bytes {

  type byte = b: int | 0 <= b < 256

  datatype Option<+T> = None | Some(value: T)

  datatype Result<+T, +E> = Ok(value: T) | Err(error: E)

  const TWO32: int := 0x1_0000_0000
  const TWO63: int := 0x8000_0000_0000_0000
  const TWO64: int := 0x1_0000_0000_0000_0000

  function Pow2(n: nat): (p: nat)
    ensures p > 0
  {
    if n == 0 then 1 else 2 * Pow2(n - 1)
  }

  /** 256 to the power n: the number of values n bytes can hold. */
  function Pow256(n: nat): (p: nat)
    ensures p > 0
  {
    if n == 0 then 1 else 256 * Pow256(n - 1)
  }

  lemma Pow256Widths()
    ensures Pow256(1) == 256 && Pow256(4) == TWO32 && Pow256(8) == TWO64
  {
    assert Pow256(2) == 65536 && Pow256(3) == 0x100_0000 && Pow256(4) == TWO32;
    assert Pow256(5) == 256 * TWO32 && Pow256(6) == 65536 * TWO32 && Pow256(7) == 0x100_0000 * TWO32;
  }

  /** The low n bytes of v, most significant first; v is truncated to n bytes. */
  function PutBE(v: nat, n: nat): (s: seq<byte>)
    ensures |s| == n
  {
    if n == 0 then [] else PutBE(v / 256, n - 1) + [v % 256]
  }

  /** The unsigned big-endian value of s. */
  function GetBE(s: seq<byte>): (v: nat)
    ensures v < Pow256(|s|)
  {
    if |s| == 0 then 0 else 256 * GetBE(s[..|s| - 1]) + s[|s| - 1]
  }

  lemma {:induction false} GetPutBE(v: nat, n: nat)
    requires v < Pow256(n)
    ensures GetBE(PutBE(v, n)) == v
  {
    if n > 0 {
      GetPutBE(v / 256, n - 1);
      assert PutBE(v, n)[..n - 1] == PutBE(v / 256, n - 1);
    }
  }

  lemma {:induction false} PutGetBE(s: seq<byte>)
    ensures PutBE(GetBE(s), |s|) == s
  {
    if |s| > 0 {
      PutGetBE(s[..|s| - 1]);
      assert s == s[..|s| - 1] + [s[|s| - 1]];
    }
  }

  /** Two byte strings of one width with the same value are the same string. */
  lemma GetBEInjective(s: seq<byte>, t: seq<byte>)
    requires |s| == |t| && GetBE(s) == GetBE(t)
    ensures s == t
  {
    PutGetBE(s);
    PutGetBE(t);
  }

  lemma SubSlice<T>(s: seq<T>, a: nat, b: nat, c: nat, d: nat)
    requires a <= b <= |s| && c <= d <= b - a
    ensures s[a..b][c..d] == s[a + c..a + d]
  {
    forall i | 0 <= i < d - c ensures s[a..b][c..d][i] == s[a + c..a + d][i] {
      assert s[a..b][c + i] == s[a + c + i];
    }
  }

  /** b is found in data at pos. */
  predicate At(data: seq<byte>, pos: nat, b: seq<byte>) {
    pos + |b| <= |data| && data[pos..pos + |b|] == b
  }

  lemma AtSplit(data: seq<byte>, pos: nat, a: seq<byte>, b: seq<byte>)
    requires At(data, pos, a + b)
    ensures At(data, pos, a) && At(data, pos + |a|, b)
  {
    var s := data[pos..pos + |a| + |b|];
    assert s[..|a|] == a && s[|a|..] == b;
    SubSlice(data, pos, pos + |a| + |b|, 0, |a|);
    SubSlice(data, pos, pos + |a| + |b|, |a|, |a| + |b|);
  }

  lemma AtBound(data: seq<byte>, pos: nat, b: seq<byte>)
    requires At(data, pos, b)
    ensures pos + |b| <= |data|
  {
  }

  /** The conversions uint64(v) and int64(u). */
  function ToUint64(v: int): (u: nat)
    ensures u < TWO64
  {
    v % TWO64
  }

  function ToInt64(u: nat): int {
    if u < TWO63 then u else u - TWO64
  }

  predicate IsInt64(v: int) {
    -TWO63 <= v < TWO63
  }

  lemma Int64RoundTrip(v: int)
    requires IsInt64(v)
    ensures ToInt64(ToUint64(v)) == v
  {
  }

  // ---- What the encodings are ----

  /** A quotient and a remainder are the ones that fit. */
  lemma DivModIs(v: nat, m: nat, q: nat, r: nat)
    requires m > 0 && v == q * m + r && r < m
    ensures v / m == q && v % m == r
  {
    var d := v / m - q;
    assert v == v / m * m + v % m;
    assert d * m == r - v % m;
    assert d >= 1 ==> d * m >= m;
    assert d <= -1 ==> d * m <= 0 - m;
  }

  /** Dividing in two steps: the quotient, and the remainder put together. */
  lemma DivTwice(v: nat, a: nat, p: nat)
    requires a > 0 && p > 0
    ensures a * p > 0 && v / (a * p) == v / a / p && v % (a * p) == a * (v / a % p) + v % a
  {
    Euclid(v, a);
    Euclid(v / a, p);
    Regroup(v, v / a, v % a, v / a / p, v / a % p, a, p);
  }

  lemma Euclid(v: nat, m: nat)
    requires m > 0
    ensures v == v / m * m + v % m
  {
  }

  lemma Regroup(v: nat, u: nat, low: nat, q: nat, r: nat, a: nat, p: nat)
    requires v == u * a + low && u == q * p + r && low < a && r < p
    ensures a * p > 0 && v / (a * p) == q && v % (a * p) == a * r + low
  {
    Products(u, q, p, r, a);
    Fits(a, r, p, low);
    DivModIs(v, a * p, q, a * r + low);
  }

  lemma Products(u: nat, q: nat, p: nat, r: nat, a: nat)
    requires u == q * p + r
    ensures u * a == q * (a * p) + a * r
  {
    assert u * a == q * p * a + r * a;
  }

  lemma Fits(a: nat, r: nat, p: nat, low: nat)
    requires r < p && low < a
    ensures 0 <= a * r + low < a * p
  {
    assert a * r + a == a * (r + 1) <= a * p;
  }

  /** The byte at i is the digit of weight 256^(n-1-i): the most significant byte comes first. */
  lemma {:induction false} PutBEDigit(v: nat, n: nat, i: nat)
    requires i < n
    ensures PutBE(v, n)[i] == v / Pow256(n - 1 - i) % 256
    decreases n
  {
    if i < n - 1 {
      PutBEDigit(v / 256, n - 1, i);
      DivTwice(v, 256, Pow256(n - 2 - i));
    }
  }

  /** Only the low n bytes count. */
  lemma {:induction false} PutBETruncates(v: nat, n: nat)
    ensures PutBE(v % Pow256(n), n) == PutBE(v, n)
  {
    if n > 0 {
      DivTwice(v, 256, Pow256(n - 1));
      PutBETruncates(v / 256, n - 1);
    }
  }

  /** Both conversions keep the value modulo 2^64, the second one into the signed range. */
  lemma ConversionsWrap(v: int, u: nat)
    requires u < TWO64
    ensures (ToUint64(v) - v) % TWO64 == 0
    ensures IsInt64(ToInt64(u)) && (ToInt64(u) - u) % TWO64 == 0
  {
    assert v == TWO64 * (v / TWO64) + v % TWO64;
    assert ToUint64(v) - v == TWO64 * (-(v / TWO64));
    Multiples(-(v / TWO64));
  }

  lemma Multiples(q: int)
    ensures TWO64 * q % TWO64 == 0
  {
  }
}
