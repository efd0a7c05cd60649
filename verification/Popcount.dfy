/** 64-bit words of the Bloom filter: single bits, and the bit-parallel popcount.
    Every word operation has a name, so that proofs can treat it as a unit. */
module Popcount {

  type Word = bv64

  const WORD_BITS := 64

  function Half(w: Word): Word { w >> 1 }

  predicate Odd(w: Word) { w & 1 == 1 }

  function Or(v: Word, w: Word): Word { v | w }

  // ---- Single bits ----

  /** 1 << j. */
  function Mask(j: nat): Word {
    if j == 0 then 1 else Twice(Mask(j - 1))
  }

  function Twice(w: Word): Word { w << 1 }

  /** The code's test `w & (1 << j) != 0`. */
  predicate Meets(w: Word, m: Word) { w & m != 0 }

  /** Bit j of w, counting from the least significant. */
  predicate BitAt(w: Word, j: nat) {
    if j == 0 then Odd(w) else BitAt(Half(w), j - 1)
  }

  lemma MeetsTwice(w: Word, m: Word)
    ensures Meets(w, Twice(m)) <==> Meets(Half(w), m)
  {
  }

  lemma MeetsOne(w: Word)
    ensures Meets(w, 1) <==> Odd(w)
  {
    var low := w & 1;
    assert low == 0 || low == 1;
  }

  lemma {:induction false} TestBit(w: Word, j: nat)
    ensures Meets(w, Mask(j)) <==> BitAt(w, j)
    decreases j
  {
    hide Half, Odd, Twice, Meets;
    if j > 0 {
      TestBit(Half(w), j - 1);
      MeetsTwice(w, Mask(j - 1));
    } else {
      MeetsOne(w);
    }
  }

  lemma OrHalf(v: Word, w: Word)
    ensures Half(Or(v, w)) == Or(Half(v), Half(w))
  {
  }

  lemma OrOdd(v: Word, w: Word)
    ensures Odd(Or(v, w)) <==> Odd(v) || Odd(w)
  {
    assert (v | w) & 1 == (v & 1) | (w & 1);
    assert v & 1 == 0 || v & 1 == 1;
    assert w & 1 == 0 || w & 1 == 1;
  }

  lemma {:induction false} OrBit(v: Word, w: Word, j: nat)
    ensures BitAt(Or(v, w), j) <==> BitAt(v, j) || BitAt(w, j)
    decreases j
  {
    hide Half, Odd, Or;
    OrHalf(v, w);
    OrOdd(v, w);
    if j > 0 {
      OrBit(Half(v), Half(w), j - 1);
    }
  }

  lemma HalfSmall()
    ensures Half(0) == 0 && Half(1) == 0 && !Odd(0) && Odd(1)
  {
  }

  lemma {:induction false} ZeroBit(j: nat)
    ensures !BitAt(0, j)
  {
    hide Half, Odd;
    HalfSmall();
    if j > 0 { ZeroBit(j - 1); }
  }

  lemma MaskTop()
    ensures Mask(63) == 0x8000_0000_0000_0000
  {
    assert Mask(8) == 0x100 && Mask(16) == 0x1_0000 && Mask(24) == 0x100_0000 && Mask(32) == 0x1_0000_0000;
    assert Mask(40) == 0x100_0000_0000 && Mask(48) == 0x1_0000_0000_0000 && Mask(56) == 0x100_0000_0000_0000;
  }

  /** At most one bit is set. */
  predicate Single(m: Word) {
    m & (m - 1) == 0
  }

  lemma SingleTwice(m: Word)
    requires Single(m)
    ensures Single(Twice(m)) && !Odd(Twice(m))
    ensures Twice(m) == 0 || Half(Twice(m)) == m
  {
  }

  lemma SingleOne()
    ensures Single(1) && Twice(0) == 0
  {
  }

  lemma {:induction false} MaskSingle(j: nat)
    ensures Single(Mask(j))
  {
    hide Single, Twice;
    SingleOne();
    if j > 0 {
      MaskSingle(j - 1);
      SingleTwice(Mask(j - 1));
    }
  }

  lemma {:induction false} MaskZeroStays(j: nat, k: nat)
    requires j <= k && Mask(j) == 0
    ensures Mask(k) == 0
  {
    hide Twice;
    SingleOne();
    if j < k {
      MaskZeroStays(j, k - 1);
    }
  }

  lemma MaskNonZero(j: nat)
    requires j < WORD_BITS
    ensures Mask(j) != 0
  {
    hide Twice;
    MaskTop();
    if Mask(j) == 0 {
      MaskZeroStays(j, 63);
    }
  }

  lemma MaskHalf(j: nat)
    requires 1 <= j < WORD_BITS
    ensures Half(Mask(j)) == Mask(j - 1) && !Odd(Mask(j))
  {
    hide Half, Odd, Twice, Single;
    MaskSingle(j - 1);
    SingleTwice(Mask(j - 1));
    MaskNonZero(j);
  }

  lemma {:induction false} MaskBit(i: nat, j: nat)
    requires i < WORD_BITS
    ensures BitAt(Mask(i), j) <==> i == j
  {
    hide Half, Odd, Twice;
    HalfSmall();
    if i > 0 {
      MaskHalf(i);
      if j > 0 {
        MaskBit(i - 1, j - 1);
      }
    } else if j > 0 {
      ZeroBit(j - 1);
    }
  }

  /** Or-ing in a mask sets exactly that bit. */
  lemma SetBit(w: Word, i: nat, j: nat)
    requires i < WORD_BITS
    ensures BitAt(Or(w, Mask(i)), j) <==> BitAt(w, j) || i == j
  {
    hide Or, BitAt, Mask;
    OrBit(w, Mask(i), j);
    MaskBit(i, j);
  }

  // ---- Counting bits ----

  function Count(w: Word, n: nat): (c: nat)
    ensures c <= n
  {
    if n == 0 then 0 else (if Odd(w) then 1 else 0) + Count(Half(w), n - 1)
  }

  /** The number of set bits among the lowest n, by position. */
  function CountBits(w: Word, n: nat): nat {
    if n == 0 then 0 else CountBits(w, n - 1) + if BitAt(w, n - 1) then 1 else 0
  }

  lemma {:induction false} CountShift(w: Word, n: nat)
    ensures CountBits(w, n + 1) == (if Odd(w) then 1 else 0) + CountBits(Half(w), n)
  {
    hide Half, Odd;
    if n > 0 {
      CountShift(w, n - 1);
    } else {
      assert CountBits(w, 1) == CountBits(w, 0) + if BitAt(w, 0) then 1 else 0;
    }
  }

  lemma {:induction false} CountByPosition(w: Word, n: nat)
    ensures Count(w, n) == CountBits(w, n)
    decreases n
  {
    hide Half, Odd;
    if n > 0 {
      CountByPosition(Half(w), n - 1);
      CountShift(w, n - 1);
    }
  }

  // ---- popcount: the three masked sums and the multiplication ----

  function Pairs(x: Word): Word { x - ((x >> 1) & 0x5555555555555555) }

  function Nibbles(x: Word): Word { (x & 0x3333333333333333) + ((x >> 2) & 0x3333333333333333) }

  function Octets(x: Word): Word { (x + (x >> 4)) & 0x0f0f0f0f0f0f0f0f }

  function Product(x: Word): Word { x * 0x0101010101010101 }

  function TopByte(x: Word): Word { x >> 56 }

  method PopCount(w: Word) returns (c: int)
    ensures c == CountBits(w, WORD_BITS)
  {
    hide TopByte, Product, Octets, Nibbles, Pairs, CountBits, Count;
    var x := w;
    x := Pairs(x);
    x := Nibbles(x);
    x := Octets(x);
    c := TopByte(Product(x)) as int;
    PopCountIsCount(w);
    CountByPosition(w, WORD_BITS);
  }

  // The fields of a word as numbers, and the sum of its n lowest fields.

  function Field2(x: Word): nat { (x & 3) as int }

  function Field4(x: Word): nat { (x & 15) as int }

  function Field8(x: Word): nat { (x & 0xff) as int }

  function Drop2(x: Word): Word { x >> 2 }

  function Drop4(x: Word): Word { x >> 4 }

  function Drop8(x: Word): Word { x >> 8 }

  function Sum2(x: Word, n: nat): nat {
    if n == 0 then 0 else Field2(x) + Sum2(Drop2(x), n - 1)
  }

  function Sum4(x: Word, n: nat): nat {
    if n == 0 then 0 else Field4(x) + Sum4(Drop4(x), n - 1)
  }

  function Sum8(x: Word, n: nat): nat {
    if n == 0 then 0 else Field8(x) + Sum8(Drop8(x), n - 1)
  }

  function Plus(v: Word, w: Word): Word { v + w }

  function Pred(w: Word): Word { w - 1 }

  lemma Increment(w: Word)
    requires w <= 200
    ensures Plus(w, 1) as int == w as int + 1
  {
  }

  lemma PlusZero(w: Word)
    ensures Plus(w, 0) == w
  {
  }

  lemma Decrement(p: Word, q: Word)
    requires p <= 120 && 0 < q <= 15
    ensures Plus(p, q) == Plus(Plus(p, Pred(q)), 1) && Plus(p, Pred(q)) <= 200
    ensures Plus(Pred(q), 1) == q && Pred(q) <= 15 && Pred(q) < q
  {
  }

  lemma {:induction false} AddSmall(p: Word, q: Word)
    requires p <= 120 && q <= 15
    ensures Plus(p, q) as int == p as int + q as int
    decreases q
  {
    hide Plus, Pred;
    if q == 0 {
      PlusZero(p);
    } else {
      Decrement(p, q);
      AddSmall(p, Pred(q));
      Increment(Plus(p, Pred(q)));
      Increment(Pred(q));
    }
  }

  // Each stage adds neighbouring fields, without carries between the results.

  function SumPairs(x: Word): Word { (x & 0x5555555555555555) + ((x >> 1) & 0x5555555555555555) }

  lemma PairsAreSums(x: Word)
    ensures Pairs(x) == SumPairs(x)
  {
  }

  lemma PairsLow(x: Word)
    ensures SumPairs(x) & 3 == (x & 1) + ((x >> 1) & 1)
    ensures SumPairs(x) >> 2 == SumPairs(x >> 2) && (x >> 1) >> 1 == x >> 2
    ensures x & 1 <= 1 && (x >> 1) & 1 <= 1
  {
  }

  lemma BitValue(x: Word)
    ensures (x & 1) as int == if Odd(x) then 1 else 0
  {
    assert x & 1 == 0 || x & 1 == 1;
  }

  lemma PairStep(x: Word)
    ensures Field2(SumPairs(x)) == (if Odd(x) then 1 else 0) + (if Odd(Half(x)) then 1 else 0)
    ensures Drop2(SumPairs(x)) == SumPairs(Half(Half(x)))
  {
    hide SumPairs, Odd;
    PairsLow(x);
    AddSmall(x & 1, (x >> 1) & 1);
    BitValue(x);
    BitValue(x >> 1);
  }

  lemma NibblesLow(x: Word)
    ensures Nibbles(x) & 15 == (x & 3) + ((x >> 2) & 3)
    ensures Nibbles(x) >> 4 == Nibbles(x >> 4) && (x >> 2) >> 2 == x >> 4
    ensures x & 3 <= 3 && (x >> 2) & 3 <= 3
  {
  }

  lemma NibbleStep(x: Word)
    ensures Field4(Nibbles(x)) == Field2(x) + Field2(Drop2(x))
    ensures Drop4(Nibbles(x)) == Nibbles(Drop2(Drop2(x)))
  {
    hide Nibbles;
    NibblesLow(x);
    AddSmall(x & 3, (x >> 2) & 3);
  }

  predicate SmallNibbles(x: Word) { x & 0x7777777777777777 == x }

  predicate SmallBytes(x: Word) { x & 0x0f0f0f0f0f0f0f0f == x }

  lemma NibblesSmall(x: Word)
    ensures SmallNibbles(Nibbles(x)) && SmallBytes(Octets(x))
  {
  }

  lemma OctetsLow(x: Word)
    requires SmallNibbles(x)
    ensures Octets(x) & 0xff == (x & 15) + ((x >> 4) & 15)
    ensures Octets(x) >> 8 == Octets(x >> 8) && (x >> 4) >> 4 == x >> 8 && SmallNibbles(x >> 8)
    ensures x & 15 <= 15 && (x >> 4) & 15 <= 15
  {
  }

  lemma OctetStep(x: Word)
    requires SmallNibbles(x)
    ensures Field8(Octets(x)) == Field4(x) + Field4(Drop4(x))
    ensures Drop8(Octets(x)) == Octets(Drop4(Drop4(x))) && SmallNibbles(Drop4(Drop4(x)))
  {
    hide Octets, SmallNibbles;
    OctetsLow(x);
    AddSmall(x & 15, (x >> 4) & 15);
  }

  lemma {:induction false} PairsCount(x: Word, n: nat)
    ensures Sum2(SumPairs(x), n) == Count(x, 2 * n)
    decreases n
  {
    hide SumPairs, Field2, Drop2, Half, Odd;
    if n > 0 {
      PairStep(x);
      PairsCount(Half(Half(x)), n - 1);
      assert Count(x, 2 * n) == (if Odd(x) then 1 else 0) + Count(Half(x), 2 * n - 1);
    }
  }

  lemma {:induction false} NibblesCount(x: Word, n: nat)
    ensures Sum4(Nibbles(x), n) == Sum2(x, 2 * n)
    decreases n
  {
    hide Nibbles, Field2, Field4, Drop2, Drop4;
    if n > 0 {
      NibbleStep(x);
      NibblesCount(Drop2(Drop2(x)), n - 1);
      assert Sum2(x, 2 * n) == Field2(x) + Sum2(Drop2(x), 2 * n - 1);
    }
  }

  lemma {:induction false} OctetsCount(x: Word, n: nat)
    requires SmallNibbles(x)
    ensures Sum8(Octets(x), n) == Sum4(x, 2 * n)
    decreases n
  {
    hide Octets, Field4, Field8, Drop4, Drop8, SmallNibbles;
    if n > 0 {
      OctetStep(x);
      OctetsCount(Drop4(Drop4(x)), n - 1);
      assert Sum4(x, 2 * n) == Field4(x) + Sum4(Drop4(x), 2 * n - 1);
    }
  }

  // The multiplication adds all bytes into the top one.

  /** x without its k low bytes. */
  function Shifted(x: Word, k: nat): Word
    requires k < 8
  {
    match k
    case 0 => x
    case 1 => x >> 8
    case 2 => x >> 16
    case 3 => x >> 24
    case 4 => x >> 32
    case 5 => x >> 40
    case 6 => x >> 48
    case _ => x >> 56
  }

  lemma ShiftedStep(x: Word, k: nat)
    requires k < 7
    ensures Drop8(Shifted(x, k)) == Shifted(x, k + 1)
  {
    hide Drop8, Shifted;
    match k {
      case 0 => ShiftedStep0(x);
      case 1 => ShiftedStep1(x);
      case 2 => ShiftedStep2(x);
      case 3 => ShiftedStep3(x);
      case 4 => ShiftedStep4(x);
      case 5 => ShiftedStep5(x);
      case _ => ShiftedStep6(x);
    }
  }

  lemma ShiftedStep0(x: Word)
    ensures Drop8(Shifted(x, 0)) == Shifted(x, 1)
  {
  }

  lemma ShiftedStep1(x: Word)
    ensures Drop8(Shifted(x, 1)) == Shifted(x, 2)
  {
  }

  lemma ShiftedStep2(x: Word)
    ensures Drop8(Shifted(x, 2)) == Shifted(x, 3)
  {
  }

  lemma ShiftedStep3(x: Word)
    ensures Drop8(Shifted(x, 3)) == Shifted(x, 4)
  {
  }

  lemma ShiftedStep4(x: Word)
    ensures Drop8(Shifted(x, 4)) == Shifted(x, 5)
  {
  }

  lemma ShiftedStep5(x: Word)
    ensures Drop8(Shifted(x, 5)) == Shifted(x, 6)
  {
  }

  lemma ShiftedStep6(x: Word)
    ensures Drop8(Shifted(x, 6)) == Shifted(x, 7)
  {
  }

  lemma ShiftedZero(x: Word)
    ensures Shifted(x, 0) == x
  {
  }

  /** Byte k of x. */
  function Lane(x: Word, k: nat): nat
    requires k < 8
  {
    Field8(Shifted(x, k))
  }

  lemma SumStep(x: Word, k: nat, n: nat)
    requires k < 7
    ensures Sum8(Shifted(x, k), n + 1) == Lane(x, k) + Sum8(Shifted(x, k + 1), n)
  {
    hide Drop8, Shifted, Field8;
    ShiftedStep(x, k);
  }

  lemma SumOfLanes(x: Word)
    ensures Sum8(x, 8) ==
      Lane(x, 0) + Lane(x, 1) + Lane(x, 2) + Lane(x, 3) + Lane(x, 4) + Lane(x, 5) + Lane(x, 6) + Lane(x, 7)
  {
    hide Sum8, Lane, Shifted;
    ShiftedZero(x);
    SumStep(x, 0, 7);
    SumStep(x, 1, 6);
    SumStep(x, 2, 5);
    SumStep(x, 3, 4);
    SumStep(x, 4, 3);
    SumStep(x, 5, 2);
    SumStep(x, 6, 1);
    SumLast(x);
  }

  lemma SumLast(x: Word)
    ensures Sum8(Shifted(x, 7), 1) == Lane(x, 7)
  {
    hide Shifted, Field8, Drop8;
    assert Sum8(Shifted(x, 7), 1) == Field8(Shifted(x, 7)) + Sum8(Drop8(Shifted(x, 7)), 0);
  }

  /** The product y of x and 0x01...01 satisfies y = x + 256 y modulo 2^64, so that each of
      its bytes is the byte below plus the byte of x. */
  predicate Horner(x: Word, y: Word) {
    y == x + (y << 8)
  }

  /** What byte k of the product can be at most. */
  function Bound(k: nat): Word
    requires k < 8
  {
    match k
    case 0 => 15
    case 1 => 30
    case 2 => 45
    case 3 => 60
    case 4 => 75
    case 5 => 90
    case 6 => 105
    case _ => 120
  }

  function Byte(x: Word, k: nat): Word
    requires k < 8
  {
    Shifted(x, k) & 0xff
  }

  predicate Bounded(y: Word, k: nat)
    requires k < 8
  {
    Byte(y, k) <= Bound(k)
  }

  /** Byte k of the product is the byte below plus byte k of x, without a carry. */
  predicate Carries(x: Word, y: Word, k: nat)
    requires 0 < k < 8
  {
    && Byte(y, k) == Plus(Byte(y, k - 1), Byte(x, k)) && Bounded(y, k)
    && Byte(y, k - 1) <= 120 && Byte(x, k) <= 15
  }

  lemma Carry0(x: Word, y: Word)
    requires SmallBytes(x) && Horner(x, y)
    ensures Byte(y, 0) == Byte(x, 0) && Bounded(y, 0)
  {
  }

  lemma Carry1(x: Word, y: Word)
    requires SmallBytes(x) && Horner(x, y) && Bounded(y, 0)
    ensures Carries(x, y, 1)
  {
  }

  lemma Carry2(x: Word, y: Word)
    requires SmallBytes(x) && Horner(x, y) && Bounded(y, 1)
    ensures Carries(x, y, 2)
  {
  }

  lemma Carry3(x: Word, y: Word)
    requires SmallBytes(x) && Horner(x, y) && Bounded(y, 2)
    ensures Carries(x, y, 3)
  {
  }

  lemma Carry4(x: Word, y: Word)
    requires SmallBytes(x) && Horner(x, y) && Bounded(y, 3)
    ensures Carries(x, y, 4)
  {
  }

  lemma Carry5(x: Word, y: Word)
    requires SmallBytes(x) && Horner(x, y) && Bounded(y, 4)
    ensures Carries(x, y, 5)
  {
  }

  lemma Carry6(x: Word, y: Word)
    requires SmallBytes(x) && Horner(x, y) && Bounded(y, 5)
    ensures Carries(x, y, 6)
  {
  }

  lemma Carry7(x: Word, y: Word)
    requires SmallBytes(x) && Horner(x, y) && Bounded(y, 6)
    ensures Carries(x, y, 7)
  {
  }

  lemma Carry(x: Word, y: Word, k: nat)
    requires 0 < k < 8 && SmallBytes(x) && Horner(x, y) && Bounded(y, k - 1)
    ensures Carries(x, y, k)
  {
    hide SmallBytes, Horner, Bounded, Carries;
    match k {
      case 1 => Carry1(x, y);
      case 2 => Carry2(x, y);
      case 3 => Carry3(x, y);
      case 4 => Carry4(x, y);
      case 5 => Carry5(x, y);
      case 6 => Carry6(x, y);
      case _ => Carry7(x, y);
    }
  }

  lemma LaneIsByte(x: Word, k: nat)
    requires k < 8
    ensures Lane(x, k) == Byte(x, k) as int
  {
    hide Shifted;
  }

  lemma CarryLane(x: Word, y: Word, k: nat)
    requires 0 < k < 8 && SmallBytes(x) && Horner(x, y) && Bounded(y, k - 1)
    ensures Lane(y, k) == Lane(y, k - 1) + Lane(x, k) && Bounded(y, k)
  {
    hide SmallBytes, Horner, Bounded, Byte, Lane, Plus;
    Carry(x, y, k);
    LaneIsByte(y, k);
    LaneIsByte(y, k - 1);
    LaneIsByte(x, k);
    AddSmall(Byte(y, k - 1), Byte(x, k));
  }

  lemma HornerLanes(x: Word, y: Word)
    requires SmallBytes(x) && Horner(x, y)
    ensures TopByte(y) as int == Sum8(x, 8)
  {
    hide TopByte, SmallBytes, Horner, Sum8, Bounded, Byte, Lane;
    Carry0(x, y);
    LaneIsByte(x, 0);
    LaneIsByte(y, 0);
    CarryLane(x, y, 1);
    CarryLane(x, y, 2);
    CarryLane(x, y, 3);
    CarryLane(x, y, 4);
    CarryLane(x, y, 5);
    CarryLane(x, y, 6);
    CarryLane(x, y, 7);
    SumOfLanes(x);
    TopLane(y);
  }

  lemma TopLane(y: Word)
    ensures TopByte(y) as int == Lane(y, 7)
  {
    assert (y >> 56) & 0xff == y >> 56;
  }

  lemma ProductHorner(x: Word)
    ensures Horner(x, Product(x))
  {
    assert Horner(x, x * 0x0101010101010101);
  }

  lemma ProductAddsLanes(x: Word)
    requires SmallBytes(x)
    ensures TopByte(Product(x)) as int == Sum8(x, 8)
  {
    hide SmallBytes, Sum8, Horner, TopByte, Product;
    ProductHorner(x);
    HornerLanes(x, Product(x));
  }

  /** The bit-parallel popcount is the number of set bits, for every word. */
  lemma PopCountIsCount(w: Word)
    ensures TopByte(Product(Octets(Nibbles(Pairs(w))))) as int == Count(w, WORD_BITS)
  {
    hide TopByte, Product, Octets, Nibbles, Pairs, SumPairs, Sum2, Sum4, Sum8, Count, SmallBytes, SmallNibbles;
    PairsAreSums(w);
    NibblesSmall(Pairs(w));
    NibblesSmall(Nibbles(Pairs(w)));
    ProductAddsLanes(Octets(Nibbles(Pairs(w))));
    OctetsCount(Nibbles(Pairs(w)), 8);
    NibblesCount(Pairs(w), 16);
    PairsCount(w, 32);
  }
}
