/** What the Bloom filter promises over whole histories. */
module BloomLaws {
  import opened Bytes
  import opened Order
  import opened Popcount
  import opened Bloom
  import opened BloomFormat

  type Hash = Key -> (nat, nat)

  // ---- Setting positions ----

  /** The cell of a position: word and bit. */
  lemma SamePosition(p: nat, q: nat)
    ensures p == q <==> p / 64 == q / 64 && p % 64 == q % 64
  {
  }

  lemma SetPositionSets(bits: seq<Word>, pos: nat, q: nat)
    requires pos / 64 < |bits|
    ensures IsSet(SetPosition(bits, pos), q) <==> IsSet(bits, q) || q == pos
  {
    hide BitAt, Or, Mask;
    SamePosition(pos, q);
    if q / 64 == pos / 64 {
      SetBit(bits[pos / 64], pos % 64, q % 64);
    }
  }

  lemma {:induction false} SetHashesSets(bits: seq<Word>, h: (nat, nat), m: nat, c: nat, q: nat)
    requires 0 < m <= TWO64 - 64 && |bits| == Words(m)
    ensures IsSet(SetHashes(bits, h, m, c), q) <==> IsSet(bits, q) || exists i: nat :: i < c && Position(h, i, m) == q
    decreases c
  {
    hide IsSet, SetPosition, Position;
    if c > 0 {
      var pos := Position(h, c - 1, m);
      WordIndex(pos, m);
      SetHashesSets(bits, h, m, c - 1, q);
      SetPositionSets(SetHashes(bits, h, m, c - 1), pos, q);
      if exists i: nat :: i < c && Position(h, i, m) == q {
        var i: nat :| i < c && Position(h, i, m) == q;
        assert i < c - 1 || i == c - 1;
      }
    }
  }

  lemma OrWordsSets(a: seq<Word>, b: seq<Word>, q: nat)
    requires |a| == |b|
    ensures IsSet(OrWords(a, b), q) <==> IsSet(a, q) || IsSet(b, q)
  {
    hide BitAt, Or;
    if q / 64 < |a| {
      OrBit(a[q / 64], b[q / 64], q % 64);
    }
  }

  lemma ZerosUnset(count: nat, q: nat)
    ensures !IsSet(Zeros(count), q)
  {
    hide BitAt;
    ZeroBit(q % 64);
  }

  // ---- Histories ----

  /** How a filter came about.  Union takes a snapshot of the other filter, and Restored is
      ReadFrom applied to what the other filter's WriteTo produced. */
  datatype History =
    | New(m: nat, k: nat)
    | Added(before: History, key: Key)
    | United(before: History, other: History)
    | Cleared(before: History)
    | Restored(before: History, other: History)

  predicate Sized(h: History) {
    match h
    case New(m, k) => 0 < m <= TWO64 - 64 && 0 < k < TWO64
    case Added(b, _) => Sized(b)
    case United(b, o) => Sized(b) && Sized(o)
    case Cleared(b) => Sized(b)
    case Restored(b, o) => Sized(b) && Sized(o)
  }

  function Build(hash: Hash, h: History): (s: State)
    requires Sized(h)
    ensures WellFormed(s)
  {
    match h
    case New(m, k) => Empty(m, k)
    case Added(b, key) => AddStep(Build(hash, b), hash(key))
    case United(b, o) => UnionStep(Build(hash, b), Build(hash, o)).0
    case Cleared(b) => var s := Build(hash, b); Empty(s.m, s.k)
    case Restored(b, o) =>
      SerializeRoundTrip(Build(hash, o), []);
      assert Serialize(Build(hash, o)) + [] == Serialize(Build(hash, o));
      var p := Parse(Serialize(Build(hash, o)));
      if p.Some? then p.value else Build(hash, b)
  }

  /** The m and k of the filter: ReadFrom takes them over up to 2^34 bits, and nothing else
      changes them. */
  function Shape(h: History): (shape: (nat, nat))
    requires Sized(h)
    ensures 0 < shape.0 <= TWO64 - 64 && 0 < shape.1 < TWO64
  {
    match h
    case New(m, k) => (m, k)
    case Added(b, _) => Shape(b)
    case United(b, _) => Shape(b)
    case Cleared(b) => Shape(b)
    case Restored(b, o) => if Shape(o).0 <= 64 * MAX_WORDS then Shape(o) else Shape(b)
  }

  /** The keys added to the filter or to one of its shape united into it, since the last Reset. */
  function Keys(h: History): set<Key>
    requires Sized(h)
  {
    match h
    case New(_, _) => {}
    case Added(b, key) => Keys(b) + {key}
    case United(b, o) => if Shape(b) == Shape(o) then Keys(b) + Keys(o) else Keys(b)
    case Cleared(_) => {}
    case Restored(b, o) => if Shape(o).0 <= 64 * MAX_WORDS then Keys(o) else Keys(b)
  }

  /** The words allocated for m bits hold them all, and none of them is to spare. */
  lemma WordsExact(m: nat)
    requires 0 < m <= TWO64 - 64
    ensures 64 * (Words(m) - 1) < m <= 64 * Words(m)
    ensures Words(m) <= MAX_WORDS <==> m <= 64 * MAX_WORDS
  {
  }

  lemma WellFormedStreams(s: State)
    requires WellFormed(s)
    ensures Streamable(s)
  {
  }

  lemma RestoredIs(hash: Hash, b: History, o: History)
    requires Sized(b) && Sized(o)
    ensures Build(hash, Restored(b, o)) ==
      if Words(Build(hash, o).m) <= MAX_WORDS then Build(hash, o) else Build(hash, b)
  {
    hide Parse, Serialize, WellFormed, AddStep, UnionStep, Streamable;
    WellFormedStreams(Build(hash, o));
    SerializeRoundTrip(Build(hash, o), []);
    assert Serialize(Build(hash, o)) + [] == Serialize(Build(hash, o));
  }

  lemma {:induction false} BuildShape(hash: Hash, h: History)
    requires Sized(h)
    ensures (Build(hash, h).m, Build(hash, h).k) == Shape(h)
  {
    hide Parse, Serialize, Words, SetHashes, OrWords;
    match h {
      case New(_, _) =>
      case Added(b, _) => BuildShape(hash, b);
      case United(b, _) => BuildShape(hash, b);
      case Cleared(b) => BuildShape(hash, b);
      case Restored(b, o) =>
        RestoredIs(hash, b, o);
        BuildShape(hash, b);
        BuildShape(hash, o);
        WordsExact(Shape(o).0);
    }
  }

  // ---- Which positions are set ----

  /** The arithmetic of a position: h1 + i * h2 in 64 bits, modulo m. */
  lemma PositionIs(h: (nat, nat), i: nat, m: nat)
    requires m > 0
    ensures Position(h, i, m) == (h.0 + i * h.1) % TWO64 % m
  {
    WrapAddRight(h.0, i * h.1);
  }

  lemma WrapAddRight(a: nat, b: nat)
    ensures (a + b % TWO64) % TWO64 == (a + b) % TWO64
  {
  }

  /** q is one of the k positions of a key with these hashes. */
  ghost predicate Hits(g: (nat, nat), shape: (nat, nat), q: nat)
    requires shape.0 > 0
  {
    exists j: nat :: j < shape.1 && Position(g, j, shape.0) == q
  }

  ghost predicate Covered(hash: Hash, h: History, q: nat)
    requires Sized(h)
  {
    exists x :: x in Keys(h) && Hits(hash(x), Shape(h), q)
  }

  lemma CoveredAdd(hash: Hash, b: History, key: Key, q: nat)
    requires Sized(b)
    ensures Covered(hash, Added(b, key), q) <==> Covered(hash, b, q) || Hits(hash(key), Shape(b), q)
  {
    hide Hits;
    assert key in Keys(Added(b, key));
    assert forall x | x in Keys(b) :: x in Keys(Added(b, key));
  }

  lemma CoveredUnion(hash: Hash, b: History, o: History, q: nat)
    requires Sized(b) && Sized(o)
    ensures Covered(hash, United(b, o), q) <==>
      Covered(hash, b, q) || (Shape(b) == Shape(o) && Covered(hash, o, q))
  {
    hide Hits;
    var h := United(b, o);
    assert forall x | x in Keys(b) :: x in Keys(h);
    assert Shape(b) == Shape(o) ==> forall x | x in Keys(o) :: x in Keys(h);
  }

  /** Over every history, the bits set are exactly the positions of the keys. */
  lemma {:induction false} BitsExact(hash: Hash, h: History, q: nat)
    requires Sized(h)
    ensures IsSet(Build(hash, h).bits, q) <==> Covered(hash, h, q)
  {
    hide IsSet, Position, SetHashes, OrWords, Zeros, Words, Covered;
    match h {
      case New(m, _) =>
        ZerosUnset(Words(m), q);
        NoneCovered(hash, h, q);
      case Cleared(b) =>
        ZerosUnset(Words(Build(hash, b).m), q);
        NoneCovered(hash, h, q);
      case Added(b, key) =>
        var s := Build(hash, b);
        BitsExact(hash, b, q);
        BuildShape(hash, b);
        SetHashesSets(s.bits, hash(key), s.m, s.k, q);
        assert Hits(hash(key), Shape(b), q) <==> exists j: nat :: j < s.k && Position(hash(key), j, s.m) == q;
        CoveredAdd(hash, b, key, q);
      case United(b, o) =>
        BitsExact(hash, b, q);
        BitsExact(hash, o, q);
        BuildShape(hash, b);
        BuildShape(hash, o);
        CoveredUnion(hash, b, o, q);
        if Shape(b) == Shape(o) {
          OrWordsSets(Build(hash, b).bits, Build(hash, o).bits, q);
        }
      case Restored(b, o) =>
        BitsExact(hash, b, q);
        BitsExact(hash, o, q);
        RestoredIs(hash, b, o);
        BuildShape(hash, o);
        WordsExact(Shape(o).0);
        CoveredRestored(hash, b, o, q);
    }
  }

  lemma NoneCovered(hash: Hash, h: History, q: nat)
    requires Sized(h) && (h.New? || h.Cleared?)
    ensures !Covered(hash, h, q)
  {
  }

  lemma CoveredRestored(hash: Hash, b: History, o: History, q: nat)
    requires Sized(b) && Sized(o)
    ensures Covered(hash, Restored(b, o), q) <==>
      if Shape(o).0 <= 64 * MAX_WORDS then Covered(hash, o, q) else Covered(hash, b, q)
  {
    hide Hits;
    var h := Restored(b, o);
    assert Keys(h) == (if Shape(o).0 <= 64 * MAX_WORDS then Keys(o) else Keys(b));
  }

  lemma HitsIs(g: (nat, nat), m: nat, k: nat, q: nat)
    requires m > 0
    ensures Hits(g, (m, k), q) <==> exists j: nat :: j < k && Position(g, j, m) == q
  {
  }

  /** The answer over every history: yes if and only if each of the k positions of the key is one
      of the k positions of some key the filter holds; and what those positions are. */
  lemma MayContainExact(hash: Hash, h: History, key: Key)
    requires Sized(h)
    ensures var (m, k) := Shape(h);
      && Build(hash, h).m == m
      && (MayContain(Build(hash, h), hash(key)) <==>
          forall i: nat | i < k ::
            exists x :: x in Keys(h) && exists j: nat :: j < k && Position(hash(x), j, m) == Position(hash(key), i, m))
      && forall f: (nat, nat), i: nat :: Position(f, i, m) == (f.0 + i * f.1) % TWO64 % m
  {
    hide Build, IsSet, Position, Keys, Shape, Hits;
    var (m, k) := Shape(h);
    BuildShape(hash, h);
    forall i: nat | i < k
      ensures IsSet(Build(hash, h).bits, Position(hash(key), i, m)) <==> Covered(hash, h, Position(hash(key), i, m))
    {
      BitsExact(hash, h, Position(hash(key), i, m));
    }
    forall g, q ensures Hits(g, (m, k), q) <==> exists j: nat :: j < k && Position(g, j, m) == q { HitsIs(g, m, k, q); }
    assert forall i: nat | i < k :: Covered(hash, h, Position(hash(key), i, m)) <==>
      exists x :: x in Keys(h) && Hits(hash(x), (m, k), Position(hash(key), i, m));
    forall f: (nat, nat), i: nat ensures Position(f, i, m) == (f.0 + i * f.1) % TWO64 % m { PositionIs(f, i, m); }
  }

  /** No false negatives, over every history and every pair of hash functions. */
  lemma NoFalseNegatives(hash: Hash, h: History, key: Key)
    requires Sized(h) && key in Keys(h)
    ensures MayContain(Build(hash, h), hash(key))
  {
    hide Build, IsSet, Position, Keys, Shape;
    MayContainExact(hash, h, key);
  }

  // ---- Counting ----

  /** The number of set positions below p. */
  function Ones(bits: seq<Word>, p: nat): (c: nat)
    ensures c <= p
  {
    if p == 0 then 0 else Ones(bits, p - 1) + if IsSet(bits, p - 1) then 1 else 0
  }

  /** What SetBits sums up is the number of set positions. */
  lemma {:induction false} OnesByWord(bits: seq<Word>)
    ensures OnesInWords(bits) == Ones(bits, 64 * |bits|)
  {
    hide CountBits, BitAt;
    if |bits| > 0 {
      var n := |bits| - 1;
      OnesByWord(bits[..n]);
      OnesPrefix(bits, n, 64 * n);
      OnesInLast(bits, n, 64);
    }
  }

  lemma {:induction false} OnesPrefix(bits: seq<Word>, n: nat, p: nat)
    requires n <= |bits| && p <= 64 * n
    ensures Ones(bits, p) == Ones(bits[..n], p)
  {
    hide BitAt;
    if p > 0 { OnesPrefix(bits, n, p - 1); }
  }

  lemma {:induction false} OnesInLast(bits: seq<Word>, n: nat, j: nat)
    requires n < |bits| && j <= 64
    ensures Ones(bits, 64 * n + j) == Ones(bits, 64 * n) + CountBits(bits[n], j)
    decreases j
  {
    hide BitAt;
    if j > 0 {
      OnesInLast(bits, n, j - 1);
      assert (64 * n + j - 1) / 64 == n && (64 * n + j - 1) % 64 == j - 1;
    }
  }

  lemma {:induction false} OnesSetOne(bits: seq<Word>, pos: nat, p: nat)
    requires pos / 64 < |bits|
    ensures Ones(SetPosition(bits, pos), p) <= Ones(bits, p) + if pos < p then 1 else 0
    decreases p
  {
    hide IsSet, SetPosition;
    if p > 0 {
      OnesSetOne(bits, pos, p - 1);
      SetPositionSets(bits, pos, p - 1);
    }
  }

  lemma {:induction false} OnesSetHashes(bits: seq<Word>, h: (nat, nat), m: nat, c: nat, p: nat)
    requires 0 < m <= TWO64 - 64 && |bits| == Words(m)
    ensures Ones(SetHashes(bits, h, m, c), p) <= Ones(bits, p) + c
    decreases c
  {
    hide IsSet, SetPosition, Position, Ones;
    if c > 0 {
      WordIndex(Position(h, c - 1, m), m);
      OnesSetHashes(bits, h, m, c - 1, p);
      OnesSetOne(SetHashes(bits, h, m, c - 1), Position(h, c - 1, m), p);
    }
  }

  lemma {:induction false} OnesOr(a: seq<Word>, b: seq<Word>, p: nat)
    requires |a| == |b|
    ensures Ones(OrWords(a, b), p) <= Ones(a, p) + Ones(b, p)
    decreases p
  {
    hide IsSet, OrWords;
    if p > 0 {
      OnesOr(a, b, p - 1);
      OrWordsSets(a, b, p - 1);
    }
  }

  lemma {:induction false} OnesZero(count: nat, p: nat)
    ensures Ones(Zeros(count), p) == 0
    decreases p
  {
    hide IsSet, Zeros;
    if p > 0 {
      OnesZero(count, p - 1);
      ZerosUnset(count, p - 1);
    }
  }

  /** Bits beyond the last position stay zero. */
  ghost predicate Padded(s: State) {
    forall q: nat | q >= s.m :: !IsSet(s.bits, q)
  }

  lemma {:induction false} OnesPadded(s: State, p: nat)
    requires Padded(s)
    ensures Ones(s.bits, p) <= s.m
    decreases p
  {
    hide IsSet;
    if p > s.m { OnesPadded(s, p - 1); }
  }

  /** The number of Adds that a filter's contents stem from. */
  function Adds(h: History): nat
    requires Sized(h)
  {
    match h
    case New(_, _) => 0
    case Added(b, _) => Adds(b) + 1
    case United(b, o) => if Shape(b) == Shape(o) then Adds(b) + Adds(o) else Adds(b)
    case Cleared(_) => 0
    case Restored(b, o) => if Shape(o).0 <= 64 * MAX_WORDS then Adds(o) else Adds(b)
  }

  /** The counter is the number of Adds modulo 2^64, and each Add has set at most k bits. */
  ghost predicate Counted(s: State, adds: nat) {
    s.n == adds % TWO64 && Padded(s) && forall p: nat :: Ones(s.bits, p) <= s.k * adds
  }

  lemma EmptyCounted(m: nat, k: nat)
    ensures Counted(Empty(m, k), 0)
  {
    hide IsSet, Ones, Zeros;
    forall q: nat ensures !IsSet(Empty(m, k).bits, q) { ZerosUnset(Words(m), q); }
    forall p: nat ensures Ones(Empty(m, k).bits, p) <= k * 0 { OnesZero(Words(m), p); }
  }

  lemma Distribute(k: nat, a: nat, b: nat)
    ensures k * (a + b) == k * a + k * b
  {
  }

  lemma WrapAdd(a: nat, b: nat)
    ensures (a % TWO64 + b % TWO64) % TWO64 == (a + b) % TWO64
  {
  }

  lemma AddPadded(s: State, h: (nat, nat))
    requires WellFormed(s) && Padded(s)
    ensures Padded(AddStep(s, h))
  {
    hide IsSet, SetHashes, Position;
    forall q: nat | q >= s.m ensures !IsSet(AddStep(s, h).bits, q) { SetHashesSets(s.bits, h, s.m, s.k, q); }
  }

  lemma AddCounted(s: State, h: (nat, nat), adds: nat)
    requires WellFormed(s) && Counted(s, adds)
    ensures Counted(AddStep(s, h), adds + 1)
  {
    hide Padded, Ones, SetHashes;
    AddPadded(s, h);
    WrapAdd(adds, 1);
    Distribute(s.k, adds, 1);
    forall p: nat ensures Ones(AddStep(s, h).bits, p) <= s.k * (adds + 1) {
      OnesSetHashes(s.bits, h, s.m, s.k, p);
    }
  }

  lemma UnionPadded(s: State, t: State)
    requires WellFormed(s) && WellFormed(t) && s.m == t.m && s.k == t.k && Padded(s) && Padded(t)
    ensures Padded(UnionStep(s, t).0)
  {
    hide IsSet, OrWords;
    forall q: nat | q >= s.m ensures !IsSet(UnionStep(s, t).0.bits, q) { OrWordsSets(s.bits, t.bits, q); }
  }

  lemma UnionCounted(s: State, t: State, a: nat, b: nat)
    requires WellFormed(s) && WellFormed(t) && Counted(s, a) && Counted(t, b)
    ensures Counted(UnionStep(s, t).0, if UnionStep(s, t).1 then a + b else a)
  {
    hide Padded, Ones, OrWords;
    if UnionStep(s, t).1 {
      UnionPadded(s, t);
      WrapAdd(a, b);
      Distribute(s.k, a, b);
      forall p: nat ensures Ones(UnionStep(s, t).0.bits, p) <= s.k * (a + b) {
        OnesOr(s.bits, t.bits, p);
      }
    }
  }

  lemma SameShape(s: State, t: State)
    requires WellFormed(s) && WellFormed(t)
    ensures UnionStep(s, t).1 <==> (s.m, s.k) == (t.m, t.k)
  {
  }

  lemma {:induction false} BuildCounted(hash: Hash, h: History)
    requires Sized(h)
    ensures Counted(Build(hash, h), Adds(h))
  {
    hide Counted, WellFormed, AddStep, UnionStep, Empty, Parse, Serialize;
    match h {
      case New(m, k) => EmptyCounted(m, k);
      case Added(b, key) =>
        BuildCounted(hash, b);
        AddCounted(Build(hash, b), hash(key), Adds(b));
      case United(b, o) =>
        BuildCounted(hash, b);
        BuildCounted(hash, o);
        BuildShape(hash, b);
        BuildShape(hash, o);
        SameShape(Build(hash, b), Build(hash, o));
        UnionCounted(Build(hash, b), Build(hash, o), Adds(b), Adds(o));
      case Cleared(b) => EmptyCounted(Build(hash, b).m, Build(hash, b).k);
      case Restored(b, o) =>
        RestoredIs(hash, b, o);
        BuildCounted(hash, b);
        BuildCounted(hash, o);
        BuildShape(hash, o);
        WordsExact(Shape(o).0);
    }
  }

  /** The number of set bits that FillRatio sums is at most m and at most k times the number
      of Adds, which the counter holds as long as it has not wrapped around. */
  lemma FillBound(hash: Hash, h: History)
    requires Sized(h)
    ensures var s := Build(hash, h);
      && OnesInWords(s.bits) <= s.m && OnesInWords(s.bits) <= s.k * Adds(h)
      && (Adds(h) < TWO64 ==> s.n == Adds(h)) && Padded(s)
  {
    hide Build, Adds, Counted, OnesInWords, Padded;
    BuildCounted(hash, h);
    CountedBound(Build(hash, h), Adds(h));
  }

  lemma CountedBound(s: State, adds: nat)
    requires Counted(s, adds)
    ensures OnesInWords(s.bits) <= s.m && OnesInWords(s.bits) <= s.k * adds && s.n == adds % TWO64 && Padded(s)
  {
    hide Ones, OnesInWords, Padded;
    OnesByWord(s.bits);
    OnesPadded(s, 64 * |s.bits|);
  }
}
