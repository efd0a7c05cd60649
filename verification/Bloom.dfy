/** internal/bloom/bloom.go: the Bloom filter, for any pair of hash functions. */
module Bloom {
  import opened Bytes
  import opened Order
  import opened Popcount

  const MAX_WORDS := 0x1000_0000

  datatype State = State(bits: seq<Word>, m: nat, k: nat, n: nat)

  /** The number of words New allocates for m bits; m + 63 wraps around. */
  function Words(m: nat): nat {
    (m + 63) % TWO64 / 64
  }

  /** The i-th of the simulated hash functions, in wrap-around 64-bit arithmetic. */
  function Position(h: (nat, nat), i: nat, m: nat): (pos: nat)
    requires m > 0
    ensures pos < m
  {
    (h.0 + i * h.1 % TWO64) % TWO64 % m
  }

  /** Every word index computed from a position is in bounds exactly for these sizes. */
  lemma WordsCover(m: nat)
    requires 0 < m < TWO64
    ensures (forall pos: nat | pos < m :: pos / 64 < Words(m)) <==> m <= TWO64 - 64
  {
    if m <= TWO64 - 64 {
      forall pos: nat | pos < m ensures pos / 64 < Words(m) {
        WordIndex(pos, m);
      }
    } else {
      var zero: nat := 0;
      assert zero < m && zero / 64 == 0 && Words(m) == 0;
    }
  }

  lemma WordIndex(pos: nat, m: nat)
    requires pos < m <= TWO64 - 64
    ensures pos / 64 < Words(m)
  {
    assert (m + 63) % TWO64 == m + 63;
    assert 64 * (pos / 64) + 64 <= pos + 64 <= m + 63;
  }

  predicate IsSet(bits: seq<Word>, pos: nat) {
    pos / 64 < |bits| && BitAt(bits[pos / 64], pos % 64)
  }

  predicate WellFormed(s: State) {
    0 < s.m <= TWO64 - 64 && 0 < s.k < TWO64 && s.n < TWO64 && |s.bits| == Words(s.m)
  }

  function Zeros(count: nat): (bits: seq<Word>)
    ensures |bits| == count && forall i | 0 <= i < count :: bits[i] == 0
  {
    seq(count, i => 0)
  }

  /** New, for given sizes. */
  function Empty(m: nat, k: nat): State {
    State(Zeros(Words(m)), m, k, 0)
  }

  function SetPosition(bits: seq<Word>, pos: nat): (r: seq<Word>)
    requires pos / 64 < |bits|
    ensures |r| == |bits|
  {
    bits[pos / 64 := Or(bits[pos / 64], Mask(pos % 64))]
  }

  /** The first c of the positions of a key, set. */
  function SetHashes(bits: seq<Word>, h: (nat, nat), m: nat, c: nat): (r: seq<Word>)
    requires 0 < m <= TWO64 - 64 && |bits| == Words(m)
    ensures |r| == |bits|
  {
    if c == 0 then bits else
    WordIndex(Position(h, c - 1, m), m);
    SetPosition(SetHashes(bits, h, m, c - 1), Position(h, c - 1, m))
  }

  function AddStep(s: State, h: (nat, nat)): State
    requires WellFormed(s)
  {
    s.(bits := SetHashes(s.bits, h, s.m, s.k), n := (s.n + 1) % TWO64)
  }

  predicate MayContain(s: State, h: (nat, nat))
    requires s.m > 0
  {
    forall i: nat | i < s.k :: IsSet(s.bits, Position(h, i, s.m))
  }

  function OrWords(a: seq<Word>, b: seq<Word>): (r: seq<Word>)
    requires |a| == |b|
    ensures |r| == |a| && forall i | 0 <= i < |a| :: r[i] == Or(a[i], b[i])
  {
    seq(|a|, i requires 0 <= i < |a| => Or(a[i], b[i]))
  }

  /** Filters of different shape are refused. */
  function UnionStep(s: State, t: State): (State, bool)
    requires WellFormed(s) && WellFormed(t)
  {
    if s.m != t.m || s.k != t.k then (s, false) else
    (s.(bits := OrWords(s.bits, t.bits), n := (s.n + t.n) % TWO64), true)
  }

  // ---- Serialised form ----

  function OneWord(w: Word): (b: seq<byte>)
    ensures |b| == 8
  {
    PutBE(w as int, 8)
  }

  function WordBytes(bits: seq<Word>): (b: seq<byte>)
    ensures |b| == 8 * |bits|
  {
    if |bits| == 0 then [] else WordBytes(bits[..|bits| - 1]) + OneWord(bits[|bits| - 1])
  }

  function Serialize(s: State): seq<byte> {
    PutBE(s.m, 8) + PutBE(s.k, 8) + PutBE(s.n, 8) + WordBytes(s.bits)
  }

  function ToWord(v: nat): Word
    requires v < TWO64
  {
    v as bv64
  }

  function ParseWord(data: seq<byte>, pos: nat): Word
    requires pos + 8 <= |data|
  {
    Pow256Widths();
    ToWord(GetBE(data[pos..pos + 8]))
  }

  function ParseWords(data: seq<byte>, pos: nat, count: nat): (bits: seq<Word>)
    requires pos + 8 * count <= |data|
    ensures |bits| == count
  {
    if count == 0 then [] else ParseWords(data, pos, count - 1) + [ParseWord(data, pos + 8 * (count - 1))]
  }

  /** ReadFrom; None stands for ErrCorrupt. */
  function Parse(data: seq<byte>): Option<State> {
    if |data| < 24 then None else
    var m, k, n := GetBE(data[..8]), GetBE(data[8..16]), GetBE(data[16..24]);
    if m == 0 || k == 0 || Words(m) > MAX_WORDS || |data| < 24 + 8 * Words(m) then None else
    Some(State(ParseWords(data, 24, Words(m)), m, k, n))
  }

  /** How many bytes ReadFrom takes from the stream. */
  function Consumed(data: seq<byte>): nat {
    if |data| < 24 then |data| else
    var m, k := GetBE(data[..8]), GetBE(data[8..16]);
    if m == 0 || k == 0 || Words(m) > MAX_WORDS then 24 else
    if |data| < 24 + 8 * Words(m) then |data| else 24 + 8 * Words(m)
  }

  // ---- The filter object ----

  class Filter {
    const hash: Key -> (nat, nat)
    var bits: array<Word>
    var m: nat
    var k: nat
    var n: nat

    function View(): State
      reads this, bits
    {
      State(bits[..], m, k, n)
    }

    ghost predicate Valid()
      reads this, bits
    {
      WellFormed(View())
    }

    constructor (hash: Key -> (nat, nat), m: nat, k: nat)
      requires 0 < m <= TWO64 - 64 && 0 < k < TWO64
      ensures Valid() && this.hash == hash && View() == Empty(m, k) && fresh(bits)
    {
      this.hash, this.m, this.k, n := hash, m, k, 0;
      bits := new Word[Words(m)](_ => 0);
      new;
      assert bits[..] == Zeros(Words(m));
    }

    method Add(key: Key)
      requires Valid()
      modifies this`n, bits
      ensures Valid() && View() == AddStep(old(View()), hash(key))
    {
      hide BitAt, Or, Mask, Position;
      var h := hash(key);
      for i := 0 to k
        modifies bits
        invariant bits[..] == SetHashes(old(bits[..]), h, m, i)
      {
        var pos := Position(h, i, m);
        WordIndex(pos, m);
        bits[pos / 64] := Or(bits[pos / 64], Mask(pos % 64));
      }
      n := (n + 1) % TWO64;
    }

    method Contains(key: Key) returns (r: bool)
      requires Valid()
      ensures r == MayContain(View(), hash(key))
    {
      hide BitAt, Meets, Mask, Position;
      var h := hash(key);
      for i := 0 to k
        invariant forall j: nat | j < i :: IsSet(bits[..], Position(h, j, m))
      {
        var pos := Position(h, i, m);
        WordIndex(pos, m);
        TestBit(bits[pos / 64], pos % 64);
        if !Meets(bits[pos / 64], Mask(pos % 64)) {
          return false;
        }
      }
      return true;
    }

    method Reset()
      requires Valid()
      modifies this`n, bits
      ensures Valid() && View() == Empty(m, k)
    {
      for i := 0 to bits.Length
        invariant forall j | 0 <= j < i :: bits[j] == 0
      {
        bits[i] := 0;
      }
      n := 0;
      assert bits[..] == Zeros(Words(m));
    }

    method Union(other: Filter) returns (ok: bool)
      requires Valid() && other.Valid() && other != this && other.bits != bits
      modifies this`n, bits
      ensures Valid() && (View(), ok) == UnionStep(old(View()), old(other.View()))
    {
      hide Or;
      if m != other.m || k != other.k {
        return false;
      }
      for i := 0 to bits.Length
        modifies bits
        invariant forall j | 0 <= j < i :: bits[j] == Or(old(bits[..])[j], other.bits[j])
        invariant forall j | i <= j < bits.Length :: bits[j] == old(bits[..])[j]
      {
        bits[i] := Or(bits[i], other.bits[i]);
      }
      n := (n + other.n) % TWO64;
      assert bits[..] == OrWords(old(bits[..]), other.bits[..]);
      return true;
    }

    method WriteTo() returns (w: seq<byte>, total: nat)
      requires Valid()
      ensures w == Serialize(View()) && total == |w|
    {
      hide PutBE;
      w := PutBE(m, 8) + PutBE(k, 8) + PutBE(n, 8);
      ghost var head := w;
      for i := 0 to bits.Length
        invariant w == head + WordBytes(bits[..i])
      {
        assert bits[..i + 1][..i] == bits[..i];
        w := w + OneWord(bits[i]);
        assert w == head + (WordBytes(bits[..i]) + OneWord(bits[i]));
      }
      assert bits[..bits.Length] == bits[..];
      total := |w|;
    }

    method ReadFrom(data: seq<byte>) returns (total: nat, ok: bool)
      modifies this
      ensures ok == Parse(data).Some? && total == Consumed(data)
      ensures ok ==> View() == Parse(data).value && fresh(bits)
      ensures !ok ==> m == old(m) && k == old(k) && n == old(n) && bits == old(bits)
    {
      hide GetBE, ParseWord;
      if |data| < 24 {
        return |data|, false;
      }
      total := 24;
      var m', k', count := GetBE(data[..8]), GetBE(data[8..16]), GetBE(data[16..24]);
      if m' == 0 || k' == 0 || Words(m') > MAX_WORDS {
        return total, false;
      }
      var read := new Word[Words(m')](_ => 0);
      for i := 0 to read.Length
        modifies read
        invariant total == 24 + 8 * i <= |data| && read[..i] == ParseWords(data, 24, i)
      {
        if |data| < total + 8 {
          return |data|, false;
        }
        read[i] := ParseWord(data, total);
        total := total + 8;
        assert read[..i + 1] == read[..i] + [read[i]];
      }
      assert read[..read.Length] == read[..];
      bits, m, k, n := read, m', k', count;
      ok := true;
    }

    /** The count behind FillRatio. */
    method SetBits() returns (total: nat)
      ensures total == OnesInWords(bits[..])
    {
      hide CountBits;
      total := 0;
      for i := 0 to bits.Length
        invariant total == OnesInWords(bits[..i])
      {
        assert bits[..i + 1][..i] == bits[..i];
        var c := PopCount(bits[i]);
        total := total + c;
      }
      assert bits[..bits.Length] == bits[..];
    }
  }

  function OnesInWords(bits: seq<Word>): nat {
    if |bits| == 0 then 0 else OnesInWords(bits[..|bits| - 1]) + CountBits(bits[|bits| - 1], WORD_BITS)
  }
}
