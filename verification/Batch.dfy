/** internal/batch/batch.go: a write batch and its deduplication. */
module Batch {
  import opened Bytes
  import opened Order

  datatype OpType = OpPut | OpDelete

  datatype Op = Op(kind: OpType, key: Key, value: seq<byte>)

  datatype BatchError = Committed | Discarded

  function Size(ops: seq<Op>): nat {
    if |ops| == 0 then 0 else Size(ops[..|ops| - 1]) + |ops[|ops| - 1].key| + |ops[|ops| - 1].value|
  }

  /** The size is the sum over the operations: nothing for none, and key and value of each. */
  lemma SizeOf(ops: seq<Op>, op: Op)
    ensures Size([]) == 0 && Size(ops + [op]) == Size(ops) + |op.key| + |op.value|
  {
    assert (ops + [op])[..|ops|] == ops;
  }

  /** No later operation is on the same key. */
  predicate IsLast(ops: seq<Op>, i: nat)
    requires i < |ops|
  {
    forall j | i < j < |ops| :: ops[j].key != ops[i].key
  }

  /** Those of the first n operations that are the last of the batch on their key. */
  function Kept(ops: seq<Op>, n: nat): seq<Op>
    requires n <= |ops|
  {
    if n == 0 then [] else Kept(ops, n - 1) + if IsLast(ops, n - 1) then [ops[n - 1]] else []
  }

  function Deduplicated(ops: seq<Op>): seq<Op> {
    Kept(ops, |ops|)
  }

  /** The keys in the order of their first operation. */
  function FirstSeen(ops: seq<Op>): (ks: seq<Key>) {
    if |ops| == 0 then [] else
    var ks, k := FirstSeen(ops[..|ops| - 1]), ops[|ops| - 1].key;
    if k in ks then ks else ks + [k]
  }

  class Batch {
    var ops: seq<Op>
    var committed: bool
    var discarded: bool
    var sizeBytes: int

    /** The size is that of the buffered operations, except on a discarded batch. */
    ghost predicate Valid()
      reads this
    {
      !discarded ==> sizeBytes == Size(ops)
    }

    constructor ()
      ensures Valid() && ops == [] && !committed && !discarded && sizeBytes == 0
    {
      ops, committed, discarded, sizeBytes := [], false, false, 0;
    }

    /** A committed batch reports that first, also when it has been discarded as well. */
    method Put(key: Key, value: seq<byte>) returns (err: Option<BatchError>)
      requires Valid()
      modifies this`ops, this`sizeBytes
      ensures Valid()
      ensures err == if committed then Some(Committed) else if discarded then Some(Discarded) else None
      ensures ops == if err == None then old(ops) + [Op(OpPut, key, value)] else old(ops)
      ensures sizeBytes == old(sizeBytes) + if err == None then |key| + |value| else 0
    {
      if committed {
        return Some(Committed);
      }
      if discarded {
        return Some(Discarded);
      }
      ops := ops + [Op(OpPut, key, value)];
      sizeBytes := sizeBytes + |key| + |value|;
      assert ops[..|ops| - 1] == old(ops);
      return None;
    }

    method Delete(key: Key) returns (err: Option<BatchError>)
      requires Valid()
      modifies this`ops, this`sizeBytes
      ensures Valid()
      ensures err == if committed then Some(Committed) else if discarded then Some(Discarded) else None
      ensures ops == if err == None then old(ops) + [Op(OpDelete, key, [])] else old(ops)
      ensures sizeBytes == old(sizeBytes) + if err == None then |key| else 0
    {
      if committed {
        return Some(Committed);
      }
      if discarded {
        return Some(Discarded);
      }
      ops := ops + [Op(OpDelete, key, [])];
      sizeBytes := sizeBytes + |key|;
      assert ops[..|ops| - 1] == old(ops);
      return None;
    }

    /** Drops the operations but not the size, which is then the sum of what is left only if it
        was zero. */
    method Discard()
      requires Valid()
      modifies this`ops, this`discarded
      ensures Valid() && discarded && ops == [] && sizeBytes == old(sizeBytes)
      ensures sizeBytes == Size(ops) <==> old(sizeBytes) == 0
    {
      discarded := true;
      ops := [];
    }

    method MarkCommitted()
      requires Valid()
      modifies this`committed
      ensures Valid() && committed
    {
      committed := true;
    }

    method Reset()
      modifies this
      ensures Valid() && ops == [] && sizeBytes == 0 && !committed && !discarded
    {
      ops, sizeBytes, committed, discarded := [], 0, false, false;
    }

    method Deduplicate()
      requires Valid()
      modifies this`ops, this`sizeBytes
      ensures Valid() && ops == Deduplicated(old(ops)) && sizeBytes == Size(ops)
    {
      var last: map<Key, nat> := map[];
      for i := 0 to |ops|
        invariant ops == old(ops)
        invariant forall j | 0 <= j < i :: ops[j].key in last
        invariant forall k | k in last :: last[k] < i && ops[last[k]].key == k
        invariant forall k, j | k in last && last[k] < j < i :: ops[j].key != k
      {
        last := last[ops[i].key := i];
      }
      var deduped: seq<Op> := [];
      for i := 0 to |ops|
        invariant ops == old(ops) && deduped == Kept(ops, i)
      {
        assert last[ops[i].key] == i <==> IsLast(ops, i);
        if last[ops[i].key] == i {
          deduped := deduped + [ops[i]];
        }
      }
      ops := deduped;
      var size := 0;
      for i := 0 to |ops|
        invariant ops == deduped && size == Size(ops[..i])
      {
        assert ops[..i + 1][..i] == ops[..i];
        size := size + |ops[i].key| + |ops[i].value|;
      }
      assert ops[..|ops|] == ops;
      sizeBytes := size;
    }

    method Keys() returns (out: seq<Key>)
      ensures out == FirstSeen(ops)
    {
      var seen: set<Key> := {};
      out := [];
      for i := 0 to |ops|
        invariant out == FirstSeen(ops[..i]) && forall k :: k in seen <==> k in out
      {
        assert ops[..i + 1][..i] == ops[..i];
        var k := ops[i].key;
        if k !in seen {
          seen := seen + {k};
          out := out + [k];
        }
      }
      assert ops[..|ops|] == ops;
    }
  }

  // ---- The effect of a batch ----

  function Apply(op: Op, m: Values): Values {
    match op.kind
    case OpPut => m[op.key := op.value]
    case OpDelete => m - {op.key}
  }

  /** The map after the operations have been applied in order. */
  function Effect(ops: seq<Op>, m: Values): Values
    decreases |ops|
  {
    if |ops| == 0 then m else Effect(ops[1..], Apply(ops[0], m))
  }

  function Lookup(m: Values, k: Key): Option<seq<byte>> {
    if k in m then Some(m[k]) else None
  }

  /** The last operation on k. */
  function LastOp(ops: seq<Op>, k: Key): Option<Op> {
    if |ops| == 0 then None else
    match LastOp(ops[1..], k)
    case Some(op) => Some(op)
    case None => if ops[0].key == k then Some(ops[0]) else None
  }

  /** Only the last operation on a key decides. */
  lemma {:induction false} EffectAt(ops: seq<Op>, m: Values, k: Key)
    ensures Lookup(Effect(ops, m), k) == match LastOp(ops, k)
      case None => Lookup(m, k)
      case Some(op) => if op.kind.OpPut? then Some(op.value) else None
    decreases |ops|
  {
    if |ops| > 0 {
      EffectAt(ops[1..], Apply(ops[0], m), k);
    }
  }

  lemma {:induction false} LastOpFinds(ops: seq<Op>, k: Key)
    ensures LastOp(ops, k).Some? ==>
      exists i :: 0 <= i < |ops| && LastOp(ops, k) == Some(ops[i]) && ops[i].key == k && IsLast(ops, i)
    ensures LastOp(ops, k).None? ==> forall op | op in ops :: op.key != k
  {
    if |ops| > 0 {
      LastOpFinds(ops[1..], k);
      if LastOp(ops[1..], k).Some? {
        var i :| 0 <= i < |ops[1..]| && LastOp(ops[1..], k) == Some(ops[1..][i])
          && ops[1..][i].key == k && IsLast(ops[1..], i);
        assert ops[i + 1] == ops[1..][i];
        assert forall j | i + 1 < j < |ops| :: ops[j] == ops[1..][j - 1];
      } else if ops[0].key == k {
        assert forall j | 0 < j < |ops| :: ops[j] == ops[1..][j - 1];
        assert IsLast(ops, 0);
      }
    }
  }

  /** Any two operations on one key are the same. */
  predicate OnePerKey(ops: seq<Op>) {
    forall x, y | x in ops && y in ops && x.key == y.key :: x == y
  }

  lemma LastOpOnly(ops: seq<Op>, x: Op)
    requires OnePerKey(ops) && x in ops
    ensures LastOp(ops, x.key) == Some(x)
  {
    LastOpFinds(ops, x.key);
  }

  lemma {:induction false} KeptMembers(ops: seq<Op>, n: nat, x: Op)
    requires n <= |ops|
    ensures x in Kept(ops, n) <==> exists i :: 0 <= i < n && IsLast(ops, i) && ops[i] == x
  {
    if n > 0 { KeptMembers(ops, n - 1, x); }
  }

  /** No two operations are on the same key. */
  predicate DistinctKeys(ops: seq<Op>) {
    DistinctBy(ops, (op: Op) => op.key)
  }

  lemma {:induction false} KeptDistinct(ops: seq<Op>, n: nat)
    requires n <= |ops|
    ensures DistinctKeys(Kept(ops, n))
  {
    if n > 0 {
      KeptDistinct(ops, n - 1);
      var d := Kept(ops, n - 1);
      if IsLast(ops, n - 1) {
        forall x | x in d ensures x.key != ops[n - 1].key {
          KeptMembers(ops, n - 1, x);
        }
        assert Kept(ops, n) == d + [ops[n - 1]];
      } else {
        assert Kept(ops, n) == d + [];
      }
    }
  }

  lemma DeduplicatedOnePerKey(ops: seq<Op>)
    ensures OnePerKey(Deduplicated(ops))
  {
    var d := Deduplicated(ops);
    forall x, y | x in d && y in d && x.key == y.key ensures x == y {
      KeptMembers(ops, |ops|, x);
      KeptMembers(ops, |ops|, y);
    }
  }

  /** Whatever order the kept operations are applied in, the effect on every map is that of
      the original batch. */
  lemma AnyOrderSameEffect(ops: seq<Op>, p: seq<Op>, m: Values)
    requires multiset(p) == multiset(Deduplicated(ops))
    ensures Effect(p, m) == Effect(ops, m)
  {
    var d := Deduplicated(ops);
    DeduplicatedOnePerKey(ops);
    assert forall x :: x in p <==> x in d by {
      assert forall x :: x in p <==> x in multiset(p);
      assert forall x :: x in d <==> x in multiset(d);
    }
    forall k ensures Lookup(Effect(p, m), k) == Lookup(Effect(ops, m), k) {
      EffectAt(p, m, k);
      EffectAt(ops, m, k);
      LastOpFinds(ops, k);
      LastOpFinds(p, k);
      if LastOp(ops, k).Some? {
        var x := LastOp(ops, k).value;
        KeptMembers(ops, |ops|, x);
        LastOpOnly(p, x);
      } else if LastOp(p, k).Some? {
        KeptMembers(ops, |ops|, LastOp(p, k).value);
      }
    }
    SameLookups(Effect(p, m), Effect(ops, m));
  }

  lemma SameLookups(a: Values, b: Values)
    requires forall k :: Lookup(a, k) == Lookup(b, k)
    ensures a == b
  {
    forall k ensures (k in a) == (k in b) && (k in a ==> a[k] == b[k]) { assert Lookup(a, k) == Lookup(b, k); }
  }

  lemma {:induction false} SubGrows<T>(a: seq<T>, b: seq<T>, x: T)
    requires Sub(a, b)
    ensures Sub(a, b + [x]) && Sub(a + [x], b + [x])
    decreases |b|
  {
    if |b| == 0 {
      assert a + [x] == [x] && b + [x] == [x];
      assert Sub([x][1..], [x][1..]);
    } else {
      assert (b + [x])[1..] == b[1..] + [x];
      if |a| == 0 {
        SubGrows([], b[1..], x);
        assert [] + [x] == [x] && a + [x] == [x];
      } else if a[0] == b[0] && Sub(a[1..], b[1..]) {
        SubGrows(a[1..], b[1..], x);
        assert (a + [x])[1..] == a[1..] + [x];
      } else {
        SubGrows(a, b[1..], x);
      }
    }
  }

  lemma {:induction false} KeptSub(ops: seq<Op>, n: nat)
    requires n <= |ops|
    ensures Sub(Kept(ops, n), ops[..n])
  {
    if n > 0 {
      KeptSub(ops, n - 1);
      SubGrows(Kept(ops, n - 1), ops[..n - 1], ops[n - 1]);
      assert ops[..n - 1] + [ops[n - 1]] == ops[..n];
      assert Kept(ops, n - 1) + [] == Kept(ops, n - 1);
    }
  }

  lemma {:induction false} KeptAll(d: seq<Op>, n: nat)
    requires n <= |d| && DistinctKeys(d)
    ensures Kept(d, n) == d[..n]
  {
    if n > 0 {
      KeptAll(d, n - 1);
      assert IsLast(d, n - 1);
    }
  }

  /** Deduplication keeps the effect on every map; the result is a subsequence with one
      operation per key and the same keys, and deduplicating again changes nothing. */
  lemma DeduplicateMeaning(ops: seq<Op>, m: Values)
    ensures var d := Deduplicated(ops);
      && Effect(d, m) == Effect(ops, m)
      && Sub(d, ops)
      && DistinctKeys(d)
      && (forall k :: LastOp(d, k) == LastOp(ops, k))
      && Deduplicated(d) == d
  {
    var d := Deduplicated(ops);
    AnyOrderSameEffect(ops, d, m);
    KeptSub(ops, |ops|);
    assert ops[..|ops|] == ops;
    KeptDistinct(ops, |ops|);
    KeptAll(d, |d|);
    assert d[..|d|] == d;
    forall k ensures LastOp(d, k) == LastOp(ops, k) { SameLast(ops, k); }
  }

  lemma SameLast(ops: seq<Op>, k: Key)
    ensures LastOp(Deduplicated(ops), k) == LastOp(ops, k)
  {
    var d := Deduplicated(ops);
    DeduplicatedOnePerKey(ops);
    LastOpFinds(ops, k);
    LastOpFinds(d, k);
    if LastOp(ops, k).Some? {
      KeptMembers(ops, |ops|, LastOp(ops, k).value);
      LastOpOnly(d, LastOp(ops, k).value);
    } else if LastOp(d, k).Some? {
      KeptMembers(ops, |ops|, LastOp(d, k).value);
    }
  }

  /** Keys lists every key of the batch once, and deduplication does not change which. */
  lemma {:induction false} FirstSeenKeys(ops: seq<Op>)
    ensures Distinct(FirstSeen(ops))
    ensures forall k :: k in FirstSeen(ops) <==> LastOp(ops, k).Some?
  {
    if |ops| > 0 {
      FirstSeenKeys(ops[..|ops| - 1]);
    }
    forall k ensures k in FirstSeen(ops) <==> LastOp(ops, k).Some? {
      LastOpFinds(ops, k);
      FirstSeenMembers(ops, k);
    }
  }

  lemma {:induction false} FirstSeenMembers(ops: seq<Op>, k: Key)
    ensures k in FirstSeen(ops) <==> exists op :: op in ops && op.key == k
  {
    if |ops| > 0 {
      var init, op := ops[..|ops| - 1], ops[|ops| - 1];
      FirstSeenMembers(init, k);
      assert ops == init + [op];
    }
  }

  /** Of two keys listed, the earlier one was written before the later one first was. */
  lemma {:induction false} FirstSeenOrder(ops: seq<Op>, i: nat, j: nat)
    requires i < j < |FirstSeen(ops)|
    ensures var ks := FirstSeen(ops);
      exists p :: 0 <= p < |ops| && ops[p].key == ks[i] && forall q | 0 <= q <= p :: ops[q].key != ks[j]
    decreases |ops|
  {
    var init, k := ops[..|ops| - 1], ops[|ops| - 1].key;
    var ks, seen := FirstSeen(ops), FirstSeen(init);
    assert ks[i] == seen[i];
    if j < |seen| {
      FirstSeenOrder(init, i, j);
      var p :| 0 <= p < |init| && init[p].key == seen[i] && forall q | 0 <= q <= p :: init[q].key != seen[j];
      assert ops[p] == init[p] && forall q | 0 <= q <= p :: ops[q] == init[q];
    } else {
      FirstSeenMembers(init, seen[i]);
      FirstSeenMembers(init, k);
      var op :| op in init && op.key == seen[i];
      var p :| 0 <= p < |init| && init[p] == op;
      assert ops[p] == op && forall q | 0 <= q <= p :: ops[q] == init[q] && init[q] in init;
    }
  }
}
