/** What the LRU cache promises over whole traces. */
module CacheLaws {
  import opened Bytes
  import opened Order
  import opened Cache

  /** A cache created with capacity c after the operations `ops`. */
  function Run(c: int, ops: seq<Op>): State {
    if |ops| == 0 then State(c, [], 0, 0, 0) else Step(Run(c, ops[..|ops| - 1]), ops[|ops| - 1])
  }

  predicate DistinctKeys(list: seq<Item>) {
    DistinctBy(list, (x: Item) => x.key)
  }

  predicate Holds(list: seq<Item>, k: Key) {
    Lookup(list, k).Some?
  }

  lemma {:induction false} LookupFinds(list: seq<Item>, k: Key)
    ensures Holds(list, k) ==> Item(k, Lookup(list, k).value) in list
    ensures !Holds(list, k) ==> forall x | x in list :: x.key != k
  {
    if |list| > 0 && list[0].key != k {
      LookupFinds(list[1..], k);
    }
  }

  lemma {:induction false} LookupMember(list: seq<Item>, x: Item)
    requires DistinctKeys(list) && x in list
    ensures Lookup(list, x.key) == Some(x.value)
  {
    if list[0] != x {
      LookupMember(list[1..], x);
    }
  }

  lemma {:induction false} RemoveMembers(list: seq<Item>, k: Key)
    requires DistinctKeys(list)
    ensures DistinctKeys(Remove(list, k))
    ensures forall x :: x in Remove(list, k) <==> x in list && x.key != k
  {
    if |list| > 0 {
      if list[0].key != k {
        RemoveMembers(list[1..], k);
        forall i, j | 0 <= i < j < |Remove(list, k)| ensures Remove(list, k)[i].key != Remove(list, k)[j].key {
          if i == 0 { assert Remove(list, k)[j] in list[1..]; }
        }
      }
    }
  }

  // ---- The list is a map of at most `capacity` keys ----

  predicate WellFormed(s: State) {
    DistinctKeys(s.list) && (s.capacity > 0 ==> |s.list| <= s.capacity)
  }

  lemma StepWellFormed(s: State, op: Op)
    requires WellFormed(s)
    ensures WellFormed(Step(s, op))
  {
    match op {
      case Get(k) => RemoveMembers(s.list, k);
      case Put(k, v) =>
        RemoveMembers(s.list, k);
        LookupFinds(s.list, k);
      case Delete(k) => RemoveMembers(s.list, k);
      case _ =>
    }
  }

  /** The keys in the list are distinct, and no more than the capacity when it is positive,
      whatever Resize did before. */
  lemma {:induction false} RunWellFormed(c: int, ops: seq<Op>)
    ensures WellFormed(Run(c, ops))
  {
    if |ops| > 0 {
      RunWellFormed(c, ops[..|ops| - 1]);
      StepWellFormed(Run(c, ops[..|ops| - 1]), ops[|ops| - 1]);
    }
  }

  // ---- Agreement with a map ----

  function CapacityAfter(c: int, ops: seq<Op>): int {
    if |ops| == 0 then c else
    match ops[|ops| - 1] case Resize(n) => n case _ => CapacityAfter(c, ops[..|ops| - 1])
  }

  /** What the puts since the last Delete or Clear of each key wrote, counting only those
      made while the cache was enabled. */
  function Written(c: int, ops: seq<Op>): Values {
    if |ops| == 0 then map[] else
    var init := ops[..|ops| - 1];
    var m := Written(c, init);
    match ops[|ops| - 1]
    case Put(k, v) => if CapacityAfter(c, init) > 0 then m[k := v] else m
    case Delete(k) => m - {k}
    case Clear => map[]
    case _ => m
  }

  lemma {:induction false} RunCapacity(c: int, ops: seq<Op>)
    ensures Run(c, ops).capacity == CapacityAfter(c, ops)
  {
    if |ops| > 0 {
      RunCapacity(c, ops[..|ops| - 1]);
    }
  }

  predicate Agrees(list: seq<Item>, m: Values) {
    forall x | x in list :: x.key in m && m[x.key] == x.value
  }

  lemma {:induction false} RunAgrees(c: int, ops: seq<Op>)
    ensures Agrees(Run(c, ops).list, Written(c, ops))
  {
    if |ops| > 0 {
      var init, op := ops[..|ops| - 1], ops[|ops| - 1];
      var s := Run(c, init);
      RunAgrees(c, init);
      RunWellFormed(c, init);
      RunCapacity(c, init);
      match op {
        case Get(k) => RemoveMembers(s.list, k); LookupFinds(s.list, k);
        case Put(k, v) => RemoveMembers(s.list, k); LookupFinds(s.list, k);
        case Delete(k) => RemoveMembers(s.list, k);
        case _ =>
      }
    }
  }

  /** A hit returns the value of the latest Put of the key since its last Delete or Clear
      that was made while the capacity was positive. */
  lemma HitReturnsLatest(c: int, ops: seq<Op>, k: Key)
    requires GetStep(Run(c, ops), k).1.Some?
    ensures k in Written(c, ops) && GetStep(Run(c, ops), k).1 == Some(Written(c, ops)[k])
  {
    RunAgrees(c, ops);
    LookupFinds(Run(c, ops).list, k);
  }

  /** As Written, with no exception for a disabled cache. */
  function Latest(ops: seq<Op>): Values {
    if |ops| == 0 then map[] else
    var m := Latest(ops[..|ops| - 1]);
    match ops[|ops| - 1]
    case Put(k, v) => m[k := v]
    case Delete(k) => m - {k}
    case Clear => map[]
    case _ => m
  }

  /** An ignored Put of a key that is cached with another value. */
  predicate LosesUpdate(s: State, op: Op) {
    op.Put? && s.capacity <= 0 && Holds(s.list, op.key) && Lookup(s.list, op.key) != Some(op.value)
  }

  /** What is cached stays the latest that was put, exactly until an update is lost. */
  lemma StepKeepsLatest(c: int, ops: seq<Op>, op: Op)
    requires Agrees(Run(c, ops).list, Latest(ops))
    ensures Agrees(Run(c, ops + [op]).list, Latest(ops + [op])) <==> !LosesUpdate(Run(c, ops), op)
  {
    hide Run, Latest;
    var s := Run(c, ops);
    RunWellFormed(c, ops);
    StepLatest(c, ops, op);
    match op {
      case Get(k) => RemoveMembers(s.list, k); LookupFinds(s.list, k);
      case Put(k, v) =>
        RemoveMembers(s.list, k);
        LookupFinds(s.list, k);
        if s.capacity <= 0 && !LosesUpdate(s, op) {
          forall x | x in s.list && x.key == k ensures x.value == v { LookupMember(s.list, x); }
        }
      case Delete(k) => RemoveMembers(s.list, k);
      case _ =>
    }
  }

  lemma StepLatest(c: int, ops: seq<Op>, op: Op)
    ensures Run(c, ops + [op]) == Step(Run(c, ops), op)
    ensures var m := Latest(ops);
      Latest(ops + [op]) == match op
        case Put(k, v) => m[k := v]
        case Delete(k) => m - {k}
        case Clear => map[]
        case _ => m
  {
    hide Step;
    assert (ops + [op])[..|ops|] == ops;
  }

  /** Throughout a trace the cached values are the latest put, if and only if no Put of a key
      cached with another value meets a disabled cache. */
  lemma {:induction false} AlwaysLatest(c: int, ops: seq<Op>)
    ensures (forall n: nat | n <= |ops| :: Agrees(Run(c, ops[..n]).list, Latest(ops[..n]))) <==>
            (forall n: nat | n < |ops| :: !LosesUpdate(Run(c, ops[..n]), ops[n]))
  {
    hide Run, Latest, Agrees, LosesUpdate;
    if |ops| == 0 {
      NothingCached(c);
      assert ops[..0] == [];
    } else {
      var last := |ops| - 1;
      var init := ops[..last];
      AlwaysLatest(c, init);
      assert forall n: nat | n <= last :: init[..n] == ops[..n];
      assert init + [ops[last]] == ops[..|ops|] && ops[..last] == init[..last];
      if Agrees(Run(c, init).list, Latest(init)) {
        StepKeepsLatest(c, init, ops[last]);
      }
    }
  }

  lemma NothingCached(c: int)
    ensures Agrees(Run(c, []).list, Latest([]))
  {
  }

  const K: Key := [107]

  /** Resize to zero keeps the entries while Put ignores the new value, so a later Resize
      brings an outdated value back. */
  lemma StaleAfterDisable()
    ensures var ops := [Put(K, [1]), Resize(0), Put(K, [2]), Resize(1)];
      && GetStep(Run(1, ops), K).1 == Some([1])
      && K in Latest(ops) && Latest(ops)[K] == [2]
  {
    var p, z, q, r := Put(K, [1]), Resize(0), Put(K, [2]), Resize(1);
    assert [p][..0] == [] && [p, z][..1] == [p] && [p, z, q][..2] == [p, z] && [p, z, q, r][..3] == [p, z, q];
    assert Run(1, [p]) == State(1, [Item(K, [1])], 0, 0, 0);
    assert Run(1, [p, z]) == State(0, [Item(K, [1])], 0, 0, 0);
    assert Run(1, [p, z, q]) == State(0, [Item(K, [1])], 0, 0, 0);
    assert Run(1, [p, z, q, r]) == State(1, [Item(K, [1])], 0, 0, 0);
    assert Latest([p, z, q]) == Latest([p, z])[K := [2]];
  }

  // ---- Eviction order ----

  /** The time of the last Put or Get hit of k made while the cache was enabled. */
  function LastUse(c: int, ops: seq<Op>, k: Key): nat {
    if |ops| == 0 then 0 else
    var init, s := ops[..|ops| - 1], Run(c, ops[..|ops| - 1]);
    var used := match ops[|ops| - 1]
      case Put(j, _) => j == k && s.capacity > 0
      case Get(j) => j == k && s.capacity > 0 && Holds(s.list, k)
      case _ => false;
    if used then |ops| else LastUse(c, init, k)
  }

  lemma {:induction false} LastUseBound(c: int, ops: seq<Op>, k: Key)
    ensures LastUse(c, ops, k) <= |ops|
  {
    if |ops| > 0 { LastUseBound(c, ops[..|ops| - 1], k); }
  }

  ghost predicate ByLastUse(c: int, ops: seq<Op>, list: seq<Item>) {
    forall i, j | 0 <= i < j < |list| :: LastUse(c, ops, list[i].key) > LastUse(c, ops, list[j].key)
  }

  lemma {:induction false} RemoveOrdered(c: int, ops: seq<Op>, list: seq<Item>, k: Key)
    requires ByLastUse(c, ops, list)
    ensures ByLastUse(c, ops, Remove(list, k))
    ensures forall x | x in Remove(list, k) :: x in list
  {
    if |list| > 0 && list[0].key != k {
      assert ByLastUse(c, ops, list[1..]);
      RemoveOrdered(c, ops, list[1..], k);
      var r := Remove(list[1..], k);
      forall j | 0 <= j < |r| ensures LastUse(c, ops, list[0].key) > LastUse(c, ops, r[j].key) {
        assert r[j] in list[1..];
      }
    }
  }

  /** Moving or pushing k to the front keeps the order by last use. */
  lemma UseOrdered(c: int, ops: seq<Op>, op: Op, rest: seq<Item>, x: Item)
    requires ByLastUse(c, ops, rest) && forall y | y in rest :: y.key != x.key
    requires (op == Get(x.key) && Holds(Run(c, ops).list, x.key)) || op == Put(x.key, x.value)
    requires Run(c, ops).capacity > 0
    ensures ByLastUse(c, ops + [op], [x] + rest)
  {
    hide Run, Step;
    assert (ops + [op])[..|ops|] == ops;
    assert LastUse(c, ops + [op], x.key) == |ops| + 1;
    forall j | 0 <= j < |rest|
      ensures LastUse(c, ops + [op], rest[j].key) == LastUse(c, ops, rest[j].key) <= |ops|
    {
      assert rest[j] in rest;
      LastUseBound(c, ops, rest[j].key);
    }
  }

  lemma SameOrdered(c: int, ops: seq<Op>, op: Op, list: seq<Item>)
    requires ByLastUse(c, ops, list)
    requires match op case Get(k) => Run(c, ops).capacity <= 0 || !Holds(Run(c, ops).list, k)
             case Put(_, _) => Run(c, ops).capacity <= 0 case _ => true
    ensures ByLastUse(c, ops + [op], list)
  {
    hide Run, Step;
    assert (ops + [op])[..|ops|] == ops;
    assert forall k :: LastUse(c, ops + [op], k) == LastUse(c, ops, k);
  }

  lemma {:induction false} RunOrdered(c: int, ops: seq<Op>)
    ensures ByLastUse(c, ops, Run(c, ops).list)
  {
    hide ByLastUse, Remove;
    if |ops| == 0 {
      assert ByLastUse(c, ops, []) by { NoneOrdered(c, ops); }
    } else {
      var init, op := ops[..|ops| - 1], ops[|ops| - 1];
      assert init + [op] == ops;
      RunOrdered(c, init);
      RunWellFormed(c, init);
      StepOrdered(c, init, op);
    }
  }

  lemma NoneOrdered(c: int, ops: seq<Op>)
    ensures ByLastUse(c, ops, [])
  {
  }

  lemma PrefixOrdered(c: int, ops: seq<Op>, list: seq<Item>, n: nat)
    requires ByLastUse(c, ops, list) && n <= |list|
    ensures ByLastUse(c, ops, list[..n])
  {
  }

  lemma StepOrdered(c: int, ops: seq<Op>, op: Op)
    requires ByLastUse(c, ops, Run(c, ops).list) && WellFormed(Run(c, ops))
    ensures ByLastUse(c, ops + [op], Step(Run(c, ops), op).list)
  {
    hide ByLastUse, Remove, Run, Lookup;
    var s := Run(c, ops);
    match op {
      case Get(k) =>
        if s.capacity > 0 && Holds(s.list, k) {
          RemoveOrdered(c, ops, s.list, k);
          RemoveMembers(s.list, k);
          UseOrdered(c, ops, op, Remove(s.list, k), Item(k, Lookup(s.list, k).value));
        } else {
          SameOrdered(c, ops, op, s.list);
        }
      case Put(k, v) =>
        if s.capacity <= 0 {
          SameOrdered(c, ops, op, s.list);
        } else if Holds(s.list, k) {
          RemoveOrdered(c, ops, s.list, k);
          RemoveMembers(s.list, k);
          UseOrdered(c, ops, op, Remove(s.list, k), Item(k, v));
        } else {
          LookupFinds(s.list, k);
          var n := if |s.list| >= s.capacity then |s.list| - 1 else |s.list|;
          PrefixOrdered(c, ops, s.list, n);
          assert s.list[..|s.list|] == s.list;
          UseOrdered(c, ops, op, s.list[..n], Item(k, v));
        }
      case Delete(k) =>
        RemoveOrdered(c, ops, s.list, k);
        SameOrdered(c, ops, op, Remove(s.list, k));
      case Clear => NoneOrdered(c, ops + [op]);
      case Resize(n) =>
        var m := |s.list| - if n > 0 && |s.list| > n then |s.list| - n else 0;
        PrefixOrdered(c, ops, s.list, m);
        SameOrdered(c, ops, op, s.list[..m]);
    }
  }

  /** A Put of a new key into a full cache drops exactly one entry: the one whose last Put
      or Get hit is oldest. */
  lemma EvictsOldest(c: int, ops: seq<Op>, k: Key, v: seq<byte>)
    requires var s := Run(c, ops); s.capacity > 0 && |s.list| >= s.capacity && !Holds(s.list, k)
    ensures var s, t := Run(c, ops), Step(Run(c, ops), Put(k, v)); var victim := s.list[|s.list| - 1];
      && t.list == [Item(k, v)] + s.list[..|s.list| - 1] && t.evicts == s.evicts + 1
      && !Holds(t.list, victim.key)
      && forall x | x in s.list && x != victim :: LastUse(c, ops, x.key) > LastUse(c, ops, victim.key)
  {
    hide LastUse;
    var s, t := Run(c, ops), Step(Run(c, ops), Put(k, v));
    RunOrdered(c, ops);
    RunWellFormed(c, ops);
    LookupFinds(s.list, k);
    LookupFinds(t.list, s.list[|s.list| - 1].key);
    forall x | x in s.list && x != s.list[|s.list| - 1]
      ensures LastUse(c, ops, x.key) > LastUse(c, ops, s.list[|s.list| - 1].key)
    {
      var i :| 0 <= i < |s.list| && s.list[i] == x;
    }
  }

  /** Resize evicts down to a positive capacity and no further; everything kept was used after
      everything dropped. */
  lemma ResizeExact(c: int, ops: seq<Op>, n: int)
    ensures var s, t := Run(c, ops), Step(Run(c, ops), Resize(n));
      && |t.list| == (if n > 0 && |s.list| > n then n else |s.list|)
      && t.evicts == s.evicts + |s.list| - |t.list|
      && t.capacity == n && t.hits == s.hits && t.misses == s.misses
      && (forall x | x in t.list :: x in s.list)
      && forall x, y | x in t.list && y in s.list && y !in t.list ::
           LastUse(c, ops, x.key) > LastUse(c, ops, y.key)
  {
    hide LastUse, Run;
    var s, t := Run(c, ops), Step(Run(c, ops), Resize(n));
    RunOrdered(c, ops);
    forall x, y | x in t.list && y in s.list && y !in t.list
      ensures LastUse(c, ops, x.key) > LastUse(c, ops, y.key)
    {
      var i, j := IndexOf(t.list, x), IndexOf(s.list, y);
      assert s.list[i] == x && j >= |t.list|;
    }
  }

  ghost function IndexOf(list: seq<Item>, x: Item): (i: nat)
    requires x in list
    ensures i < |list| && list[i] == x
  {
    var i: nat :| i < |list| && list[i] == x;
    i
  }

  // ---- What one call does ----

  ghost predicate Cached(s: State, k: Key) {
    exists x :: x in s.list && x.key == k
  }

  lemma CachedHolds(s: State, k: Key)
    ensures Cached(s, k) <==> Holds(s.list, k)
  {
    LookupFinds(s.list, k);
  }

  /** A Get is a hit exactly when the cache is enabled and has the key.  It then counts as one hit
      and brings the item to the front; otherwise it counts as one miss and changes nothing.
      No item is gained or lost. */
  lemma GetExact(c: int, ops: seq<Op>, k: Key)
    ensures var s := Run(c, ops); var (t, r) := GetStep(s, k);
      && (r.Some? <==> s.capacity > 0 && Cached(s, k))
      && (r.Some? ==> |t.list| > 0 && t.list[0] == Item(k, r.value) && t.list[0] in s.list)
      && (forall x :: x in t.list <==> x in s.list)
      && t == s.(list := t.list, hits := t.hits, misses := t.misses)
      && t.hits == s.hits + (if r.Some? then 1 else 0)
      && t.misses == s.misses + (if r.Some? then 0 else 1)
      && (r.None? ==> t.list == s.list)
  {
    hide Run;
    var s := Run(c, ops);
    RunWellFormed(c, ops);
    CachedHolds(s, k);
    LookupFinds(s.list, k);
    RemoveMembers(s.list, k);
    forall x | x in s.list && x.key == k ensures Lookup(s.list, k) == Some(x.value) { LookupMember(s.list, x); }
  }

  /** A Put into a disabled cache changes nothing.  Otherwise its item is in front, every item
      with another key stays unless a new key meets a full cache, and no read is counted. */
  lemma PutExact(c: int, ops: seq<Op>, k: Key, v: seq<byte>)
    ensures var s, t := Run(c, ops), Step(Run(c, ops), Put(k, v));
      if s.capacity <= 0 then t == s else
        && |t.list| > 0 && t.list[0] == Item(k, v)
        && t == s.(list := t.list, evicts := t.evicts)
        && (Cached(s, k) || |s.list| < s.capacity ==>
              t.evicts == s.evicts
              && forall x: Item | x.key != k :: x in t.list <==> x in s.list)
        && (forall x | x in t.list && x.key == k :: x == Item(k, v))
  {
    hide Run, LastUse;
    var s, t := Run(c, ops), Step(Run(c, ops), Put(k, v));
    RunWellFormed(c, ops);
    StepWellFormed(s, Put(k, v));
    CachedHolds(s, k);
    RemoveMembers(s.list, k);
    if s.capacity > 0 {
      LookupFinds(s.list, k);
    }
  }

  /** A Delete takes exactly the items with its key, a Clear all of them; nothing is counted. */
  lemma DeleteExact(c: int, ops: seq<Op>, k: Key)
    ensures var s, t, u := Run(c, ops), Step(Run(c, ops), Delete(k)), Step(Run(c, ops), Clear);
      && t == s.(list := t.list) && u == s.(list := u.list)
      && (forall x :: x in t.list <==> x in s.list && x.key != k)
      && forall x :: x !in u.list
  {
    hide Run;
    RunWellFormed(c, ops);
    RemoveMembers(Run(c, ops).list, k);
  }

  function Gets(ops: seq<Op>): nat {
    if |ops| == 0 then 0 else Gets(ops[..|ops| - 1]) + if ops[|ops| - 1].Get? then 1 else 0
  }

  /** Every Get is counted, once, as a hit or as a miss. */
  lemma {:induction false} EveryGetCounted(c: int, ops: seq<Op>)
    ensures Run(c, ops).hits + Run(c, ops).misses == Gets(ops)
  {
    if |ops| > 0 {
      var init := ops[..|ops| - 1];
      EveryGetCounted(c, init);
    }
  }
}
