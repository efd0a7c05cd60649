/** LRU inclusion: a larger cache holds whatever a smaller one holds. */
module CacheInclusion {
  import opened Bytes
  import opened Order
  import opened Cache
  import opened CacheLaws

  lemma {:induction false} SubLength(a: seq<Item>, b: seq<Item>)
    requires Sub(a, b)
    ensures |a| <= |b|
  {
    if |a| > 0 {
      if a[0] == b[0] && Sub(a[1..], b[1..]) {
        SubLength(a[1..], b[1..]);
      } else {
        SubLength(a, b[1..]);
      }
    }
  }

  lemma {:induction false} SubMember(a: seq<Item>, b: seq<Item>, x: Item)
    requires Sub(a, b) && x in a
    ensures x in b
  {
    if a[0] == b[0] && Sub(a[1..], b[1..]) {
      if x != a[0] { SubMember(a[1..], b[1..], x); }
    } else {
      SubMember(a, b[1..], x);
    }
  }

  lemma SubLookup(a: seq<Item>, b: seq<Item>, k: Key)
    requires Sub(a, b) && DistinctKeys(b) && Holds(a, k)
    ensures Lookup(b, k) == Lookup(a, k)
  {
    LookupFinds(a, k);
    SubMember(a, b, Item(k, Lookup(a, k).value));
    LookupMember(b, Item(k, Lookup(a, k).value));
  }

  lemma {:induction false} SubRemove(a: seq<Item>, b: seq<Item>, k: Key)
    requires Sub(a, b) && DistinctKeys(a) && DistinctKeys(b)
    ensures Sub(Remove(a, k), Remove(b, k))
    decreases |a| + |b|
  {
    if |a| > 0 {
      if a[0] == b[0] && Sub(a[1..], b[1..]) {
        SubRemove(a[1..], b[1..], k);
      } else {
        SubRemove(a, b[1..], k);
        if b[0].key == k {
          SubWithout(a, b[1..], k);
        }
      }
    }
  }

  /** When the larger list no longer has k, neither has the smaller. */
  lemma SubWithout(a: seq<Item>, b: seq<Item>, k: Key)
    requires Sub(a, b) && forall x | x in b :: x.key != k
    requires DistinctKeys(a)
    ensures Sub(Remove(a, k), b)
  {
    if Holds(a, k) {
      LookupFinds(a, k);
      SubMember(a, b, Item(k, Lookup(a, k).value));
      assert false;
    } else {
      LookupFinds(a, k);
      RemoveNothing(a, k);
    }
  }

  lemma {:induction false} RemoveNothing(a: seq<Item>, k: Key)
    requires forall x | x in a :: x.key != k
    ensures Remove(a, k) == a
  {
    if |a| > 0 { RemoveNothing(a[1..], k); }
  }

  /** Dropping the last entry of the smaller list, or of both. */
  lemma {:induction false} SubDropLast(a: seq<Item>, b: seq<Item>)
    requires Sub(a, b) && |a| > 0
    ensures Sub(a[..|a| - 1], b) && Sub(a[..|a| - 1], b[..|b| - 1])
    decreases |b|
  {
    SubLength(a, b);
    if a[0] == b[0] && Sub(a[1..], b[1..]) {
      if |a| > 1 {
        SubDropLast(a[1..], b[1..]);
        assert a[..|a| - 1][1..] == a[1..][..|a| - 2];
        SubLength(a[1..], b[1..]);
        assert b[..|b| - 1][1..] == b[1..][..|b| - 2];
      }
    } else {
      SubDropLast(a, b[1..]);
      SubLength(a, b[1..]);
      assert b[..|b| - 1][1..] == b[1..][..|b| - 2];
      if |a| > 1 {
        assert a[..|a| - 1] != [];
      }
    }
  }

  predicate NoResize(ops: seq<Op>) {
    forall op | op in ops :: !op.Resize?
  }

  /** The invariant of two caches run side by side.  The larger one is never closer to full. */
  predicate Included(s: State, t: State) {
    && s.capacity <= t.capacity
    && WellFormed(s) && WellFormed(t)
    && Sub(s.list, t.list)
    && s.hits <= t.hits
    && (s.capacity <= 0 ==> s.list == [])
    && (s.capacity > 0 ==> s.capacity - |s.list| <= t.capacity - |t.list|)
  }

  lemma GetIncluded(s: State, t: State, k: Key)
    requires Included(s, t)
    ensures Included(GetStep(s, k).0, GetStep(t, k).0)
    ensures GetStep(s, k).1.Some? ==> GetStep(t, k).1 == GetStep(s, k).1
  {
    StepWellFormed(s, Get(k));
    StepWellFormed(t, Get(k));
    SubRemove(s.list, t.list, k);
    if s.capacity > 0 && Holds(s.list, k) {
      SubLookup(s.list, t.list, k);
    } else if t.capacity > 0 && Holds(t.list, k) {
      LookupFinds(s.list, k);
      RemoveNothing(s.list, k);
    }
  }

  lemma PutIncluded(s: State, t: State, k: Key, v: seq<byte>)
    requires Included(s, t)
    ensures Included(PutStep(s, k, v), PutStep(t, k, v))
  {
    StepWellFormed(s, Put(k, v));
    StepWellFormed(t, Put(k, v));
    if s.capacity > 0 {
      SubRemove(s.list, t.list, k);
      if Holds(s.list, k) {
        SubLookup(s.list, t.list, k);
      } else {
        PutNewIncluded(s, t, k, v);
      }
    }
  }

  lemma PutNewIncluded(s: State, t: State, k: Key, v: seq<byte>)
    requires Included(s, t) && s.capacity > 0 && !Holds(s.list, k)
    ensures Sub(PutStep(s, k, v).list, PutStep(t, k, v).list)
    ensures s.capacity - |PutStep(s, k, v).list| <= t.capacity - |PutStep(t, k, v).list|
  {
    var a := if |s.list| >= s.capacity then s.list[..|s.list| - 1] else s.list;
    LookupFinds(s.list, k);
    RemoveNothing(s.list, k);
    SubRemove(s.list, t.list, k);
    if Holds(t.list, k) {
      if |s.list| >= s.capacity { SubDropLast(s.list, Remove(t.list, k)); }
      assert Sub(a, Remove(t.list, k));
    } else {
      if |s.list| >= s.capacity { SubDropLast(s.list, t.list); }
      var b := if |t.list| >= t.capacity then t.list[..|t.list| - 1] else t.list;
      assert Sub(a, b);
    }
  }

  lemma StepIncluded(s: State, t: State, op: Op)
    requires Included(s, t) && !op.Resize?
    ensures Included(Step(s, op), Step(t, op))
  {
    match op {
      case Get(k) => GetIncluded(s, t, k);
      case Put(k, v) => PutIncluded(s, t, k, v);
      case Delete(k) =>
        StepWellFormed(s, op);
        StepWellFormed(t, op);
        SubRemove(s.list, t.list, k);
        if Holds(s.list, k) { SubLookup(s.list, t.list, k); }
      case Clear =>
    }
  }

  lemma {:induction false} RunIncluded(c: int, d: int, ops: seq<Op>)
    requires c <= d && NoResize(ops)
    ensures Included(Run(c, ops), Run(d, ops))
  {
    if |ops| > 0 {
      var init := ops[..|ops| - 1];
      assert NoResize(init) by { assert forall op | op in init :: op in ops; }
      RunIncluded(c, d, init);
      StepIncluded(Run(c, init), Run(d, init), ops[|ops| - 1]);
    }
  }

  /** Two caches of capacities c <= d driven by the same Gets, Puts, Deletes and Clears: the
      smaller one's entries are a subsequence of the larger one's, in recency order and with
      the same values, and it never has more hits. */
  lemma Inclusion(c: int, d: int, ops: seq<Op>)
    requires c <= d && NoResize(ops)
    ensures var s, t := Run(c, ops), Run(d, ops);
      && Sub(s.list, t.list) && s.hits <= t.hits
      && forall k | Holds(s.list, k) :: Lookup(t.list, k) == Lookup(s.list, k)
  {
    RunIncluded(c, d, ops);
    var s, t := Run(c, ops), Run(d, ops);
    forall k | Holds(s.list, k) ensures Lookup(t.list, k) == Lookup(s.list, k) {
      SubLookup(s.list, t.list, k);
    }
  }
}
