/** Sorted sequences, the byte-wise order of keys, and sums over finite maps. */
module Order {
  import opened Bytes

  type Key = seq<byte>

  /** What a store, a batch or a cache stands for. */
  type Values = map<Key, seq<byte>>

  /** Go's `<` on strings: byte-wise lexicographic. */
  predicate KeyLess(a: Key, b: Key) {
    |b| > 0 && (|a| == 0 || a[0] < b[0] || (a[0] == b[0] && KeyLess(a[1..], b[1..])))
  }

  /** A proper prefix is below, and otherwise the first byte that differs decides. */
  lemma {:induction false} KeyLessMeaning(a: Key, b: Key)
    ensures KeyLess(a, b) <==>
      a < b || exists i :: 0 <= i < |a| && i < |b| && a[..i] == b[..i] && a[i] < b[i]
  {
    if |a| > 0 && |b| > 0 {
      if a[0] == b[0] {
        KeyLessMeaning(a[1..], b[1..]);
        assert a == [a[0]] + a[1..] && b == [b[0]] + b[1..];
        SameHead(a[0], a[1..], b[1..]);
      } else {
        SameStart(a, b);
        assert a[..0] == b[..0];
      }
    }
  }

  /** A byte in front of both keys moves the first difference by one. */
  lemma SameHead(x: byte, c: Key, d: Key)
    ensures [x] + c < [x] + d <==> c < d
    ensures (exists i :: 0 <= i < |c| && i < |d| && c[..i] == d[..i] && c[i] < d[i]) <==>
      var a, b := [x] + c, [x] + d; exists i :: 0 <= i < |a| && i < |b| && a[..i] == b[..i] && a[i] < b[i]
  {
    var a, b := [x] + c, [x] + d;
    assert a[1..] == c && b[1..] == d;
    if i :| 0 <= i < |c| && i < |d| && c[..i] == d[..i] && c[i] < d[i] {
      assert a[..i + 1] == [x] + c[..i] && b[..i + 1] == [x] + d[..i];
      assert a[i + 1] < b[i + 1];
    }
    if i :| 0 <= i < |a| && i < |b| && a[..i] == b[..i] && a[i] < b[i] {
      assert i > 0;
      assert c[..i - 1] == a[..i][1..] && d[..i - 1] == b[..i][1..];
      assert c[i - 1] < d[i - 1];
    }
  }

  lemma SameStart(a: Key, b: Key)
    requires |a| > 0 && |b| > 0
    ensures a < b ==> a[0] == b[0]
    ensures forall i :: 0 < i < |a| && i < |b| && a[..i] == b[..i] ==> a[0] == b[0]
  {
    forall i | 0 < i < |a| && i < |b| ensures a[..i] == b[..i] ==> a[0] == b[0] {
      assert a[..i][0] == a[0] && b[..i][0] == b[0];
    }
  }

  predicate IdLess(a: int, b: int) { a < b }

  ghost predicate StrictTotal<T(!new)>(less: (T, T) -> bool) {
    && (forall a :: !less(a, a))
    && (forall a, b :: a == b || less(a, b) || less(b, a))
    && (forall a, b, c :: less(a, b) && less(b, c) ==> less(a, c))
  }

  lemma {:induction false} KeyLessIrreflexive(a: Key)
    ensures !KeyLess(a, a)
  {
    if |a| > 0 { KeyLessIrreflexive(a[1..]); }
  }

  lemma {:induction false} KeyLessTotal(a: Key, b: Key)
    ensures a == b || KeyLess(a, b) || KeyLess(b, a)
  {
    if |a| > 0 && |b| > 0 && a[0] == b[0] {
      KeyLessTotal(a[1..], b[1..]);
      if a[1..] == b[1..] {
        assert a == [a[0]] + a[1..] && b == [b[0]] + b[1..];
      }
    }
  }

  lemma {:induction false} KeyLessTransitive(a: Key, b: Key, c: Key)
    requires KeyLess(a, b) && KeyLess(b, c)
    ensures KeyLess(a, c)
  {
    if |a| > 0 && a[0] == b[0] == c[0] {
      KeyLessTransitive(a[1..], b[1..], c[1..]);
    }
  }

  lemma KeyOrder()
    ensures StrictTotal(KeyLess)
  {
    forall a { KeyLessIrreflexive(a); }
    forall a, b ensures a == b || KeyLess(a, b) || KeyLess(b, a) { KeyLessTotal(a, b); }
    forall a, b, c | KeyLess(a, b) && KeyLess(b, c) ensures KeyLess(a, c) { KeyLessTransitive(a, b, c); }
  }

  lemma IdOrder()
    ensures StrictTotal(IdLess)
  {
  }

  // ---- Sorted sequences ----

  ghost predicate SortedBy<T>(less: (T, T) -> bool, s: seq<T>) {
    forall i, j | 0 <= i < j < |s| :: less(s[i], s[j])
  }

  function Elements<T>(s: seq<T>): (r: set<T>)
    ensures r == {} <==> s == []
  {
    var r := set x | x in s;
    assert |s| > 0 ==> s[0] in r;
    r
  }

  ghost function Pick<T>(s: set<T>): (x: T)
    requires s != {}
    ensures x in s
  {
    var x :| x in s;
    x
  }

  /** Insert x before the first element above it. */
  function Insert<T(!new)>(less: (T, T) -> bool, x: T, s: seq<T>): (r: seq<T>)
    ensures |r| == |s| + 1
    ensures forall y :: y in r <==> y == x || y in s
  {
    if |s| == 0 || less(x, s[0]) then [x] + s else [s[0]] + Insert(less, x, s[1..])
  }

  lemma {:induction false} InsertSorted<T(!new)>(less: (T, T) -> bool, x: T, s: seq<T>)
    requires StrictTotal(less) && SortedBy(less, s) && x !in s
    ensures SortedBy(less, Insert(less, x, s))
  {
    if |s| > 0 && !less(x, s[0]) {
      InsertSorted(less, x, s[1..]);
      var r := Insert(less, x, s[1..]);
      forall j | 0 <= j < |r| ensures less(s[0], r[j]) {
        assert r[j] == x || r[j] in s[1..];
      }
    }
  }

  lemma InsertElements<T(!new)>(less: (T, T) -> bool, x: T, s: seq<T>)
    ensures Elements(Insert(less, x, s)) == Elements(s) + {x}
  {
  }

  /** The elements of a set in ascending order. */
  ghost function Sorted<T(!new)>(less: (T, T) -> bool, s: set<T>): (r: seq<T>)
    requires StrictTotal(less)
    ensures SortedBy(less, r) && Elements(r) == s
  {
    if s == {} then [] else
    var x :| x in s;
    var r := Sorted(less, s - {x});
    assert x !in Elements(r);
    InsertSorted(less, x, r);
    InsertElements(less, x, r);
    Insert(less, x, r)
  }

  /** There is only one way to list a set in ascending order. */
  lemma {:induction false} SortedUnique<T(!new)>(less: (T, T) -> bool, a: seq<T>, b: seq<T>)
    requires StrictTotal(less) && SortedBy(less, a) && SortedBy(less, b)
    requires Elements(a) == Elements(b)
    ensures a == b
  {
    if |a| > 0 {
      assert a[0] in Elements(b);
      assert b[0] in Elements(a);
      assert a[0] == b[0];
      forall x ensures x in a[1..] <==> x in b[1..] {
        if x in a[1..] { assert x in Elements(b) && x != a[0]; }
        if x in b[1..] { assert x in Elements(a) && x != b[0]; }
      }
      SortedUnique(less, a[1..], b[1..]);
      assert a == [a[0]] + a[1..] && b == [b[0]] + b[1..];
    }
  }

  lemma SortedOf<T(!new)>(less: (T, T) -> bool, a: seq<T>)
    requires StrictTotal(less) && SortedBy(less, a)
    ensures Sorted(less, Elements(a)) == a
  {
    SortedUnique(less, Sorted(less, Elements(a)), a);
  }

  /** A new greatest element goes last. */
  lemma SortedAppend<T(!new)>(less: (T, T) -> bool, s: set<T>, x: T)
    requires StrictTotal(less) && forall y | y in s :: less(y, x)
    ensures Sorted(less, s + {x}) == Sorted(less, s) + [x]
  {
    var r := Sorted(less, s) + [x];
    forall i | 0 <= i < |r| - 1 ensures less(r[i], x) {
      assert r[i] in Elements(Sorted(less, s));
    }
    assert Elements(r) == Elements(Sorted(less, s)) + {x};
    SortedOf(less, r);
  }

  ghost function SortedKeys(s: set<Key>): (r: seq<Key>)
    ensures SortedBy(KeyLess, r) && Elements(r) == s
    ensures forall k :: k in r <==> k in s
  {
    KeyOrder();
    var r := Sorted(KeyLess, s);
    assert forall k :: k in r <==> k in Elements(r);
    r
  }

  ghost function SortedIDs(s: set<int>): (r: seq<int>)
    ensures SortedBy(IdLess, r) && Elements(r) == s
    ensures forall id :: id in r <==> id in s
  {
    var r := Sorted(IdLess, s);
    assert forall id :: id in r <==> id in Elements(r);
    r
  }

  /** sort.Strings and sort.Slice on distinct elements. */
  method Sort<T(!new)>(less: (T, T) -> bool, a: seq<T>) returns (r: seq<T>)
    requires StrictTotal(less)
    requires Distinct(a)
    ensures r == Sorted(less, Elements(a))
  {
    r := [];
    for i := 0 to |a|
      invariant SortedBy(less, r) && Elements(r) == Elements(a[..i])
    {
      assert a[i] !in Elements(a[..i]);
      assert a[i] !in Elements(r);
      InsertSorted(less, a[i], r);
      InsertElements(less, a[i], r);
      assert a[..i + 1] == a[..i] + [a[i]];
      r := Insert(less, a[i], r);
      assert Elements(a[..i + 1]) == Elements(a[..i]) + {a[i]};
    }
    assert a[..|a|] == a;
    SortedOf(less, r);
  }

  lemma SortedKeysUnique(ks: seq<Key>, s: set<Key>)
    requires SortedBy(KeyLess, ks) && forall k :: k in ks <==> k in s
    ensures ks == SortedKeys(s)
  {
    hide KeyLess, StrictTotal, SortedBy;
    assert Elements(ks) == s;
    KeyOrder();
    SortedOf(KeyLess, ks);
  }

  predicate Distinct<T(==)>(a: seq<T>) {
    forall i, j | 0 <= i < j < |a| :: a[i] != a[j]
  }

  /** No two elements have the same key. */
  predicate DistinctBy<T, K(==)>(a: seq<T>, key: T -> K) {
    forall i, j | 0 <= i < j < |a| :: key(a[i]) != key(a[j])
  }

  method SortStrings(a: seq<Key>) returns (r: seq<Key>)
    requires Distinct(a)
    ensures r == SortedKeys(Elements(a))
  {
    hide KeyLess, StrictTotal;
    KeyOrder();
    r := Sort(KeyLess, a);
  }

  method SortIDs(a: seq<int>) returns (r: seq<int>)
    requires Distinct(a)
    ensures r == SortedIDs(Elements(a))
  {
    hide StrictTotal;
    IdOrder();
    r := Sort(IdLess, a);
  }

  /** A sorted listing has one entry per element. */
  lemma SortedKeysLength(s: set<Key>)
    ensures |SortedKeys(s)| == |s| && Distinct(SortedKeys(s))
  {
    hide StrictTotal;
    KeyOrder();
    var ks := SortedKeys(s);
    assert forall i, j | 0 <= i < j < |ks| :: ks[i] != ks[j] by {
      forall i, j | 0 <= i < j < |ks| ensures ks[i] != ks[j] {
        KeyLessIrreflexive(ks[i]);
      }
    }
    DistinctLength(ks);
  }

  lemma {:induction false} DistinctLength<T>(a: seq<T>)
    requires Distinct(a)
    ensures |Elements(a)| == |a|
  {
    if |a| > 0 {
      DistinctLength(a[1..]);
      assert a[0] !in Elements(a[1..]);
      assert Elements(a) == {a[0]} + Elements(a[1..]);
    }
  }

  /** The elements of a sequence that satisfy a test, in order. */
  function Filter<T>(s: seq<T>, keep: T -> bool): seq<T> {
    if |s| == 0 then [] else
    Filter(s[..|s| - 1], keep) + if keep(s[|s| - 1]) then [s[|s| - 1]] else []
  }

  lemma {:induction false} FilterElements<T>(s: seq<T>, keep: T -> bool, x: T)
    ensures x in Filter(s, keep) <==> x in s && keep(x)
  {
    if |s| > 0 {
      FilterElements(s[..|s| - 1], keep, x);
      assert s == s[..|s| - 1] + [s[|s| - 1]];
    }
  }

  lemma {:induction false} FilterSorted<T>(less: (T, T) -> bool, s: seq<T>, keep: T -> bool)
    requires SortedBy(less, s)
    ensures SortedBy(less, Filter(s, keep))
  {
    if |s| > 0 {
      var n := |s| - 1;
      FilterSorted(less, s[..n], keep);
      var r := Filter(s[..n], keep);
      forall i | 0 <= i < |r| ensures less(r[i], s[n]) {
        FilterElements(s[..n], keep, r[i]);
      }
    }
  }

  /** a is b with some elements left out. */
  predicate Sub<T(==)>(a: seq<T>, b: seq<T>) {
    |a| == 0 || (|b| > 0 && ((a[0] == b[0] && Sub(a[1..], b[1..])) || Sub(a, b[1..])))
  }

  // ---- Sums ----

  ghost function Sum<K(!new)>(m: map<K, nat>): (n: nat)
    decreases |m|
  {
    if m == map[] then 0 else
    var k :| k in m;
    assert |(m - {k}).Keys| < |m.Keys| by { assert (m - {k}).Keys == m.Keys - {k}; }
    m[k] + Sum(m - {k})
  }

  lemma {:induction false} SumRemove<K(!new)>(m: map<K, nat>, k: K)
    requires k in m
    ensures Sum(m) == m[k] + Sum(m - {k})
    decreases |m|
  {
    var j :| j in m && Sum(m) == m[j] + Sum(m - {j});
    assert |(m - {j}).Keys| < |m.Keys| && |(m - {k}).Keys| < |m.Keys| by {
      assert (m - {j}).Keys == m.Keys - {j} && (m - {k}).Keys == m.Keys - {k};
    }
    if j != k {
      SumRemove(m - {j}, k);
      SumRemove(m - {k}, j);
      assert m - {j} - {k} == m - {k} - {j};
    }
  }

  lemma SumPut<K(!new)>(m: map<K, nat>, k: K, v: nat)
    ensures Sum(m[k := v]) == Sum(m) + v - if k in m then m[k] else 0
  {
    SumRemove(m[k := v], k);
    if k in m {
      SumRemove(m, k);
      assert m[k := v] - {k} == m - {k};
    } else {
      assert m[k := v] - {k} == m;
    }
  }
}
