/** internal/cache/cache.go: the LRU cache as a list of entries, most recent first. */
module Cache {
  import opened Bytes
  import opened Order

  datatype Item = Item(key: Key, value: seq<byte>)

  datatype State = State(capacity: int, list: seq<Item>, hits: nat, misses: nat, evicts: nat)

  datatype Op =
    | Get(key: Key)
    | Put(key: Key, value: seq<byte>)
    | Delete(key: Key)
    | Clear
    | Resize(capacity: int)

  function Lookup(list: seq<Item>, k: Key): Option<seq<byte>> {
    if |list| == 0 then None else if list[0].key == k then Some(list[0].value) else Lookup(list[1..], k)
  }

  function Remove(list: seq<Item>, k: Key): (r: seq<Item>)
    ensures |r| == if Lookup(list, k).Some? then |list| - 1 else |list|
  {
    if |list| == 0 then [] else if list[0].key == k then list[1..] else [list[0]] + Remove(list[1..], k)
  }

  function Touch(list: seq<Item>, k: Key, v: seq<byte>): seq<Item> {
    [Item(k, v)] + Remove(list, k)
  }

  function GetStep(s: State, k: Key): (State, Option<seq<byte>>) {
    if s.capacity <= 0 || Lookup(s.list, k).None? then (s.(misses := s.misses + 1), None) else
    var v := Lookup(s.list, k).value;
    (s.(list := Touch(s.list, k, v), hits := s.hits + 1), Some(v))
  }

  function EvictStep(s: State): State {
    if |s.list| == 0 then s else s.(list := s.list[..|s.list| - 1], evicts := s.evicts + 1)
  }

  function PutStep(s: State, k: Key, v: seq<byte>): State {
    if s.capacity <= 0 then s else
    if Lookup(s.list, k).Some? then s.(list := Touch(s.list, k, v)) else
    var t := if |s.list| >= s.capacity then EvictStep(s) else s;
    t.(list := [Item(k, v)] + t.list)
  }

  function ResizeStep(s: State, n: int): State {
    var excess := if n > 0 && |s.list| > n then |s.list| - n else 0;
    s.(capacity := n, list := s.list[..|s.list| - excess], evicts := s.evicts + excess)
  }

  function Step(s: State, op: Op): State {
    match op
    case Get(k) => GetStep(s, k).0
    case Put(k, v) => PutStep(s, k, v)
    case Delete(k) => s.(list := Remove(s.list, k))
    case Clear => s.(list := [])
    case Resize(n) => ResizeStep(s, n)
  }

  // ---- The cache object ----

  class Element {
    const key: Key
    var value: seq<byte>

    constructor (key: Key, value: seq<byte>)
      ensures this.key == key && this.value == value
    {
      this.key, this.value := key, value;
    }
  }

  function Items(ll: seq<Element>): (r: seq<Item>)
    reads ll
    ensures |r| == |ll|
  {
    if |ll| == 0 then [] else [Item(ll[0].key, ll[0].value)] + Items(ll[1..])
  }

  lemma ItemsCons(e: Element, rest: seq<Element>)
    ensures Items([e] + rest) == [Item(e.key, e.value)] + Items(rest)
  {
  }

  lemma {:induction false} ItemsLast(ll: seq<Element>)
    requires |ll| > 0
    ensures Items(ll)[..|ll| - 1] == Items(ll[..|ll| - 1])
  {
    if |ll| > 1 {
      ItemsLast(ll[1..]);
      assert ll[1..][..|ll| - 2] == ll[..|ll| - 1][1..];
    }
  }

  /** The list without one element, as list.Remove leaves it. */
  function Unlink(ll: seq<Element>, e: Element): (r: seq<Element>)
    ensures forall x | x in r :: x in ll
  {
    if |ll| == 0 then [] else if ll[0] == e then ll[1..] else [ll[0]] + Unlink(ll[1..], e)
  }

  lemma {:induction false} UnlinkMembers(ll: seq<Element>, e: Element)
    requires Distinct(ll) && e in ll
    ensures e !in Unlink(ll, e) && Distinct(Unlink(ll, e)) && forall x | x in ll && x != e :: x in Unlink(ll, e)
  {
    if ll[0] != e {
      UnlinkMembers(ll[1..], e);
      assert ll[0] !in ll[1..];
    }
  }

  lemma {:induction false} UnlinkLast(ll: seq<Element>)
    requires Distinct(ll) && |ll| > 0
    ensures Unlink(ll, ll[|ll| - 1]) == ll[..|ll| - 1]
  {
    if |ll| > 1 {
      UnlinkLast(ll[1..]);
      assert ll[1..][..|ll| - 2] == ll[..|ll| - 1][1..];
    }
  }

  /** An element that is the only one with its key is what a search for the key finds. */
  lemma {:induction false} ItemsUnlink(ll: seq<Element>, e: Element)
    requires e in ll && forall x | x in ll && x.key == e.key :: x == e
    ensures Lookup(Items(ll), e.key) == Some(e.value) && Remove(Items(ll), e.key) == Items(Unlink(ll, e))
  {
    if ll[0] != e {
      ItemsUnlink(ll[1..], e);
      assert Items(ll)[1..] == Items(ll[1..]);
    }
  }

  lemma {:induction false} ItemsMissing(ll: seq<Element>, k: Key)
    requires forall x | x in ll :: x.key != k
    ensures Lookup(Items(ll), k) == None && Remove(Items(ll), k) == Items(ll)
  {
    if |ll| > 0 {
      ItemsMissing(ll[1..], k);
    }
  }

  class LRU {
    var capacity: int
    var ll: seq<Element>            // front first
    var items: map<Key, Element>
    var hits: nat
    var misses: nat
    var evicts: nat

    ghost predicate Valid()
      reads this
    {
      && Distinct(ll)
      && (forall e | e in ll :: e.key in items && items[e.key] == e)
      && (forall k | k in items :: items[k].key == k && items[k] in ll)
    }

    function View(): State
      reads this, ll
    {
      State(capacity, Items(ll), hits, misses, evicts)
    }

    constructor (capacity: int)
      ensures Valid() && View() == State(capacity, [], 0, 0, 0)
    {
      this.capacity, ll, items, hits, misses, evicts := capacity, [], map[], 0, 0, 0;
    }

    /** A key the map holds is in the list, once, with the value of its element. */
    lemma Present(k: Key)
      requires Valid() && k in items
      ensures Lookup(Items(ll), k) == Some(items[k].value)
      ensures Remove(Items(ll), k) == Items(Unlink(ll, items[k]))
      ensures items[k] in ll && items[k] !in Unlink(ll, items[k]) && Distinct(Unlink(ll, items[k]))
      ensures forall x :: x in Unlink(ll, items[k]) <==> x in ll && x != items[k]
    {
      UnlinkMembers(ll, items[k]);
      ItemsUnlink(ll, items[k]);
    }

    /** A key the map does not hold is not in the list. */
    lemma Missing(k: Key)
      requires Valid() && k !in items
      ensures Lookup(Items(ll), k) == None && Remove(Items(ll), k) == Items(ll)
    {
      ItemsMissing(ll, k);
    }

    method MoveToFront(e: Element)
      requires Valid() && e.key in items && items[e.key] == e
      modifies this`ll
      ensures Valid() && ll == [e] + Unlink(old(ll), e) && e !in ll[1..]
      ensures Items(ll) == Touch(old(Items(ll)), e.key, e.value)
    {
      Present(e.key);
      ll := [e] + Unlink(ll, e);
    }

    method Get(k: Key) returns (r: Option<seq<byte>>)
      requires Valid()
      modifies this
      ensures Valid() && (View(), r) == GetStep(old(View()), k)
    {
      hide Items, Lookup, Remove, Unlink, Distinct, Touch;
      if capacity <= 0 {
        misses := misses + 1;
        return None;
      }
      if k !in items {
        Missing(k);
        misses := misses + 1;
        return None;
      }
      Present(k);
      var e := items[k];
      MoveToFront(e);
      hits := hits + 1;
      return Some(e.value);
    }

    method RemoveElement(e: Element)
      requires Valid() && e.key in items && items[e.key] == e
      modifies this`ll, this`items
      ensures Valid() && Items(ll) == Remove(old(Items(ll)), e.key) && items == old(items) - {e.key}
      ensures ll == Unlink(old(ll), e)
    {
      Present(e.key);
      ll := Unlink(ll, e);
      items := items - {e.key};
    }

    method EvictOldest()
      requires Valid()
      modifies this`ll, this`items, this`evicts
      ensures Valid() && View() == EvictStep(old(View()))
      ensures forall k | k in items :: k in old(items)
      ensures forall e | e in ll :: e in old(ll)
    {
      hide Items, Lookup, Remove, Unlink, Distinct;
      if |ll| == 0 {
        return;
      }
      var tail := ll[|ll| - 1];
      assert tail in ll;
      UnlinkLast(ll);
      ItemsLast(ll);
      RemoveElement(tail);
      evicts := evicts + 1;
    }

    method SetFront(value: seq<byte>)
      requires Valid() && |ll| > 0 && ll[0] !in ll[1..]
      modifies ll[0]
      ensures Valid() && Items(ll) == [Item(ll[0].key, value)] + old(Items(ll))[1..]
    {
      assert ll == [ll[0]] + ll[1..];
      ItemsCons(ll[0], ll[1..]);
      ll[0].value := value;
      ItemsCons(ll[0], ll[1..]);
    }

    method Put(k: Key, value: seq<byte>)
      requires Valid()
      modifies this, ll
      ensures Valid() && View() == PutStep(old(View()), k, value)
    {
      hide Items, Lookup, Remove, Unlink, Distinct;
      if capacity <= 0 {
        return;
      }
      if k in items {
        Present(k);
        var e := items[k];
        MoveToFront(e);
        SetFront(value);
        return;
      }
      Missing(k);
      if |ll| >= capacity {
        EvictOldest();
      }
      var e := new Element(k, value);
      PushFront(e);
    }

    method PushFront(e: Element)
      requires Valid() && e !in ll && e.key !in items
      modifies this`ll, this`items
      ensures Valid() && Items(ll) == [Item(e.key, e.value)] + old(Items(ll))
    {
      ItemsCons(e, ll);
      ll := [e] + ll;
      items := items[e.key := e];
    }

    method Delete(k: Key)
      requires Valid()
      modifies this
      ensures Valid() && View() == Step(old(View()), Op.Delete(k))
    {
      if k !in items {
        Missing(k);
        return;
      }
      RemoveElement(items[k]);
    }

    method Clear()
      modifies this
      ensures Valid() && View() == Step(old(View()), Op.Clear)
    {
      ll := [];
      items := map[];
    }

    method Resize(newCap: int)
      requires Valid()
      modifies this
      ensures Valid() && View() == ResizeStep(old(View()), newCap)
    {
      ghost var before := View();
      capacity := newCap;
      while |ll| > capacity && capacity > 0
        invariant Valid() && capacity == newCap && |ll| <= |before.list|
        invariant newCap > 0 && |before.list| > newCap ==> |ll| >= newCap
        invariant !(newCap > 0 && |before.list| > newCap) ==> |ll| == |before.list|
        invariant View() == before.(
          capacity := newCap, list := before.list[..|ll|], evicts := before.evicts + |before.list| - |ll|)
        decreases |ll|
      {
        EvictOldest();
      }
    }
  }
}
