/** internal/store/iter.go: sorted iteration over the live keys. */
module Iter {
  import opened Bytes
  import opened Order
  import opened KeyIndex
  import opened StoreModel
  import S = Store

  /** The keys a loop over Valid, Key and Next sees from a position on. */
  function Visited(entries: seq<Key>, pos: nat): seq<Key>
    decreases |entries| - pos
  {
    if pos >= |entries| then [] else [entries[pos]] + Visited(entries, pos + 1)
  }

  /** The first entry not below the target. */
  ghost predicate IsSeekPos(entries: seq<Key>, target: Key, pos: nat) {
    && pos <= |entries|
    && (forall i | 0 <= i < pos :: KeyLess(entries[i], target))
    && (forall i | pos <= i < |entries| :: !KeyLess(entries[i], target))
  }

  function LiveFrom(m: Table, target: Key): set<Key> {
    set k | k in LiveSet(m) && !KeyLess(k, target)
  }

  function LiveBetween(m: Table, start: Key, end: Key): set<Key> {
    set k | k in LiveSet(m) && !KeyLess(k, start) && KeyLess(k, end)
  }

  lemma AllBelow(entries: seq<Key>, h: nat, target: Key)
    requires SortedBy(KeyLess, entries) && h < |entries| && KeyLess(entries[h], target)
    ensures forall x | 0 <= x <= h :: KeyLess(entries[x], target)
  {
    hide KeyLess;
    forall x | 0 <= x < h ensures KeyLess(entries[x], target) {
      KeyLessTransitive(entries[x], entries[h], target);
    }
  }

  lemma NoneBelow(entries: seq<Key>, h: nat, target: Key)
    requires SortedBy(KeyLess, entries) && h < |entries| && !KeyLess(entries[h], target)
    ensures forall x | h <= x < |entries| :: !KeyLess(entries[x], target)
  {
    hide KeyLess;
    forall x | h < x < |entries| ensures !KeyLess(entries[x], target) {
      if KeyLess(entries[x], target) { KeyLessTransitive(entries[h], entries[x], target); }
    }
  }

  class Iterator {
    const store: S.Store
    const entries: seq<KeyLocation>
    var pos: nat
    var err: Option<StoreError>

    function Keys(): seq<Key> {
      KeysOf(entries)
    }

    constructor (store: S.Store, entries: seq<KeyLocation>)
      ensures this.store == store && this.entries == entries && pos == 0 && err == None
    {
      this.store, this.entries, pos, err := store, entries, 0, None;
    }

    predicate Valid()
      reads this
    {
      pos < |entries| && err == None
    }

    method Next()
      modifies this`pos
      ensures pos == old(pos) + 1
    {
      pos := pos + 1;
    }

    function CurrentKey(): Key
      reads this
    {
      if Valid() then entries[pos].key else []
    }

    method Rewind()
      modifies this`pos, this`err
      ensures pos == 0 && err == None
    {
      pos, err := 0, None;
    }

    /** A deleted key yields no value; a read error sticks and ends the iteration. */
    method Value() returns (r: Reply)
      requires store.Valid()
      modifies this`err
      ensures WellFormed(store.View())
      ensures r == if old(Valid()) then GetReply(store.View(), old(CurrentKey())) else Failed(Closed)
      ensures err == if old(Valid()) && r.Failed? then Some(r.error) else old(err)
    {
      store.Opened();
      if !Valid() {
        return Failed(Closed);
      }
      r := store.Get(entries[pos].key);
      if r.Failed? {
        err := Some(r.error);
      }
    }

    /** sort.Search over the entries. */
    method Seek(target: Key)
      requires SortedBy(KeyLess, Keys())
      modifies this`pos, this`err
      ensures err == None && IsSeekPos(Keys(), target, pos)
    {
      hide KeyLess, SortedBy;
      ghost var ks := Keys();
      var i, j := 0, |entries|;
      while i < j
        invariant 0 <= i <= j <= |entries|
        invariant forall x | 0 <= x < i :: KeyLess(ks[x], target)
        invariant forall x | j <= x < |entries| :: !KeyLess(ks[x], target)
      {
        var h := (i + j) / 2;
        if KeyLess(entries[h].key, target) {
          AllBelow(ks, h, target);
          i := h + 1;
        } else {
          NoneBelow(ks, h, target);
          j := h;
        }
      }
      pos, err := i, None;
    }
  }

  /** The loop over Valid, Key and Next. */
  method Walk(it: Iterator) returns (seen: seq<Key>)
    modifies it`pos
    ensures seen == if it.err == None then Visited(it.Keys(), old(it.pos)) else []
    ensures !it.Valid()
  {
    seen := [];
    while it.Valid()
      invariant it.err == None ==> seen + Visited(it.Keys(), it.pos) == Visited(it.Keys(), old(it.pos))
      invariant it.err != None ==> seen == []
      decreases |it.entries| - it.pos
    {
      var k := it.CurrentKey();
      assert Visited(it.Keys(), it.pos) == [k] + Visited(it.Keys(), it.pos + 1);
      assert seen + ([k] + Visited(it.Keys(), it.pos + 1)) == seen + [k] + Visited(it.Keys(), it.pos + 1);
      seen := seen + [k];
      it.Next();
    }
  }

  method NewIterator(s: S.Store) returns (it: Iterator)
    ensures fresh(it) && it.store == s && it.Keys() == LiveKeys(s.index.m) && it.pos == 0 && it.err == None
  {
    var entries := s.index.LiveEntries();
    it := new Iterator(s, entries);
  }

  method Range(s: S.Store, start: Key, end: Key) returns (it: Iterator)
    ensures fresh(it) && it.store == s && it.pos == 0 && it.err == None
    ensures it.Keys() == SortedKeys(LiveBetween(s.index.m, start, end))
  {
    var all := s.index.LiveEntries();
    var filtered := Between(all, start, end);
    BetweenKeys(s.index.m, start, end);
    it := new Iterator(s, filtered);
  }

  predicate Inside(k: Key, start: Key, end: Key) {
    !KeyLess(k, start) && KeyLess(k, end)
  }

  /** The filter loop of Range. */
  method Between(all: seq<KeyLocation>, start: Key, end: Key) returns (filtered: seq<KeyLocation>)
    ensures KeysOf(filtered) == Filter(KeysOf(all), k => Inside(k, start, end))
  {
    hide Inside;
    ghost var ks, inside := KeysOf(all), (k: Key) => Inside(k, start, end);
    filtered := [];
    for i := 0 to |all|
      invariant KeysOf(filtered) == Filter(ks[..i], inside)
    {
      assert ks[..i + 1][..i] == ks[..i];
      if Inside(all[i].key, start, end) {
        filtered := filtered + [all[i]];
      }
    }
    assert ks[..|ks|] == ks;
  }

  lemma BetweenKeys(m: Table, start: Key, end: Key)
    ensures Filter(LiveKeys(m), k => Inside(k, start, end)) == SortedKeys(LiveBetween(m, start, end))
  {
    hide SortedBy, KeyLess;
    var ks, inside := LiveKeys(m), (k: Key) => Inside(k, start, end);
    FilterSorted(KeyLess, ks, inside);
    forall k ensures k in Filter(ks, inside) <==> k in LiveBetween(m, start, end) {
      FilterElements(ks, inside, k);
    }
    SortedKeysUnique(Filter(ks, inside), LiveBetween(m, start, end));
  }

  lemma {:induction false} VisitedIsSuffix(entries: seq<Key>, pos: nat)
    requires pos <= |entries|
    ensures Visited(entries, pos) == entries[pos..]
    decreases |entries| - pos
  {
    if pos < |entries| {
      VisitedIsSuffix(entries, pos + 1);
    }
  }

  /** After Seek, stepping Next visits exactly the keys not below the target that were live
      when the iterator was made: each once, in ascending order. */
  lemma SeekVisits(m: Table, target: Key, pos: nat)
    requires IsSeekPos(LiveKeys(m), target, pos)
    ensures Visited(LiveKeys(m), pos) == SortedKeys(LiveFrom(m, target))
  {
    var entries := LiveKeys(m);
    VisitedIsSuffix(entries, pos);
    var rest := entries[pos..];
    forall k ensures k in rest <==> k in LiveFrom(m, target) {
      if k in LiveFrom(m, target) {
        var i :| 0 <= i < |entries| && entries[i] == k;
        assert entries[i] == rest[i - pos];
      }
    }
    SortedKeysUnique(rest, LiveFrom(m, target));
  }

  /** An iterator that is not moved first visits every live key. */
  lemma StartVisits(m: Table)
    ensures Visited(LiveKeys(m), 0) == SortedKeys(LiveSet(m))
  {
    VisitedIsSuffix(LiveKeys(m), 0);
  }

  // ---- Prefix, as coded ----

  predicate KeyHasPrefix(key: Key, prefix: Key) {
    |key| >= |prefix| && key[|key| - |prefix|..] == prefix
  }

  /** The filter compares the end of the key, where the documentation promises its start:
      the key `user:1` is not listed under the prefix `user:`. */
  lemma PrefixComparesTheEnd(key: Key, prefix: Key)
    ensures KeyHasPrefix(key, prefix) <==> exists head :: key == head + prefix
    ensures var user := [117, 115, 101, 114, 58]; user <= user + [49] && !KeyHasPrefix(user + [49], user)
  {
    if KeyHasPrefix(key, prefix) {
      assert key == key[..|key| - |prefix|] + prefix;
    }
    var user: Key := [117, 115, 101, 114, 58];
    assert (user + [49])[1..][0] == 115;
  }
}
