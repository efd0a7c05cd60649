/** internal/index/index.go: the in-memory index and its hint-file form. */
module KeyIndex {
  import opened Bytes
  import opened Order

  const MAX_HINT_ENTRIES := 0x1000_0000
  const MAX_HINT_KEY := 0x100_0000
  const HINT_ENTRY_SIZE := 29

  datatype Location = Location(fileID: int, offset: int, size: int, tombstone: bool)

  type Table = map<Key, Location>

  function LiveSet(m: Table): set<Key> {
    set k | k in m && !m[k].tombstone
  }

  datatype KeyLocation = KeyLocation(key: Key, loc: Location)

  function KeysOf(entries: seq<KeyLocation>): (ks: seq<Key>)
    ensures |ks| == |entries| && forall i | 0 <= i < |ks| :: ks[i] == entries[i].key
  {
    seq(|entries|, i requires 0 <= i < |entries| => entries[i].key)
  }

  /** The keys of LiveEntries, in its order. */
  ghost function LiveKeys(m: Table): (ks: seq<Key>)
    ensures SortedBy(KeyLess, ks)
    ensures forall k :: k in ks <==> k in m && !m[k].tombstone
  {
    SortedKeys(LiveSet(m))
  }

  // ---- The hint format ----

  function EntryHeader(k: Key, loc: Location): (b: seq<byte>)
    ensures |b| == HINT_ENTRY_SIZE
  {
    PutBE(|k| % TWO32, 4) + PutBE(ToUint64(loc.fileID), 8) + PutBE(ToUint64(loc.offset), 8)
      + PutBE(ToUint64(loc.size), 8) + [if loc.tombstone then 1 else 0]
  }

  function EntryBytes(k: Key, loc: Location): (b: seq<byte>)
    ensures |b| == HINT_ENTRY_SIZE + |k|
  {
    EntryHeader(k, loc) + k
  }

  function EntriesBytes(ks: seq<Key>, m: Table): seq<byte>
    requires forall k | k in ks :: k in m
  {
    if |ks| == 0 then [] else EntriesBytes(ks[..|ks| - 1], m) + EntryBytes(ks[|ks| - 1], m[ks[|ks| - 1]])
  }

  /** WriteHint: every tracked key, tombstoned ones included, in sorted order. */
  ghost function HintBytes(m: Table): seq<byte> {
    PutBE(|m| % TWO64, 8) + EntriesBytes(SortedKeys(m.Keys), m)
  }

  datatype HintEntry = HintEntry(key: Key, loc: Location, next: nat)

  /** readHintEntry at position pos of the file. */
  function ReadEntry(data: seq<byte>, pos: nat): (e: Option<HintEntry>)
    requires pos <= |data|
    ensures e.Some? ==> pos + HINT_ENTRY_SIZE <= e.value.next <= |data|
  {
    if pos + HINT_ENTRY_SIZE > |data| then None else
    var b := data[pos..pos + HINT_ENTRY_SIZE];
    var keyLen := GetBE(b[..4]);
    var loc := Location(ToInt64(GetBE(b[4..12])), ToInt64(GetBE(b[12..20])), ToInt64(GetBE(b[20..28])), b[28] == 1);
    var at := pos + HINT_ENTRY_SIZE;
    if keyLen > MAX_HINT_KEY || at + keyLen > |data| then None else
    Some(HintEntry(data[at..at + keyLen], loc, at + keyLen))
  }

  datatype Loaded = Loaded(table: Table, end: nat)

  /** n further entries from position pos, on top of those already read. */
  function ReadEntries(data: seq<byte>, pos: nat, n: nat, table: Table): (r: Option<Loaded>)
    requires pos <= |data|
    ensures r.Some? ==> pos <= r.value.end <= |data|
    decreases n
  {
    if n == 0 then Some(Loaded(table, pos)) else
    match ReadEntry(data, pos)
    case None => None
    case Some(e) => ReadEntries(data, e.next, n - 1, table[e.key := e.loc])
  }

  /** LoadHint; None stands for ErrHint. */
  function ParseHint(data: seq<byte>): (r: Option<Loaded>)
    ensures r.Some? ==> r.value.end <= |data|
  {
    if |data| < 8 || GetBE(data[..8]) > MAX_HINT_ENTRIES then None else
    ReadEntries(data, 8, GetBE(data[..8]), map[])
  }

  // ---- The index object ----

  class Index {
    var m: Table

    constructor ()
      ensures m == map[]
    {
      m := map[];
    }

    method Get(key: Key) returns (loc: Location, ok: bool)
      ensures ok == (key in m) && (ok ==> loc == m[key])
      ensures !ok ==> loc == Location(0, 0, 0, false)
    {
      if key in m {
        return m[key], true;
      }
      return Location(0, 0, 0, false), false;
    }

    method Put(key: Key, loc: Location)
      modifies this
      ensures m == old(m)[key := loc]
    {
      m := m[key := loc];
    }

    /** The map is walked in no particular order; sorting makes the result canonical. */
    method Keys() returns (out: seq<Key>)
      ensures out == SortedKeys(m.Keys)
    {
      hide SortedBy;
      out := [];
      var left := m.Keys;
      while left != {}
        invariant left <= m.Keys && Elements(out) == m.Keys - left
        invariant Distinct(out)
        decreases left
      {
        var k :| k in left;
        assert k !in Elements(out);
        ghost var before := out;
        out, left := out + [k], left - {k};
        assert Elements(out) == Elements(before) + {k};
      }
      assert Elements(out) == m.Keys;
      out := SortStrings(out);
    }

    method LiveEntries() returns (out: seq<KeyLocation>)
      ensures KeysOf(out) == LiveKeys(m) && forall i | 0 <= i < |out| :: out[i].key in m && out[i].loc == m[out[i].key]
    {
      hide SortedBy;
      var table := m;
      var live := k => k in table && !table[k].tombstone;
      var keys := Keys();
      out := [];
      for i := 0 to |keys|
        invariant KeysOf(out) == Filter(keys[..i], live)
        invariant forall j | 0 <= j < |out| :: out[j].key in m && out[j].loc == m[out[j].key]
      {
        assert keys[..i + 1][..i] == keys[..i];
        if !m[keys[i]].tombstone {
          out := out + [KeyLocation(keys[i], m[keys[i]])];
        }
      }
      assert keys[..|keys|] == keys;
      forall k ensures k in KeysOf(out) <==> k in LiveSet(m) { FilterElements(keys, live, k); }
      FilterSorted(KeyLess, keys, live);
      SortedKeysUnique(KeysOf(out), LiveSet(m));
    }

    method WriteHint() returns (w: seq<byte>)
      ensures w == HintBytes(m)
    {
      hide PutBE, SortedBy, SortedKeys, EntryHeader;
      var all := Keys();
      SortedKeysLength(m.Keys);
      w := PutBE(|all| % TWO64, 8);
      ghost var head := w;
      for i := 0 to |all|
        invariant w == head + EntriesBytes(all[..i], m)
      {
        assert all[..i + 1][..i] == all[..i];
        w := w + EntryHeader(all[i], m[all[i]]);
        w := w + all[i];
        assert w == head + (EntriesBytes(all[..i], m) + EntryBytes(all[i], m[all[i]]));
      }
      assert all[..|all|] == all;
    }

    /** A failed load leaves the index as it was. */
    method LoadHint(data: seq<byte>) returns (ok: bool)
      modifies this
      ensures ok == ParseHint(data).Some?
      ensures m == if ok then ParseHint(data).value.table else old(m)
    {
      hide GetBE;
      if |data| < 8 {
        return false;
      }
      var count := GetBE(data[..8]);
      if count > MAX_HINT_ENTRIES {
        return false;
      }
      var next: Table := map[];
      var pos := 8;
      for n := 0 to count
        invariant 8 <= pos <= |data| && m == old(m)
        invariant ReadEntries(data, 8, count, map[]) == ReadEntries(data, pos, count - n, next)
      {
        var e := ReadEntry(data, pos);
        match e {
          case None => return false;
          case Some(kl) => next, pos := next[kl.key := kl.loc], kl.next;
        }
      }
      m := next;
      return true;
    }
  }

  // ---- Round trip ----

  /** The fields of a location are int64 and the key length fits uint32. */
  predicate Storable(k: Key, loc: Location) {
    |k| < TWO32 && IsInt64(loc.fileID) && IsInt64(loc.offset) && IsInt64(loc.size)
  }

  lemma ReadHeaderBytes(k: Key, loc: Location)
    requires Storable(k, loc)
    ensures var b := EntryHeader(k, loc);
      && GetBE(b[..4]) == |k| && ToInt64(GetBE(b[4..12])) == loc.fileID && ToInt64(GetBE(b[12..20])) == loc.offset
      && ToInt64(GetBE(b[20..28])) == loc.size && (b[28] == 1) == loc.tombstone
  {
    hide PutBE, GetBE, ToUint64, ToInt64;
    var b := EntryHeader(k, loc);
    Pow256Widths();
    GetPutBE(|k|, 4);
    GetPutBE(ToUint64(loc.fileID), 8);
    GetPutBE(ToUint64(loc.offset), 8);
    GetPutBE(ToUint64(loc.size), 8);
    Int64RoundTrip(loc.fileID);
    Int64RoundTrip(loc.offset);
    Int64RoundTrip(loc.size);
    assert b[..4] == PutBE(|k|, 4);
    assert b[4..12] == PutBE(ToUint64(loc.fileID), 8);
    assert b[12..20] == PutBE(ToUint64(loc.offset), 8);
    assert b[20..28] == PutBE(ToUint64(loc.size), 8);
  }

  lemma ReadEntryBytes(data: seq<byte>, pos: nat, k: Key, loc: Location)
    requires Storable(k, loc) && At(data, pos, EntryBytes(k, loc))
    ensures ReadEntry(data, pos) ==
      if |k| <= MAX_HINT_KEY then Some(HintEntry(k, loc, pos + |EntryBytes(k, loc)|)) else None
  {
    hide PutBE, GetBE, EntryHeader, ToInt64, ToUint64;
    ReadHeaderBytes(k, loc);
    AtSplit(data, pos, EntryHeader(k, loc), k);
  }

  predicate Loadable(k: Key) {
    |k| <= MAX_HINT_KEY
  }

  lemma EntriesBytesConcat(k: Key, ks: seq<Key>, m: Table)
    requires k in m && forall j | j in ks :: j in m
    ensures EntriesBytes([k] + ks, m) == EntryBytes(k, m[k]) + EntriesBytes(ks, m)
  {
    hide EntriesBytes, EntryBytes;
    if |ks| == 0 {
      EntriesBytesNone(m);
      EntriesBytesLast([], k, m);
      assert [k] + ks == [] + [k];
    } else {
      var init, last := ks[..|ks| - 1], ks[|ks| - 1];
      assert ks == init + [last] && [k] + ks == ([k] + init) + [last];
      EntriesBytesConcat(k, init, m);
      EntriesBytesLast(init, last, m);
      EntriesBytesLast([k] + init, last, m);
    }
  }

  lemma EntriesBytesNone(m: Table)
    ensures EntriesBytes([], m) == []
  {
  }

  lemma EntriesBytesLast(ks: seq<Key>, k: Key, m: Table)
    requires k in m && forall j | j in ks :: j in m
    ensures EntriesBytes(ks + [k], m) == EntriesBytes(ks, m) + EntryBytes(k, m[k])
  {
    hide EntryBytes;
    assert (ks + [k])[..|ks|] == ks;
  }

  function Restrict(m: Table, ks: seq<Key>): Table
    requires forall k | k in ks :: k in m
  {
    map k | k in ks :: m[k]
  }

  lemma RestrictStep(table: Table, m: Table, k: Key, tail: seq<Key>)
    requires k in m && forall j | j in tail :: j in m
    ensures table[k := m[k]] + Restrict(m, tail) == table + Restrict(m, [k] + tail)
  {
    var a, b := table[k := m[k]] + Restrict(m, tail), table + Restrict(m, [k] + tail);
    assert a.Keys == b.Keys;
    assert forall j | j in a :: a[j] == b[j];
  }

  lemma RestrictNone(table: Table, m: Table)
    ensures table + Restrict(m, []) == table
  {
  }

  lemma RestrictAll(m: Table, ks: seq<Key>)
    requires forall k :: k in ks <==> k in m
    ensures map[] + Restrict(m, ks) == m
  {
  }

  lemma {:induction false} ReadEntriesBytes(data: seq<byte>, pos: nat, ks: seq<Key>, m: Table, table: Table)
    requires forall k | k in ks :: k in m && Storable(k, m[k])
    requires At(data, pos, EntriesBytes(ks, m))
    ensures ReadEntries(data, pos, |ks|, table) ==
      if forall k | k in ks :: Loadable(k)
      then Some(Loaded(table + Restrict(m, ks), pos + |EntriesBytes(ks, m)|)) else None
    decreases |ks|
  {
    hide EntryBytes, EntriesBytes, ReadEntry, At, Restrict;
    if |ks| == 0 {
      EntriesBytesNone(m);
      RestrictNone(table, m);
    } else {
      var k, tail := ks[0], ks[1..];
      assert ks == [k] + tail;
      EntriesBytesConcat(k, tail, m);
      var e := EntryBytes(k, m[k]);
      AtSplit(data, pos, e, EntriesBytes(tail, m));
      ReadEntryBytes(data, pos, k, m[k]);
      if Loadable(k) {
        assert pos + |e| <= |data| by { AtBound(data, pos, e); }
        ReadEntriesBytes(data, pos + |e|, tail, m, table[k := m[k]]);
        RestrictStep(table, m, k, tail);
      }
    }
  }

  /** LoadHint after WriteHint gives the index back, tombstones included and whatever
      follows in the file, exactly when it has at most 2^28 keys of at most 2^24 bytes;
      beyond those limits the written file is rejected. */
  lemma HintRoundTrip(m: Table, rest: seq<byte>)
    requires |m| < TWO64 && forall k | k in m :: Storable(k, m[k])
    ensures ParseHint(HintBytes(m) + rest) ==
      if |m| <= MAX_HINT_ENTRIES && forall k | k in m :: Loadable(k)
      then Some(Loaded(m, |HintBytes(m)|)) else None
  {
    hide PutBE, GetBE, ReadEntries, EntriesBytes, SortedKeys, Restrict, At, Loadable, Storable, Pow256;
    hide Distinct, SortedBy;
    var ks := SortedKeys(m.Keys);
    SortedKeysLength(m.Keys);
    HintHead(m, rest);
    ReadEntriesBytes(HintBytes(m) + rest, 8, ks, m, map[]);
    RestrictAll(m, ks);
  }

  lemma HintHead(m: Table, rest: seq<byte>)
    requires |m| < TWO64
    ensures var data, ks := HintBytes(m) + rest, SortedKeys(m.Keys);
      |data| >= 8 && GetBE(data[..8]) == |m| && (forall k | k in ks :: k in m) && At(data, 8, EntriesBytes(ks, m))
      && |HintBytes(m)| == 8 + |EntriesBytes(ks, m)|
  {
    hide PutBE, GetBE, EntriesBytes, SortedKeys, Pow256;
    SortedKeysLength(m.Keys);
    Pow256Widths();
    GetPutBE(|m|, 8);
    assert (HintBytes(m) + rest)[..8] == PutBE(|m|, 8);
  }

  // ---- Cut hint files ----

  lemma ReadEntryStable(data: seq<byte>, tail: seq<byte>, pos: nat)
    requires pos <= |data| && ReadEntry(data, pos).Some?
    ensures ReadEntry(data + tail, pos) == ReadEntry(data, pos)
  {
    hide GetBE, ToInt64;
    var e := ReadEntry(data, pos).value;
    assert (data + tail)[pos..pos + HINT_ENTRY_SIZE] == data[pos..pos + HINT_ENTRY_SIZE];
    assert (data + tail)[pos + HINT_ENTRY_SIZE..e.next] == data[pos + HINT_ENTRY_SIZE..e.next];
  }

  lemma {:induction false} ReadEntriesStable(data: seq<byte>, tail: seq<byte>, pos: nat, n: nat, table: Table)
    requires pos <= |data| && ReadEntries(data, pos, n, table).Some?
    ensures ReadEntries(data + tail, pos, n, table) == ReadEntries(data, pos, n, table)
    decreases n
  {
    hide ReadEntry;
    if n > 0 {
      var e := ReadEntry(data, pos).value;
      ReadEntryStable(data, tail, pos);
      ReadEntriesStable(data, tail, e.next, n - 1, table[e.key := e.loc]);
    }
  }

  /** A hint file cut anywhere short of its end is rejected. */
  lemma HintPrefixRejected(m: Table, cut: nat)
    requires |m| < TWO64 && forall k | k in m :: Storable(k, m[k])
    requires cut < |HintBytes(m)|
    ensures ParseHint(HintBytes(m)[..cut]).None?
  {
    hide PutBE, GetBE, ReadEntries, HintBytes;
    var h := HintBytes(m);
    var data := h[..cut];
    if ParseHint(data).Some? {
      assert data + h[cut..] == h && h + [] == h;
      assert h[..8] == data[..8];
      ReadEntriesStable(data, h[cut..], 8, GetBE(data[..8]), map[]);
      HintRoundTrip(m, []);
      assert false;
    }
  }

  // ---- The format byte by byte ----

  /** An entry: the key length modulo 2^32, file ID, offset and size as 64-bit words, the tombstone
      and the key.  In each number the most significant byte comes first. */
  lemma EntryLayout(k: Key, loc: Location, i: nat)
    requires i < 8
    ensures var b, w := EntryBytes(k, loc), Pow256(7 - i);
      && |b| == HINT_ENTRY_SIZE + |k|
      && (i < 4 ==> b[i] == |k| / Pow256(3 - i) % 256)
      && b[4 + i] == loc.fileID % TWO64 / w % 256
      && b[12 + i] == loc.offset % TWO64 / w % 256
      && b[20 + i] == loc.size % TWO64 / w % 256
      && b[28] == (if loc.tombstone then 1 else 0)
      && b[HINT_ENTRY_SIZE..] == k
  {
    hide PutBE, Pow256;
    Pow256Widths();
    PutBETruncates(|k|, 4);
    if i < 4 {
      PutBEDigit(|k|, 4, i);
    }
    PutBEDigit(ToUint64(loc.fileID), 8, i);
    PutBEDigit(ToUint64(loc.offset), 8, i);
    PutBEDigit(ToUint64(loc.size), 8, i);
  }

  /** Where entry i of a hint file starts. */
  function EntryStart(ks: seq<Key>, i: nat): nat
    requires i <= |ks|
  {
    if i == 0 then 8 else EntryStart(ks, i - 1) + HINT_ENTRY_SIZE + |ks[i - 1]|
  }

  lemma {:induction false} EntryInside(ks: seq<Key>, m: Table, i: nat)
    requires (forall k | k in ks :: k in m) && i < |ks|
    ensures EntryStart(ks, i) >= 8 && EntryStart(ks, |ks|) == 8 + |EntriesBytes(ks, m)|
    ensures At(EntriesBytes(ks, m), EntryStart(ks, i) - 8, EntryBytes(ks[i], m[ks[i]]))
  {
    hide EntryBytes;
    var init, last := ks[..|ks| - 1], ks[|ks| - 1];
    SameStarts(ks, init, |ks| - 1);
    SameStarts(ks, init, i);
    if |init| > 0 {
      EntryInside(init, m, if i < |init| then i else 0);
    }
    if i < |init| {
      var e, more := EntryBytes(init[i], m[init[i]]), EntryBytes(last, m[last]);
      AtGrows(EntriesBytes(init, m), EntryStart(init, i) - 8, e, more);
    } else {
      var all := EntriesBytes(ks, m);
      assert all == EntriesBytes(init, m) + EntryBytes(last, m[last]);
      assert all[|EntriesBytes(init, m)|..] == EntryBytes(last, m[last]);
    }
  }

  lemma AtGrows(a: seq<byte>, pos: nat, b: seq<byte>, more: seq<byte>)
    requires At(a, pos, b)
    ensures At(a + more, pos, b)
  {
    assert (a + more)[pos..pos + |b|] == a[pos..pos + |b|];
  }

  lemma {:induction false} SameStarts(ks: seq<Key>, init: seq<Key>, i: nat)
    requires init <= ks && i <= |init|
    ensures EntryStart(ks, i) == EntryStart(init, i)
  {
    if i > 0 { SameStarts(ks, init, i - 1); }
  }

  /** A hint file: the number of keys in eight bytes, then the entries of all keys in ascending
      order, with nothing between them and nothing after. */
  lemma HintLayout(m: Table, i: nat)
    requires |m| < TWO64
    ensures var h, ks := HintBytes(m), SortedKeys(m.Keys);
      && |ks| == |m| && |h| == EntryStart(ks, |ks|)
      && (i < 8 ==> h[i] == |m| / Pow256(7 - i) % 256)
      && (i < |ks| ==> At(h, EntryStart(ks, i), EntryBytes(ks[i], m[ks[i]])))
  {
    hide PutBE, Pow256, EntriesBytes, EntryBytes, SortedKeys, At, HintBytes, EntryStart, Distinct, SortedBy, Elements;
    var h, ks := HintBytes(m), SortedKeys(m.Keys);
    SortedKeysLength(m.Keys);
    assert |m| == |m.Keys|;
    var es := EntriesBytes(ks, m);
    HintIs(m, ks);
    if i < 8 {
      PutBEDigit(|m|, 8, i);
    }
    if i < |ks| {
      EntryInside(ks, m, i);
      AtBehind(PutBE(|m|, 8), es, EntryStart(ks, i) - 8, EntryBytes(ks[i], m[ks[i]]));
    }
    EntriesEnd(ks, m);
  }

  lemma EntriesEnd(ks: seq<Key>, m: Table)
    requires forall k | k in ks :: k in m
    ensures EntryStart(ks, |ks|) == 8 + |EntriesBytes(ks, m)|
  {
    hide EntryBytes;
    if |ks| > 0 {
      EntryInside(ks, m, 0);
    }
  }

  lemma HintIs(m: Table, ks: seq<Key>)
    requires |m| < TWO64 && ks == SortedKeys(m.Keys)
    ensures (forall k | k in ks :: k in m) && HintBytes(m) == PutBE(|m|, 8) + EntriesBytes(ks, m)
  {
    hide PutBE, EntriesBytes, SortedKeys, SortedBy, Elements;
    assert |m| % TWO64 == |m|;
    assert forall k | k in ks :: k in m.Keys;
  }

  lemma AtBehind(head: seq<byte>, a: seq<byte>, pos: nat, b: seq<byte>)
    requires At(a, pos, b)
    ensures At(head + a, |head| + pos, b)
  {
    assert (head + a)[|head| + pos..|head| + pos + |b|] == a[pos..pos + |b|];
  }

  /** On any file, reading an entry gives the key and location that are stored there; it fails
      exactly when the file ends before the entry does or the key is over the limit. */
  lemma ReadEntrySound(data: seq<byte>, pos: nat)
    requires pos <= |data|
    ensures ReadEntry(data, pos).None? <==>
      || pos + HINT_ENTRY_SIZE > |data|
      || GetBE(data[pos..pos + 4]) > MAX_HINT_KEY
      || pos + HINT_ENTRY_SIZE + GetBE(data[pos..pos + 4]) > |data|
    ensures ReadEntry(data, pos).Some? ==>
      var e := ReadEntry(data, pos).value;
      && Storable(e.key, e.loc) && Loadable(e.key) && e.next == pos + |EntryBytes(e.key, e.loc)|
      && data[pos..pos + 28] == EntryBytes(e.key, e.loc)[..28]
      && (e.loc.tombstone <==> data[pos + 28] == 1) && data[pos + HINT_ENTRY_SIZE..e.next] == e.key
  {
    hide PutBE, GetBE, ToInt64, ToUint64, Pow256;
    if pos + HINT_ENTRY_SIZE <= |data| {
      SubSlice(data, pos, pos + HINT_ENTRY_SIZE, 0, 4);
      if ReadEntry(data, pos).Some? {
        EntryHeaderBack(data[pos..pos + HINT_ENTRY_SIZE], ReadEntry(data, pos).value);
        SubSlice(data, pos, pos + HINT_ENTRY_SIZE, 0, 28);
      }
    }
  }

  lemma EntryHeaderBack(b: seq<byte>, e: HintEntry)
    requires |b| == HINT_ENTRY_SIZE && |e.key| == GetBE(b[..4]) <= MAX_HINT_KEY
    requires e.loc.fileID == ToInt64(GetBE(b[4..12])) && e.loc.offset == ToInt64(GetBE(b[12..20]))
    requires e.loc.size == ToInt64(GetBE(b[20..28])) && e.loc.tombstone == (b[28] == 1)
    ensures Storable(e.key, e.loc) && EntryBytes(e.key, e.loc)[..28] == b[..28]
  {
    hide PutBE, GetBE, ToInt64, ToUint64, Pow256;
    Pow256Widths();
    PutGetBE(b[..4]);
    WordBack(b[4..12]);
    WordBack(b[12..20]);
    WordBack(b[20..28]);
    assert b[..28] == b[..4] + b[4..12] + b[12..20] + b[20..28];
  }

  /** Eight bytes read as an int64 are written back unchanged. */
  lemma WordBack(b: seq<byte>)
    requires |b| == 8
    ensures IsInt64(ToInt64(GetBE(b))) && PutBE(ToUint64(ToInt64(GetBE(b))), 8) == b
  {
    hide PutBE, GetBE;
    Pow256Widths();
    PutGetBE(b);
  }

  // ---- What a hint file of any origin loads as ----

  /** The entries es are read one behind the other from pos to end. */
  ghost predicate Chained(data: seq<byte>, pos: nat, es: seq<HintEntry>, end: nat)
    decreases |es|
  {
    if |es| == 0 then pos == end else
    pos <= |data| && ReadEntry(data, pos) == Some(es[0]) && Chained(data, es[0].next, es[1..], end)
  }

  /** Entry i is the last one of its key. */
  ghost predicate LastAt(es: seq<HintEntry>, i: nat) {
    i < |es| && forall j | i < j < |es| :: es[j].key != es[i].key
  }

  ghost predicate Mentions(es: seq<HintEntry>, k: Key) {
    exists i :: 0 <= i < |es| && es[i].key == k
  }

  /** The table of some entries on top of another: the last entry of a key decides. */
  ghost predicate Tabled(es: seq<HintEntry>, before: Table, after: Table) {
    && (forall i: nat | LastAt(es, i) :: es[i].key in after && after[es[i].key] == es[i].loc)
    && (forall k | !Mentions(es, k) :: (k in after <==> k in before) && (k in before ==> after[k] == before[k]))
  }

  lemma {:induction false} ReadEntriesTable(data: seq<byte>, pos: nat, n: nat, table: Table)
    returns (es: seq<HintEntry>)
    requires pos <= |data| && ReadEntries(data, pos, n, table).Some?
    ensures var l := ReadEntries(data, pos, n, table).value;
      |es| == n && Chained(data, pos, es, l.end) && Tabled(es, table, l.table)
    decreases n
  {
    hide ReadEntry, Tabled;
    es := [];
    if n > 0 {
      var e := ReadEntry(data, pos).value;
      var rest := ReadEntriesTable(data, e.next, n - 1, table[e.key := e.loc]);
      es := [e] + rest;
      assert es[1..] == rest;
      TabledStep(e, rest, table, ReadEntries(data, pos, n, table).value.table);
    } else {
      TabledNone(table);
    }
  }

  lemma TabledNone(table: Table)
    ensures Tabled([], table, table)
  {
  }

  lemma TabledStep(e: HintEntry, rest: seq<HintEntry>, before: Table, after: Table)
    requires Tabled(rest, before[e.key := e.loc], after)
    ensures Tabled([e] + rest, before, after)
  {
    hide LastAt, Mentions;
    var es := [e] + rest;
    forall k ensures Mentions(es, k) <==> k == e.key || Mentions(rest, k) { MentionsStep(e, rest, k); }
    forall i: nat | LastAt(es, i)
      ensures i < |es| && es[i].key in after && after[es[i].key] == es[i].loc
    {
      LastStep(e, rest, i);
    }
  }

  lemma MentionsStep(e: HintEntry, rest: seq<HintEntry>, k: Key)
    ensures Mentions([e] + rest, k) <==> k == e.key || Mentions(rest, k)
  {
    var es := [e] + rest;
    assert es[0] == e;
    if i :| 0 <= i < |rest| && rest[i].key == k {
      assert es[i + 1].key == k;
    }
  }

  lemma LastStep(e: HintEntry, rest: seq<HintEntry>, i: nat)
    requires LastAt([e] + rest, i)
    ensures i <= |rest| && if i == 0 then !Mentions(rest, e.key) else LastAt(rest, i - 1)
  {
    var es := [e] + rest;
    assert forall j | 0 <= j < |rest| :: es[j + 1] == rest[j];
  }

  /** LoadHint succeeds exactly when the file holds a count of at most 2^28 and that many readable
      entries; the table then has, for each key in them, the location in its last entry. */
  lemma LoadedIsLast(data: seq<byte>)
    ensures ParseHint(data).Some? <==>
      |data| >= 8 && GetBE(data[..8]) <= MAX_HINT_ENTRIES
      && exists es, end :: |es| == GetBE(data[..8]) && Chained(data, 8, es, end)
    ensures ParseHint(data).Some? ==>
      exists es :: Chained(data, 8, es, ParseHint(data).value.end) && Tabled(es, map[], ParseHint(data).value.table)
  {
    hide GetBE, Chained, Tabled, ReadEntries;
    if |data| >= 8 && GetBE(data[..8]) <= MAX_HINT_ENTRIES {
      if ParseHint(data).Some? {
        var es := ReadEntriesTable(data, 8, GetBE(data[..8]), map[]);
      } else if es, end :| |es| == GetBE(data[..8]) && Chained(data, 8, es, end) {
        ChainedReads(data, 8, es, end, map[]);
      }
    }
  }

  lemma {:induction false} ChainedReads(data: seq<byte>, pos: nat, es: seq<HintEntry>, end: nat, table: Table)
    requires pos <= |data| && Chained(data, pos, es, end)
    ensures ReadEntries(data, pos, |es|, table).Some?
    decreases |es|
  {
    hide ReadEntry;
    if |es| > 0 {
      ChainedReads(data, es[0].next, es[1..], end, table[es[0].key := es[0].loc]);
    }
  }
}
