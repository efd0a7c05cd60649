/** internal/log/reader.go: the streaming scan over framed records. */
module LogReader {
  import opened Bytes
  import opened Crc32
  import opened LogEntry

  const MAX_RECORD_PAYLOAD := 0x4000_0000

  /** What Next answers, and where the underlying stream then stands. */
  datatype Outcome = Outcome(result: Result<Entry, LogError>, cursor: nat)

  /** Next on a stream of the given contents, read up to `cursor`, when Position is `pos`. */
  function NextAt(data: seq<byte>, cursor: nat, pos: nat): (o: Outcome)
    requires cursor <= |data|
    ensures cursor <= o.cursor <= |data|
    ensures o.result.Ok? ==> o.cursor == cursor + o.result.value.size && o.result.value.size >= PREFIX_SIZE
  {
    var left := |data| - cursor;
    if left == 0 then Outcome(Err(ErrEOF), cursor) else
    if left < PREFIX_SIZE then Outcome(Err(ErrCorrupt), |data|) else
    var head := data[cursor..cursor + PREFIX_SIZE];
    var h := ParseHeader(head[4..]);
    var payloadLen := h.keyLen + h.valueLen;
    if payloadLen > MAX_RECORD_PAYLOAD then Outcome(Err(ErrCorrupt), cursor + PREFIX_SIZE) else
    if left - PREFIX_SIZE < payloadLen then
      Outcome(Err(if left == PREFIX_SIZE then ErrEOF else ErrCorrupt), |data|)
    else
      var end := cursor + PREFIX_SIZE + payloadLen;
      var body := data[cursor + PREFIX_SIZE..end];
      if Checksum(head[4..] + body) != GetBE(head[..4]) then Outcome(Err(ErrChecksum), end) else
      Outcome(Ok(Entry(body[..h.keyLen], body[h.keyLen..], h.tombstone, 0, pos, PREFIX_SIZE + payloadLen)), end)
  }

  datatype ReadFullResult = Full | NoBytes | Partial   // nil, io.EOF, io.ErrUnexpectedEOF

  class Reader {
    const data: seq<byte>   // everything the underlying io.Reader will ever deliver
    var cursor: nat         // how much of it has been read
    var pos: nat

    ghost predicate Valid() reads this { cursor <= |data| }

    constructor (data: seq<byte>)
      ensures Valid() && this.data == data && cursor == 0 && pos == 0
    {
      this.data := data;
      cursor, pos := 0, 0;
    }

    /** io.ReadFull into a buffer of n bytes. */
    method ReadFull(n: nat) returns (buf: seq<byte>, r: ReadFullResult)
      requires Valid()
      modifies this`cursor
      ensures Valid()
      ensures r == if n == 0 || n <= |data| - old(cursor) then Full
                   else if old(cursor) == |data| then NoBytes else Partial
      ensures cursor == if r == Full then old(cursor) + n else |data|
      ensures buf == data[old(cursor)..cursor]
    {
      if n <= |data| - cursor {
        buf, r := data[cursor..cursor + n], Full;
        cursor := cursor + n;
      } else {
        buf, r := data[cursor..], if cursor == |data| then NoBytes else Partial;
        cursor := |data|;
      }
    }

    /** Position moves only when a record has been delivered. */
    method Next() returns (r: Result<Entry, LogError>)
      requires Valid()
      modifies this
      ensures Valid()
      ensures Outcome(r, cursor) == NextAt(data, old(cursor), old(pos))
      ensures pos == if r.Ok? then old(pos) + r.value.size else old(pos)
    {
      hide Checksum, GetBE, ParseHeader;
      var offset := pos;
      var head, got := ReadFull(PREFIX_SIZE);
      match got {
        case NoBytes => return Err(ErrEOF);
        case Partial => return Err(ErrCorrupt);
        case Full =>
      }
      var crc := GetBE(head[..4]);
      var h := ParseHeader(head[4..]);
      var payloadLen := h.keyLen + h.valueLen;
      if payloadLen > MAX_RECORD_PAYLOAD {
        return Err(ErrCorrupt);
      }
      var body;
      body, got := ReadFull(payloadLen);
      match got {
        case NoBytes => return Err(ErrEOF);
        case Partial => return Err(ErrCorrupt);
        case Full =>
      }
      var crcBody := head[4..] + body;
      if Checksum(crcBody) != crc {
        return Err(ErrChecksum);
      }
      var size := PREFIX_SIZE + payloadLen;
      pos := offset + size;
      return Ok(Entry(body[..h.keyLen], body[h.keyLen..], h.tombstone, 0, offset, size));
    }
  }

  // ---- Scanning: Next until it fails ----

  /** The entries delivered, the final Position and the error that ended the scan. */
  datatype Scan = Scan(entries: seq<Entry>, position: nat, error: LogError)

  function ScanFrom(data: seq<byte>, pos: nat): (s: Scan)
    requires pos <= |data|
    ensures pos <= s.position <= |data|
    decreases |data| - pos
  {
    var o := NextAt(data, pos, pos);
    match o.result
    case Err(e) => Scan([], pos, e)
    case Ok(entry) =>
      var rest := ScanFrom(data, o.cursor);
      Scan([entry] + rest.entries, rest.position, rest.error)
  }

  /** A record whose payload the reader does not reject as absurd. */
  predicate Scannable(r: Record) {
    |r.key| + |r.value| <= MAX_RECORD_PAYLOAD
  }

  function EntryOf(r: Record, at: nat): Entry {
    Entry(r.key, r.value, r.tombstone, 0, at, |Frame(r)|)
  }

  /** The log that appending the records in order produces. */
  function FrameAll(rs: seq<Record>): (log: seq<byte>) {
    if |rs| == 0 then [] else FrameAll(rs[..|rs| - 1]) + Frame(rs[|rs| - 1])
  }

  /** What Append reported for each of them. */
  function EntriesOf(rs: seq<Record>): (es: seq<Entry>)
    ensures |es| == |rs|
  {
    if |rs| == 0 then [] else
    var init := rs[..|rs| - 1];
    EntriesOf(init) + [EntryOf(rs[|rs| - 1], |FrameAll(init)|)]
  }

  /** The scan consumes the whole log and ends at a clean end of file. */
  predicate CleanFrom(data: seq<byte>, pos: nat)
    requires pos <= |data|
  {
    ScanFrom(data, pos).error == ErrEOF && ScanFrom(data, pos).position == |data|
  }

  predicate Clean(data: seq<byte>) {
    CleanFrom(data, 0)
  }

  lemma NextOnFrame(pre: seq<byte>, r: Record, post: seq<byte>, pos: nat)
    requires Scannable(r)
    ensures NextAt(pre + Frame(r) + post, |pre|, pos) == Outcome(Ok(EntryOf(r, pos)), |pre| + |Frame(r)|)
  {
    hide Checksum, PutBE, GetBE, ParseHeader, Frame;
    var data, f, c, k := pre + Frame(r) + post, Frame(r), |pre|, |r.key|;
    FrameLayout(r);
    var head := data[c..c + PREFIX_SIZE];
    assert head == f[..PREFIX_SIZE];
    assert head[..4] == f[..4] && head[4..] == f[4..PREFIX_SIZE];
    var body := data[c + PREFIX_SIZE..c + |f|];
    assert body == f[PREFIX_SIZE..];
    assert body[..k] == r.key && body[k..] == r.value;
    assert head[4..] + body == f[4..];
  }

  /** A record that Next delivers is delivered the same when more bytes follow. */
  lemma NextStable(data: seq<byte>, tail: seq<byte>, cursor: nat, pos: nat)
    requires cursor <= |data| && NextAt(data, cursor, pos).result.Ok?
    ensures NextAt(data + tail, cursor, pos) == NextAt(data, cursor, pos)
  {
    hide Checksum, PutBE, GetBE, ParseHeader;
    var o := NextAt(data, cursor, pos);
    assert (data + tail)[cursor..cursor + PREFIX_SIZE] == data[cursor..cursor + PREFIX_SIZE];
    assert (data + tail)[cursor + PREFIX_SIZE..o.cursor] == data[cursor + PREFIX_SIZE..o.cursor];
  }

  lemma ScanStep(data: seq<byte>, pos: nat)
    requires pos <= |data|
    ensures var o := NextAt(data, pos, pos);
      if o.result.Ok? then
        var rest := ScanFrom(data, o.cursor);
        ScanFrom(data, pos) == Scan([o.result.value] + rest.entries, rest.position, rest.error)
      else
        ScanFrom(data, pos) == Scan([], pos, o.result.error)
  {
    hide NextAt;
  }

  /** Scanning past a clean log reaches whatever follows it. */
  lemma {:induction false} ScanThrough(data: seq<byte>, pos: nat, tail: seq<byte>)
    requires pos <= |data| && CleanFrom(data, pos)
    ensures var rest := ScanFrom(data + tail, |data|);
      ScanFrom(data + tail, pos) == Scan(ScanFrom(data, pos).entries + rest.entries, rest.position, rest.error)
    decreases |data| - pos
  {
    hide NextAt, ScanFrom;
    var o := NextAt(data, pos, pos);
    var rest := ScanFrom(data + tail, |data|).entries;
    ScanStep(data, pos);
    if o.result.Ok? {
      NextStable(data, tail, pos, pos);
      ScanStep(data + tail, pos);
      ScanThrough(data, o.cursor, tail);
      assert [o.result.value] + (ScanFrom(data, o.cursor).entries + rest) == ScanFrom(data, pos).entries + rest;
    } else {
      assert pos == |data|;
      assert [] + rest == rest;
    }
  }

  /** One more Append: one more entry, and the log stays clean. */
  lemma ScanAppend(data: seq<byte>, r: Record)
    requires Clean(data) && Scannable(r)
    ensures Clean(data + Frame(r))
    ensures ScanFrom(data + Frame(r), 0).entries == ScanFrom(data, 0).entries + [EntryOf(r, |data|)]
  {
    hide NextAt, Frame;
    ScanThrough(data, 0, Frame(r));
    NextOnFrame(data, r, [], |data|);
    assert data + Frame(r) + [] == data + Frame(r);
    ScanEnd(data + Frame(r));
    assert ScanFrom(data + Frame(r), |data|).entries == [EntryOf(r, |data|)];
  }

  lemma ScanEnd(data: seq<byte>)
    ensures ScanFrom(data, |data|) == Scan([], |data|, ErrEOF)
  {
  }

  /** Scanning appended records gives exactly those records, at the offsets and sizes
      that Append returned. */
  lemma {:induction false} ScanRoundTrip(rs: seq<Record>)
    requires forall r | r in rs :: Scannable(r)
    ensures ScanFrom(FrameAll(rs), 0) == Scan(EntriesOf(rs), |FrameAll(rs)|, ErrEOF)
  {
    if |rs| == 0 {
      ScanEnd([]);
    } else {
      ScanRoundTrip(rs[..|rs| - 1]);
      ScanAppend(FrameAll(rs[..|rs| - 1]), rs[|rs| - 1]);
    }
  }

  /** Encode accepts payloads that Next takes for corruption. */
  lemma NextOnOversizedFrame(pre: seq<byte>, r: Record, post: seq<byte>, pos: nat)
    requires Encodable(r) && !Scannable(r)
    ensures NextAt(pre + Frame(r) + post, |pre|, pos).result == Err(ErrCorrupt)
  {
    hide Checksum, PutBE, GetBE, ParseHeader, Frame;
    FrameLayout(r);
    FrameSize(r);
    var head := (pre + Frame(r) + post)[|pre|..|pre| + PREFIX_SIZE];
    assert head == Frame(r)[..PREFIX_SIZE];
    assert head[4..] == Frame(r)[4..PREFIX_SIZE];
  }

  /** A scan that has reached such a frame. */
  lemma RestOversized(data: seq<byte>, r: Record)
    requires Encodable(r) && !Scannable(r)
    ensures ScanFrom(data + Frame(r), |data|) == Scan([], |data|, ErrCorrupt)
  {
    hide NextAt, ScanFrom, Frame, Scannable;
    NextOnOversizedFrame(data, r, [], |data|);
    assert data + Frame(r) + [] == data + Frame(r);
    ScanStep(data + Frame(r), |data|);
  }

  // ---- Truncated logs ----

  /** Next on a record of which only the first n bytes are present. */
  lemma NextOnTornFrame(pre: seq<byte>, r: Record, n: nat, pos: nat)
    requires Scannable(r) && n < |Frame(r)|
    ensures NextAt(pre + Frame(r)[..n], |pre|, pos).result ==
      Err(if n == 0 || n == PREFIX_SIZE then ErrEOF else ErrCorrupt)
  {
    hide Checksum, PutBE, GetBE, ParseHeader, Frame;
    if n >= PREFIX_SIZE {
      FrameLayout(r);
      var data := pre + Frame(r)[..n];
      var head := data[|pre|..|pre| + PREFIX_SIZE];
      assert head == Frame(r)[..PREFIX_SIZE];
      assert head[4..] == Frame(r)[4..PREFIX_SIZE];
      assert |Frame(r)| == PREFIX_SIZE + |r.key| + |r.value| by { FrameSize(r); }
    }
  }

  lemma FrameSize(r: Record)
    ensures |Frame(r)| == PREFIX_SIZE + |r.key| + |r.value|
  {
  }

  /** Bytes written after a record that was cut right after its prefix are taken for its
      payload. */
  lemma NextAfterTear(pre: seq<byte>, r: Record, more: seq<byte>, pos: nat)
    requires Scannable(r) && |r.key| + |r.value| > 0
    ensures var f, p := Frame(r), |r.key| + |r.value|;
      var o := NextAt(pre + (f[..PREFIX_SIZE] + more), |pre|, pos).result;
      if |more| == 0 then o == Err(ErrEOF)
      else if |more| < p then o == Err(ErrCorrupt)
      else if Checksum(f[4..PREFIX_SIZE] + more[..p]) != GetBE(f[..4]) then o == Err(ErrChecksum)
      else o == Ok(Entry(more[..|r.key|], more[|r.key|..p], r.tombstone, 0, pos, |f|))
  {
    hide Checksum, PutBE, GetBE, ParseHeader, Frame;
    FrameLayout(r);
    FrameSize(r);
    var f, p, k, c := Frame(r), |r.key| + |r.value|, |r.key|, |pre|;
    var data := pre + (f[..PREFIX_SIZE] + more);
    PrefixOf(pre, f[..PREFIX_SIZE], more);
    assert f[..PREFIX_SIZE][..4] == f[..4] && f[..PREFIX_SIZE][4..] == f[4..PREFIX_SIZE];
    if |more| >= p {
      SubSlice(data, c + PREFIX_SIZE, |data|, 0, p);
      assert data[c + PREFIX_SIZE..][..p] == data[c + PREFIX_SIZE..c + PREFIX_SIZE + p] == more[..p];
      assert more[..p][..k] == more[..k] && more[..p][k..] == more[k..p];
    }
  }

  lemma PrefixOf(pre: seq<byte>, head: seq<byte>, more: seq<byte>)
    ensures var data := pre + (head + more);
      data[|pre|..|pre| + |head|] == head && data[|pre| + |head|..] == more
  {
  }

  /** A scan that has reached such a prefix, with bytes behind it that do not match. */
  lemma RestAfterTear(data: seq<byte>, r: Record, more: seq<byte>)
    requires Scannable(r) && |r.key| + |r.value| > 0 && |more| > 0
    ensures var f, p := Frame(r), |r.key| + |r.value|;
      var rest := ScanFrom(data + (f[..PREFIX_SIZE] + more), |data|);
      && (|more| < p ==> rest == Scan([], |data|, ErrCorrupt))
      && (|more| >= p && Checksum(f[4..PREFIX_SIZE] + more[..p]) != GetBE(f[..4]) ==>
            rest == Scan([], |data|, ErrChecksum))
  {
    hide NextAt, ScanFrom, Frame, Scannable, Checksum, GetBE;
    NextAfterTear(data, r, more, |data|);
    var whole := data + (Frame(r)[..PREFIX_SIZE] + more);
    if NextAt(whole, |data|, |data|).result.Err? {
      ScanStops(whole, |data|, NextAt(whole, |data|, |data|).result.error);
    }
  }

  /** When they match, the scan delivers an entry made of them and goes on behind it. */
  lemma RestInvented(data: seq<byte>, r: Record, more: seq<byte>)
    requires Scannable(r) && |r.key| + |r.value| > 0 && |more| >= |r.key| + |r.value|
    requires Checksum(Frame(r)[4..PREFIX_SIZE] + more[..|r.key| + |r.value|]) == GetBE(Frame(r)[..4])
    ensures var f, p := Frame(r), |r.key| + |r.value|;
      var whole := data + (f[..PREFIX_SIZE] + more);
      var e := Entry(more[..|r.key|], more[|r.key|..p], r.tombstone, 0, |data|, |f|);
      && |data| + |f| <= |whole|
      && var behind := ScanFrom(whole, |data| + |f|);
         ScanFrom(whole, |data|) == Scan([e] + behind.entries, behind.position, behind.error)
  {
    hide NextAt, ScanFrom, Frame, Scannable, Checksum, GetBE;
    NextAfterTear(data, r, more, |data|);
    var whole := data + (Frame(r)[..PREFIX_SIZE] + more);
    var o := NextAt(whole, |data|, |data|);
    assert o.result.Ok?;
    ScanDelivers(whole, |data|, o.result.value);
  }

  lemma ScanStops(data: seq<byte>, pos: nat, e: LogError)
    requires pos <= |data| && NextAt(data, pos, pos).result == Err(e)
    ensures ScanFrom(data, pos) == Scan([], pos, e)
  {
    hide NextAt;
  }

  lemma ScanDelivers(data: seq<byte>, pos: nat, e: Entry)
    requires pos <= |data| && NextAt(data, pos, pos).result == Ok(e)
    ensures 0 < e.size <= |data| - pos
    ensures var behind := ScanFrom(data, pos + e.size);
      ScanFrom(data, pos) == Scan([e] + behind.entries, behind.position, behind.error)
  {
    hide NextAt;
  }

  /** A scan that has reached a record cut short. */
  lemma RestTorn(data: seq<byte>, r: Record, n: nat)
    requires Scannable(r) && n < |Frame(r)|
    ensures ScanFrom(data + Frame(r)[..n], |data|) ==
      Scan([], |data|, if n == 0 || n == PREFIX_SIZE then ErrEOF else ErrCorrupt)
  {
    hide NextAt, ScanFrom, Frame, Scannable;
    NextOnTornFrame(data, r, n, |data|);
    ScanStep(data + Frame(r)[..n], |data|);
  }

  /** A clean log followed by a record cut short: every complete record is delivered,
      Position stays at the end of the last one, and the cut is reported as a clean end
      exactly at a record boundary or right after a 17-byte prefix. */
  lemma ScanTorn(data: seq<byte>, r: Record, n: nat)
    requires Clean(data) && Scannable(r) && n < |Frame(r)|
    ensures ScanFrom(data + Frame(r)[..n], 0) ==
      Scan(ScanFrom(data, 0).entries, |data|, if n == 0 || n == PREFIX_SIZE then ErrEOF else ErrCorrupt)
  {
    hide NextAt, Frame;
    ScanThrough(data, 0, Frame(r)[..n]);
    RestTorn(data, r, n);
    assert ScanFrom(data, 0).entries + [] == ScanFrom(data, 0).entries;
  }

  /** How many of the records lie wholly inside the first `cut` bytes of their log. */
  function WholeBefore(rs: seq<Record>, cut: nat): (n: nat)
    ensures n <= |rs| && |FrameAll(rs[..n])| <= cut
    ensures n < |rs| ==> cut < |FrameAll(rs[..n + 1])|
  {
    hide Frame;
    assert rs[..|rs|] == rs;
    if |FrameAll(rs)| <= cut then |rs| else
    var init := rs[..|rs| - 1];
    var n := WholeBefore(init, cut);
    assert init[..n] == rs[..n] && (n < |init| ==> init[..n + 1] == rs[..n + 1]);
    n
  }

  lemma {:induction false} FrameAllPrefix(rs: seq<Record>, n: nat)
    requires n <= |rs|
    ensures FrameAll(rs[..n]) <= FrameAll(rs)
    decreases |rs| - n
  {
    if n == |rs| {
      assert rs[..n] == rs;
    } else {
      FrameAllPrefix(rs, n + 1);
      assert rs[..n + 1][..n] == rs[..n];
    }
  }

  lemma CutLog(rs: seq<Record>, n: nat, cut: nat)
    requires n < |rs| && |FrameAll(rs[..n])| <= cut < |FrameAll(rs[..n + 1])| && cut <= |FrameAll(rs)|
    ensures var done := FrameAll(rs[..n]);
      cut - |done| < |Frame(rs[n])| && FrameAll(rs)[..cut] == done + Frame(rs[n])[..cut - |done|]
  {
    hide Frame;
    var done := FrameAll(rs[..n]);
    FrameAllPrefix(rs, n + 1);
    assert rs[..n + 1][..n] == rs[..n];
    var upTo := done + Frame(rs[n]);
    assert FrameAll(rs[..n + 1]) == upTo;
    assert FrameAll(rs)[..cut] == FrameAll(rs)[..|upTo|][..cut] == upTo[..cut];
  }

  /** Any cut of any log made of Appends. */
  lemma TruncatedScan(rs: seq<Record>, cut: nat)
    requires (forall r | r in rs :: Scannable(r)) && cut <= |FrameAll(rs)|
    ensures var n := WholeBefore(rs, cut); var end := |FrameAll(rs[..n])|;
      ScanFrom(FrameAll(rs)[..cut], 0) ==
        Scan(EntriesOf(rs[..n]), end, if cut == end || cut == end + PREFIX_SIZE then ErrEOF else ErrCorrupt)
  {
    hide Frame, NextAt, ScanFrom;
    var n := WholeBefore(rs, cut);
    ScanRoundTrip(rs[..n]);
    if n == |rs| {
      assert rs[..n] == rs;
      assert FrameAll(rs)[..cut] == FrameAll(rs);
    } else {
      CutLog(rs, n, cut);
      ScanTorn(FrameAll(rs[..n]), rs[n], cut - |FrameAll(rs[..n])|);
    }
  }

  // ---- Corruption ----

  /** Next reports a damaged frame as a checksum error, wherever in a log it lies. */
  lemma NextOnDamagedFrame(pre: seq<byte>, r: Record, g: seq<byte>, at: nat, n: nat, post: seq<byte>, pos: nat)
    requires Scannable(r) && Damaged(Frame(r), g, at, n)
    ensures NextAt(pre + g + post, |pre|, pos).result == Err(ErrChecksum)
  {
    hide Checksum, PutBE, GetBE, ParseHeader, Frame;
    var data, f, c := pre + g + post, Frame(r), |pre|;
    FrameLayout(r);
    FrameSize(r);
    DamagedRawChecksum(r, g, at, n);
    HeaderFields(f);
    HeaderFields(g);
    var head := data[c..c + PREFIX_SIZE];
    assert head == g[..PREFIX_SIZE];
    assert head[..4] == g[..4] && head[4..] == g[4..PREFIX_SIZE];
    var body := data[c + PREFIX_SIZE..c + |f|];
    assert body == g[PREFIX_SIZE..];
    assert head[4..] + body == g[4..];
  }

  // ---- What Next delivers ----

  /** On any stream: a delivered record has the stored checksum over the stored header and
      payload, and its lengths, key, value and tombstone are those stored. */
  lemma NextSound(data: seq<byte>, cursor: nat, pos: nat)
    requires cursor <= |data| && NextAt(data, cursor, pos).result.Ok?
    ensures var o := NextAt(data, cursor, pos);
      var e := o.result.value;
      var f := Frame(Record(e.key, e.value, e.tombstone));
      && e.offset == pos && e.size == |f| && o.cursor == cursor + |f|
      && GetBE(data[cursor..cursor + 4]) == Checksum(data[cursor + 4..o.cursor])
      && data[cursor + 4..cursor + 12] == f[4..12] && data[cursor + PREFIX_SIZE..o.cursor] == f[PREFIX_SIZE..]
      && (e.tombstone <==> data[cursor + 12] == 1)
  {
    hide Checksum, PutBE, GetBE, Frame, ParseHeader;
    var o := NextAt(data, cursor, pos);
    var e := o.result.value;
    var head := data[cursor..cursor + PREFIX_SIZE];
    HeaderFields(head);
    assert head[4..PREFIX_SIZE] == head[4..];
    var r := Record(e.key, e.value, e.tombstone);
    FrameSize(r);
    SameLengths(data, cursor, r);
    assert data[cursor + 4..o.cursor] == head[4..] + data[cursor + PREFIX_SIZE..o.cursor];
    assert head[..4] == data[cursor..cursor + 4];
    FramePayload(r);
  }

  /** When Next fails, and how far the stream has then been read.  The log ends at its end or
      right behind a prefix; a payload over the bound is refused unread; a missing byte anywhere
      else is corruption, and what is there in full has a wrong checksum. */
  lemma NextFails(data: seq<byte>, cursor: nat, pos: nat)
    requires cursor <= |data|
    ensures var o, left := NextAt(data, cursor, pos), |data| - cursor;
      if left < PREFIX_SIZE then o == Outcome(Err(if left == 0 then ErrEOF else ErrCorrupt), |data|) else
      var payload := GetBE(data[cursor + 4..cursor + 8]) + GetBE(data[cursor + 8..cursor + 12]);
      var whole := payload <= MAX_RECORD_PAYLOAD && PREFIX_SIZE + payload <= left;
      && (o.result.Ok? || o.result == Err(ErrChecksum) <==> whole)
      && (whole ==> o.cursor == cursor + PREFIX_SIZE + payload)
      && (whole ==> (o.result.Ok? <==> GetBE(data[cursor..cursor + 4]) == Checksum(data[cursor + 4..o.cursor])))
      && (!whole ==> o.cursor == if payload > MAX_RECORD_PAYLOAD then cursor + PREFIX_SIZE else |data|)
      && (o.result == Err(ErrEOF) <==> left == PREFIX_SIZE && 0 < payload <= MAX_RECORD_PAYLOAD)
  {
    hide Checksum, GetBE, ParseHeader;
    if |data| - cursor >= PREFIX_SIZE {
      var o, head := NextAt(data, cursor, pos), data[cursor..cursor + PREFIX_SIZE];
      HeaderFields(head);
      assert head[4..PREFIX_SIZE] == head[4..];
      SubSlice(data, cursor, cursor + PREFIX_SIZE, 4, 8);
      SubSlice(data, cursor, cursor + PREFIX_SIZE, 8, 12);
      SubSlice(data, cursor, cursor + PREFIX_SIZE, 0, 4);
      if o.cursor >= cursor + PREFIX_SIZE {
        assert data[cursor + 4..o.cursor] == head[4..] + data[cursor + PREFIX_SIZE..o.cursor];
      }
    }
  }

  lemma SameLengths(data: seq<byte>, c: nat, r: Record)
    requires Encodable(r) && c + PREFIX_SIZE <= |data|
    requires ParseHeader(data[c..c + PREFIX_SIZE][4..]) == Header(|r.key|, |r.value|, r.tombstone)
    ensures data[c + 4..c + 12] == Frame(r)[4..12] && (r.tombstone <==> data[c + 12] == 1)
  {
    hide Checksum, PutBE, GetBE, Frame, ParseHeader;
    var head, f := data[c..c + PREFIX_SIZE], Frame(r);
    FrameSize(r);
    HeaderFields(head);
    FrameLayout(r);
    HeaderFields(f);
    assert head[4..PREFIX_SIZE] == head[4..];
    GetBEInjective(head[4..8], f[4..8]);
    GetBEInjective(head[8..12], f[8..12]);
    SubSlice(data, c, c + PREFIX_SIZE, 4, 12);
    assert head[4..12] == head[4..8] + head[8..12];
    assert f[4..12] == f[4..8] + f[8..12];
  }

  lemma FramePayload(r: Record)
    requires Encodable(r)
    ensures Frame(r)[PREFIX_SIZE..] == r.key + r.value
  {
    hide Checksum, PutBE, GetBE, ParseHeader, Frame;
    FrameSize(r);
    FrameLayout(r);
    var f, k := Frame(r), |r.key|;
    assert f[PREFIX_SIZE..] == f[PREFIX_SIZE..PREFIX_SIZE + k] + f[PREFIX_SIZE + k..];
  }
}
