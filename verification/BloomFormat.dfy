/** The serialised form of a Bloom filter. */
module BloomFormat {
  import opened Bytes
  import opened Popcount
  import opened Bloom

  lemma WordRoundTrip(w: Word)
    ensures 0 <= w as int < TWO64 && ToWord(w as int) == w
  {
  }

  lemma ParsePutWord(data: seq<byte>, pos: nat, w: Word)
    requires At(data, pos, OneWord(w))
    ensures pos + 8 <= |data| && ParseWord(data, pos) == w
  {
    hide PutBE, GetBE, ToWord;
    WordRoundTrip(w);
    Pow256Widths();
    GetPutBE(w as int, 8);
  }

  lemma WordBytesCut(bits: seq<Word>)
    requires |bits| > 0
    ensures WordBytes(bits) == WordBytes(bits[..|bits| - 1]) + OneWord(bits[|bits| - 1])
  {
    hide OneWord;
  }

  lemma WordAfter(data: seq<byte>, pos: nat, front: seq<byte>, w: Word)
    requires At(data, pos, front + OneWord(w))
    ensures At(data, pos, front) && pos + |front| + 8 <= |data| && ParseWord(data, pos + |front|) == w
  {
    hide OneWord, ParseWord, At;
    AtSplit(data, pos, front, OneWord(w));
    ParsePutWord(data, pos + |front|, w);
  }

  lemma ParseWordsLast(data: seq<byte>, pos: nat, n: nat)
    requires pos + 8 * (n + 1) <= |data|
    ensures ParseWords(data, pos, n + 1) == ParseWords(data, pos, n) + [ParseWord(data, pos + 8 * n)]
  {
    hide ParseWord;
  }

  lemma {:induction false} ParseWordBytes(data: seq<byte>, pos: nat, bits: seq<Word>)
    requires At(data, pos, WordBytes(bits))
    ensures pos + 8 * |bits| <= |data| && ParseWords(data, pos, |bits|) == bits
  {
    hide WordBytes, ParseWords, At, ParseWord;
    AtBound(data, pos, WordBytes(bits));
    if |bits| > 0 {
      var n := |bits| - 1;
      WordBytesCut(bits);
      WordAfter(data, pos, WordBytes(bits[..n]), bits[n]);
      ParseWordBytes(data, pos, bits[..n]);
      ParseWordsLast(data, pos, n);
      assert bits == bits[..n] + [bits[n]];
    } else {
      assert ParseWords(data, pos, 0) == [];
    }
  }

  /** A filter whose fields fit their places in the stream. */
  predicate Streamable(s: State) {
    0 < s.m < TWO64 && 0 < s.k < TWO64 && s.n < TWO64 && |s.bits| == Words(s.m)
  }

  /** ReadFrom after WriteTo restores the filter, whatever follows in the stream, exactly
      when it has at most 2^28 words; a larger one is refused. */
  lemma SerializeRoundTrip(s: State, rest: seq<byte>)
    requires Streamable(s)
    ensures Parse(Serialize(s) + rest) == if Words(s.m) <= MAX_WORDS then Some(s) else None
    ensures Consumed(Serialize(s) + rest) == if Words(s.m) <= MAX_WORDS then |Serialize(s)| else 24
  {
    hide PutBE, GetBE, ParseWords, WordBytes, At;
    var data := Serialize(s) + rest;
    Pow256Widths();
    GetPutBE(s.m, 8);
    GetPutBE(s.k, 8);
    GetPutBE(s.n, 8);
    assert data[..8] == PutBE(s.m, 8) && data[8..16] == PutBE(s.k, 8) && data[16..24] == PutBE(s.n, 8);
    assert At(data, 24, WordBytes(s.bits)) by { AtTail(data, s, rest); }
    ParseWordBytes(data, 24, s.bits);
  }

  /** Every word index of a filter taken from a stream is in bounds unless its bit count makes
      the word count wrap around. */
  lemma ParsedUsable(data: seq<byte>)
    requires Parse(data).Some?
    ensures var s := Parse(data).value;
      (forall pos: nat | pos < s.m :: pos / 64 < |s.bits|) <==> s.m <= TWO64 - 64
  {
    hide ParseWords;
    Pow256Widths();
    WordsCover(Parse(data).value.m);
  }

  /** ReadFrom accepts such a bit count: it then has no words at all. */
  lemma ParsedWithoutWords(n: nat)
    requires n < TWO64
    ensures Parse(PutBE(TWO64 - 1, 8) + PutBE(1, 8) + PutBE(n, 8)) == Some(State([], TWO64 - 1, 1, n))
  {
    hide PutBE, GetBE, ParseWord;
    var data := PutBE(TWO64 - 1, 8) + PutBE(1, 8) + PutBE(n, 8);
    Pow256Widths();
    GetPutBE(TWO64 - 1, 8);
    GetPutBE(1, 8);
    GetPutBE(n, 8);
    assert data[..8] == PutBE(TWO64 - 1, 8) && data[8..16] == PutBE(1, 8) && data[16..24] == PutBE(n, 8);
  }

  lemma AtTail(data: seq<byte>, s: State, rest: seq<byte>)
    requires data == Serialize(s) + rest
    ensures At(data, 24, WordBytes(s.bits))
  {
    hide PutBE, WordBytes;
  }

  /** The stream byte by byte: m, k, n and the words, each as eight bytes, most significant
      first. */
  lemma SerializeLayout(s: State, i: nat)
    requires Streamable(s) && i < 8
    ensures var d := Serialize(s);
      && |d| == 24 + 8 * |s.bits|
      && d[i] == s.m / Pow256(7 - i) % 256
      && d[8 + i] == s.k / Pow256(7 - i) % 256
      && d[16 + i] == s.n / Pow256(7 - i) % 256
      && forall w: nat | w < |s.bits| :: d[24 + 8 * w + i] == s.bits[w] as int / Pow256(7 - i) % 256
  {
    hide PutBE, Pow256, WordBytes;
    PutBEDigit(s.m, 8, i);
    PutBEDigit(s.k, 8, i);
    PutBEDigit(s.n, 8, i);
    forall w: nat | w < |s.bits|
      ensures WordBytes(s.bits)[8 * w + i] == s.bits[w] as int / Pow256(7 - i) % 256
    {
      WordByte(s.bits, w, i);
    }
  }

  lemma {:induction false} WordByte(bits: seq<Word>, w: nat, i: nat)
    requires w < |bits| && i < 8
    ensures WordBytes(bits)[8 * w + i] == bits[w] as int / Pow256(7 - i) % 256
  {
    hide PutBE, Pow256;
    WordBytesCut(bits);
    if w < |bits| - 1 {
      WordByte(bits[..|bits| - 1], w, i);
    } else {
      PutBEDigit(bits[w] as int, 8, i);
    }
  }

  lemma TwiceValue(w: Word)
    requires w < 0x8000_0000_0000_0000
    ensures (w << 1) as int == 2 * (w as int)
  {
  }

  lemma TwiceAndOneValue(w: Word)
    requires w < 0x8000_0000_0000_0000
    ensures ((w << 1) | 1) as int == 2 * (w as int) + 1
  {
  }

  lemma SmallWord(w: Word)
    requires w as int < TWO63
    ensures w < 0x8000_0000_0000_0000
  {
  }

  /** Every value below 2^64 is that of a word. */
  lemma {:induction false} WordOf(v: nat) returns (w: Word)
    requires v < TWO64
    ensures w as int == v
  {
    w := 0;
    if v > 0 {
      var half := WordOf(v / 2);
      SmallWord(half);
      TwiceValue(half);
      TwiceAndOneValue(half);
      w := if v % 2 == 0 then half << 1 else (half << 1) | 1;
    }
  }

  lemma FromWord(v: nat)
    requires v < TWO64
    ensures ToWord(v) as int == v
  {
    hide ToWord;
    var w := WordOf(v);
    WordRoundTrip(w);
  }

  lemma ParsedWordBytes(data: seq<byte>, pos: nat)
    requires pos + 8 <= |data|
    ensures OneWord(ParseWord(data, pos)) == data[pos..pos + 8]
  {
    hide PutBE, GetBE, ToWord;
    Pow256Widths();
    FromWord(GetBE(data[pos..pos + 8]));
    PutGetBE(data[pos..pos + 8]);
  }

  lemma {:induction false} ParsedWordsBytes(data: seq<byte>, pos: nat, count: nat)
    requires pos + 8 * count <= |data|
    ensures WordBytes(ParseWords(data, pos, count)) == data[pos..pos + 8 * count]
  {
    hide OneWord, ParseWord, WordBytes, ParseWords;
    if count > 0 {
      var bits, n := ParseWords(data, pos, count), count - 1;
      ParsedWordsBytes(data, pos, n);
      ParsedWordBytes(data, pos + 8 * n);
      ParseWordsLast(data, pos, n);
      assert bits[..n] == ParseWords(data, pos, n);
      WordBytesCut(bits);
      assert data[pos..pos + 8 * count] == data[pos..pos + 8 * n] + data[pos + 8 * n..pos + 8 * n + 8];
    } else {
      assert WordBytes([]) == [];
    }
  }

  /** ReadFrom yields a filter if and only if the stream starts with the bytes that WriteTo gives
      for it, and it has at most 2^28 words. */
  lemma ParseExact(data: seq<byte>, s: State)
    ensures Parse(data) == Some(s) <==> Streamable(s) && Words(s.m) <= MAX_WORDS && Serialize(s) <= data
  {
    hide ParseWords, WordBytes, GetBE, PutBE, Words;
    if Streamable(s) && Words(s.m) <= MAX_WORDS && Serialize(s) <= data {
      SerializeRoundTrip(s, data[|Serialize(s)|..]);
      assert Serialize(s) + data[|Serialize(s)|..] == data;
    }
    if Parse(data) == Some(s) {
      Pow256Widths();
      PutGetBE(data[..8]);
      PutGetBE(data[8..16]);
      PutGetBE(data[16..24]);
      ParsedWordsBytes(data, 24, Words(s.m));
      assert data[..24 + 8 * Words(s.m)] ==
        data[..8] + data[8..16] + data[16..24] + data[24..24 + 8 * Words(s.m)];
    }
  }

  ghost predicate Extendable(data: seq<byte>) {
    exists more :: Parse(data + more).Some?
  }

  /** A failing ReadFrom stops behind the header if no continuation of the stream could be
      accepted, and otherwise takes the whole stream. */
  lemma FailureConsumes(data: seq<byte>)
    requires Parse(data).None?
    ensures Consumed(data) == if |data| >= 24 && !Extendable(data) then 24 else |data|
  {
    hide ParseWords, GetBE, Words;
    if |data| >= 24 {
      var m, k := GetBE(data[..8]), GetBE(data[8..16]);
      if m == 0 || k == 0 || Words(m) > MAX_WORDS {
        forall more ensures Parse(data + more).None? {
          assert (data + more)[..8] == data[..8] && (data + more)[8..16] == data[8..16];
        }
      } else {
        var more := seq(8 * Words(m), i => 0);
        assert (data + more)[..8] == data[..8] && (data + more)[8..16] == data[8..16];
        assert Parse(data + more).Some?;
      }
    }
  }
}
