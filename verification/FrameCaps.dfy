// How large chunk frames get, against the server's frame cap (index.ts, lines 864-889; manager.ts, lines 594-602).
module FrameCaps {
  import opened Decimals
  import opened Utf16
  import opened JsonText
  import opened ChunkReassembly
  import opened ChunkTransport
  import opened ChunkFrames

  // ---------- The size of a frame ----------

  /** Units that a literal holds as they are. */
  predicate Plain(s: seq<Unit>) {
    Paired(s) && forall i :: 0 <= i < |s| ==> s[i] >= 0x20 && s[i] != QUOTE && s[i] != BACKSLASH
  }

  lemma {:induction false} PlainEscapes(s: seq<Unit>)
    requires Plain(s)
    ensures Escaped(s) == s
  {
    if PairAhead(s) {
      PlainEscapes(s[2..]);
    } else if s != [] {
      PlainEscapes(s[1..]);
    }
  }

  lemma AsciiAdds(a: seq<Unit>, b: seq<Unit>)
    requires Ascii(a)
    ensures Utf8Size(a + b) == |a| + Utf8Size(b) && Utf8Size(b + a) == |a| + Utf8Size(b)
  {
    AsciiIsTransportable(a);
    SizeOfJoin(a, b);
    SizeOfJoin(b, a);
  }

  lemma QuotedSize(s: seq<Unit>)
    ensures Utf8Size(Quoted(s)) == 2 + Utf8Size(Escaped(s))
  {
    hide Escaped, Utf8Size;
    AsciiAdds([QUOTE], Escaped(s));
    AsciiAdds([QUOTE], [QUOTE] + Escaped(s));
  }

  lemma QuotedCharsSize(s: string)
    requires Printable(s)
    ensures Utf8Size(Quoted(Chars(s))) == 2 + |s|
  {
    AsciiIsTransportable(Chars(s));
    PlainEscapes(Chars(s));
    QuotedSize(Chars(s));
  }

  lemma IntegerSize(n: nat)
    ensures Utf8Size(Stringify(Integer(n))) == |Decimal(n)|
  {
    DecimalIsPrintable(n);
    AsciiIsTransportable(Chars(Decimal(n)));
  }

  /** Fields meet at units that are no half of a pair, so that their sizes add up. */
  lemma FirstFieldSize(fields: seq<Field>)
    requires fields != []
    ensures Utf8Size(StringifyFields(fields)) ==
            Utf8Size(Quoted(fields[0].name)) + 1 + Utf8Size(Stringify(fields[0].value)) +
            (if |fields| > 1 then 1 else 0) + Utf8Size(StringifyFields(fields[1..]))
  {
    hide Utf8Size, Quoted, Stringify;
    var name, value := Quoted(fields[0].name), Stringify(fields[0].value);
    var comma := if |fields| > 1 then [0x2C] else [];
    AsciiAdds([0x3A], name);
    SizeOfJoin(name + [0x3A], value);
    AsciiAdds(comma, name + [0x3A] + value);
    SizeOfJoin(name + [0x3A] + value + comma, StringifyFields(fields[1..]));
  }

  lemma FrameSize(e: Envelope)
    requires Printable(e.id) && WellFormed(e)
    ensures Utf8Size(FrameText(e)) ==
            50 + |e.id| + |Decimal(e.number)| + |Decimal(e.total)| + Utf8Size(Escaped(e.data.value))
  {
    hide Utf8Size, Quoted, StringifyFields, Chars, Integer, Escaped;
    var f := FrameFields(e);
    QuotedCharsSize("type");
    QuotedCharsSize("chunk");
    QuotedCharsSize("id");
    QuotedCharsSize(e.id);
    QuotedCharsSize("seq");
    IntegerSize(e.number);
    QuotedCharsSize("total");
    IntegerSize(e.total);
    QuotedCharsSize("data");
    QuotedSize(e.data.value);
    FiveFieldsSize(f[0], f[1], f[2], f[3], f[4]);
    assert f == [f[0], f[1], f[2], f[3], f[4]];
    AsciiAdds([0x7B], StringifyFields(f));
    AsciiAdds([0x7D], [0x7B] + StringifyFields(f));
  }

  function MemberSize(f: Field): nat {
    Utf8Size(Quoted(f.name)) + 1 + Utf8Size(Stringify(f.value))
  }

  lemma FiveFieldsSize(a: Field, b: Field, c: Field, d: Field, e: Field)
    ensures Utf8Size(StringifyFields([a, b, c, d, e])) ==
            4 + MemberSize(a) + MemberSize(b) + MemberSize(c) + MemberSize(d) + MemberSize(e)
  {
    hide Utf8Size, Quoted, Stringify, StringifyFields;
    FirstFieldSize([a, b, c, d, e]);
    FirstFieldSize([b, c, d, e]);
    FirstFieldSize([c, d, e]);
    FirstFieldSize([d, e]);
    FirstFieldSize([e]);
    NoFieldsSize();
    assert [a, b, c, d, e][1..] == [b, c, d, e] && [b, c, d, e][1..] == [c, d, e];
    assert [c, d, e][1..] == [d, e] && [d, e][1..] == [e] && [e][1..] == [];
  }

  lemma NoFieldsSize()
    ensures Utf8Size(StringifyFields([])) == 0
  {
  }

  // ---------- How much escaping a slice can cost ----------

  lemma EscapedFront(s: seq<Unit>)
    requires s != []
    ensures PairAhead(s) ==> Utf8Size(Escaped(s)) <= 4 + Utf8Size(Escaped(s[2..]))
    ensures !PairAhead(s) ==> Utf8Size(Escaped(s)) <= Utf8Size(EscapedUnit(s[0])) + Utf8Size(Escaped(s[1..]))
  {
    if PairAhead(s) {
      SizeOfJoin([s[0], s[1]], Escaped(s[2..]));
    } else {
      SizeOfJoin(EscapedUnit(s[0]), Escaped(s[1..]));
    }
  }

  lemma EscapedUnitSize(u: Unit)
    ensures Utf8Size(EscapedUnit(u)) <= 6
    ensures u >= 0x20 && !Surrogate(u) ==> Utf8Size(EscapedUnit(u)) <= 3
  {
    if |EscapedUnit(u)| == 1 {
      NoLessThanLength(EscapedUnit(u));
    } else {
      assert Ascii(EscapedUnit(u));
      AsciiIsTransportable(EscapedUnit(u));
    }
  }

  /** A prefix of well-formed text can end in half a pair. */
  lemma {:induction false} EscapedPrefix(t: seq<Unit>, j: nat)
    requires Transportable(t) && j <= |t|
    ensures Utf8Size(Escaped(t[..j])) <= 3 * j + 3
  {
    hide Escaped, EscapedUnit, Utf8Size, Surrogate;
    if j == 0 {
      NothingEscaped();
    } else {
      EscapedFront(t[..j]);
      EscapedUnitSize(t[0]);
      if PairAhead(t) {
        if j == 1 {
          NothingEscaped();
          assert t[..j][1..] == [];
        } else {
          EscapedPrefix(t[2..], j - 2);
          assert t[..j][2..] == t[2..][..j - 2];
        }
      } else {
        EscapedPrefix(t[1..], j - 1);
        assert t[..j][1..] == t[1..][..j - 1];
        SurrogateIsHalf(t[0]);
      }
    }
  }

  lemma SurrogateIsHalf(u: Unit)
    ensures Surrogate(u) <==> High(u) || Low(u)
  {
  }

  lemma NothingEscaped()
    ensures Utf8Size(Escaped([])) == 0
  {
  }

  lemma SliceOfRest(t: seq<Unit>, skip: nat, i: nat, j: nat)
    requires skip <= i <= j <= |t|
    ensures t[skip..][i - skip..j - skip] == t[i..j]
  {
    assert forall k :: 0 <= k < j - i ==> t[skip..][i - skip..j - skip][k] == t[i..j][k];
  }

  /** A slice of well-formed text can also start in half a pair. */
  lemma {:induction false} EscapedSlice(t: seq<Unit>, i: nat, j: nat)
    requires Transportable(t) && i <= j <= |t|
    ensures Utf8Size(Escaped(t[i..j])) <= 3 * (j - i) + 6
    decreases |t|
  {
    hide Escaped, EscapedUnit, Utf8Size, Surrogate;
    if i == 0 {
      EscapedPrefix(t, j);
      assert t[i..j] == t[..j];
    } else if !PairAhead(t) {
      EscapedSlice(t[1..], i - 1, j - 1);
      SliceOfRest(t, 1, i, j);
    } else if i > 1 {
      EscapedSlice(t[2..], i - 2, j - 2);
      SliceOfRest(t, 2, i, j);
    } else {
      EscapedFromHalf(t, j);
    }
  }

  lemma EscapedFromHalf(t: seq<Unit>, j: nat)
    requires Transportable(t) && PairAhead(t) && 1 <= j <= |t|
    ensures Utf8Size(Escaped(t[1..j])) <= 3 * (j - 1) + 6
  {
    hide Escaped, EscapedUnit, Utf8Size, Surrogate;
    NothingEscaped();
    if j == 1 {
      assert t[1..j] == [];
    } else {
      EscapedPrefix(t[2..], j - 2);
      EscapedFront(t[1..j]);
      EscapedUnitSize(t[1]);
      assert t[1..j][1..] == t[2..][..j - 2];
    }
  }

  // ---------- When every frame fits ----------

  predicate IsSent(payload: seq<Unit>, maxPayload: nat) {
    |payload| > maxPayload / 2 && Utf8Size(payload) <= 8 * maxPayload
  }

  lemma EnvelopeIsWellFormed(id: string, payload: seq<Unit>, maxPayload: nat, k: nat)
    requires id != "" && IsSent(payload, maxPayload)
    requires k < Total(|payload|, ChunkSize(maxPayload))
    ensures WellFormed(EnvelopeOf(id, payload, ChunkSize(maxPayload), k))
    ensures Total(|payload|, ChunkSize(maxPayload)) <= 33
  {
    FewPieces(payload, maxPayload);
  }

  lemma TwoDigits(n: nat)
    requires n < 100
    ensures |Decimal(n)| == if n < 10 then 1 else 2
  {
  }

  /** The largest frame of a sent payload. */
  lemma FrameBound(id: string, payload: seq<Unit>, maxPayload: nat, k: nat)
    requires Printable(id) && id != "" && Transportable(payload) && IsSent(payload, maxPayload)
    requires k < Total(|payload|, ChunkSize(maxPayload))
    ensures var e := EnvelopeOf(id, payload, ChunkSize(maxPayload), k);
            WellFormed(e) && Utf8Size(FrameText(e)) <= 60 + |id| + 3 * ChunkSize(maxPayload)
  {
    hide Utf8Size, Escaped, Transportable, Total, Cut, FrameText, ChunkSize, IsSent;
    var size := ChunkSize(maxPayload);
    EnvelopeIsWellFormed(id, payload, maxPayload, k);
    var e := EnvelopeOf(id, payload, size, k);
    FrameSize(e);
    TwoDigits(e.number);
    TwoDigits(e.total);
    CutsInOrder(|payload|, size, k);
    EscapedSlice(payload, Cut(|payload|, size, k), Cut(|payload|, size, k + 1));
  }

  /** Every frame of every value that send may chunk fits the cap. */
  ghost predicate FramesFit(id: string, maxPayload: nat)
    requires Printable(id) && id != ""
  {
    forall value: Json, k: nat ::
      var payload := Stringify(value);
      IsSent(payload, maxPayload) && k < Total(|payload|, ChunkSize(maxPayload)) ==>
        FrameFits(id, payload, maxPayload, k)
  }

  ghost predicate FrameFits(id: string, payload: seq<Unit>, maxPayload: nat, k: nat)
    requires Printable(id) && id != "" && IsSent(payload, maxPayload) && k < Total(|payload|, ChunkSize(maxPayload))
  {
    EnvelopeIsWellFormed(id, payload, maxPayload, k);
    Utf8Size(FrameText(EnvelopeOf(id, payload, ChunkSize(maxPayload), k))) <= maxPayload
  }

  lemma FramesFitAbove(id: string, maxPayload: nat)
    requires Printable(id) && 0 < |id| <= 16000 && maxPayload >= 49212 + |id|
    ensures FramesFit(id, maxPayload)
  {
    forall value: Json, k: nat |
      var payload := Stringify(value);
      IsSent(payload, maxPayload) && k < Total(|payload|, ChunkSize(maxPayload))
      ensures FrameFits(id, Stringify(value), maxPayload, k)
    {
      StringifyIsTransportable(value);
      FrameBound(id, Stringify(value), maxPayload, k);
    }
  }

  // ---------- Payloads with frames too large ----------

  const LETTER_A: Unit := 0x41
  const WIDE: Unit := 0x4E00
  const HALF: Unit := 0xD800
  const OTHER_HALF: Unit := 0xDC00

  function Repeat(u: Unit, n: nat): seq<Unit> {
    seq(n, _ => u)
  }

  lemma PlainJoin(a: seq<Unit>, b: seq<Unit>)
    requires Plain(a) && Plain(b)
    ensures Plain(a + b)
  {
    PairedJoin(a, b);
  }

  lemma {:induction false} RepeatIsPlain(u: Unit, n: nat)
    requires u >= 0x20 && u != QUOTE && u != BACKSLASH && !Surrogate(u)
    ensures Plain(Repeat(u, n)) && Utf8Size(Repeat(u, n)) == UnitSize(u) * n
  {
    if n > 0 {
      RepeatIsPlain(u, n - 1);
      assert Repeat(u, n)[1..] == Repeat(u, n - 1);
    }
  }

  lemma {:induction false} EscapedJoin(a: seq<Unit>, b: seq<Unit>)
    requires Plain(a)
    ensures Escaped(a + b) == a + Escaped(b)
  {
    hide EscapedUnit, Surrogate, Escaped;
    if a == [] {
      assert a + b == b;
    } else if PairAhead(a) {
      EscapedJoin(a[2..], b);
      EscapedPair(a + b);
      assert (a + b)[2..] == a[2..] + b;
    } else {
      EscapedJoin(a[1..], b);
      EscapedPlainUnit(a + b);
      assert (a + b)[1..] == a[1..] + b;
    }
  }

  lemma EscapedPair(s: seq<Unit>)
    requires PairAhead(s)
    ensures Escaped(s) == [s[0], s[1]] + Escaped(s[2..])
  {
  }

  lemma EscapedPlainUnit(s: seq<Unit>)
    requires s != [] && s[0] >= 0x20 && s[0] != QUOTE && s[0] != BACKSLASH && !Surrogate(s[0])
    ensures Escaped(s) == [s[0]] + Escaped(s[1..])
  {
  }

  lemma QuotedPlain(s: seq<Unit>)
    requires Plain(s)
    ensures Stringify(Text(s)) == [QUOTE] + s + [QUOTE]
    ensures Utf8Size(Stringify(Text(s))) == Utf8Size(s) + 2
  {
    hide Utf8Size, Escaped, Plain;
    PlainEscapes(s);
    AsciiAdds([QUOTE], s);
    AsciiAdds([QUOTE], [QUOTE] + s);
  }

  /** What the first frame of a text of wide units comes to. */
  lemma WideFrame(n: nat, size: nat)
    requires size > 0 && n > 0
    ensures var payload := [QUOTE] + Repeat(WIDE, n) + [QUOTE];
            var room := if n + 2 <= size then n else size - 1;
            Utf8Size(Escaped(Slice(payload, size, 0))) >= 3 * room + 2
  {
    hide Utf8Size, Escaped, Plain;
    var payload := [QUOTE] + Repeat(WIDE, n) + [QUOTE];
    var room := if n + 2 <= size then n else size - 1;
    var rest := if n + 2 <= size then [QUOTE] else [];
    CutsInOrder(|payload|, size, 0);
    assert Slice(payload, size, 0) == [QUOTE] + (Repeat(WIDE, room) + rest);
    RepeatIsPlain(WIDE, room);
    QuoteEscapes(Repeat(WIDE, room) + rest);
    EscapedJoin(Repeat(WIDE, room), rest);
    AsciiAdds([BACKSLASH, QUOTE], Repeat(WIDE, room) + Escaped(rest));
    SizeOfJoin(Repeat(WIDE, room), Escaped(rest));
    NotHalf(room);
  }

  lemma NotHalf(n: nat)
    ensures n > 0 ==> !High(Repeat(WIDE, n)[n - 1])
  {
  }

  lemma QuoteEscapes(s: seq<Unit>)
    ensures Escaped([QUOTE] + s) == [BACKSLASH, QUOTE] + Escaped(s)
  {
    assert ([QUOTE] + s)[1..] == s;
  }

  /** Up to three times the smallest chunk, a text of wide units overflows the cap with its first frame. */
  lemma SmallCapOverflows(id: string, maxPayload: nat)
    requires Printable(id) && id != "" && 1 < maxPayload <= 3 * MIN_CHUNK
    ensures !FramesFit(id, maxPayload)
  {
    hide Utf8Size, Escaped, Plain, FrameText, Stringify, Repeat, Total, Cut, Slice;
    var n := maxPayload / 2;
    var value, payload := Text(Repeat(WIDE, n)), [QUOTE] + Repeat(WIDE, n) + [QUOTE];
    RepeatIsPlain(WIDE, n);
    QuotedPlain(Repeat(WIDE, n));
    RepeatLength(WIDE, n);
    assert Stringify(value) == payload && IsSent(payload, maxPayload);
    var size := ChunkSize(maxPayload);
    TotalCovers(|payload|, size);
    EnvelopeIsWellFormed(id, payload, maxPayload, 0);
    WideFrame(n, size);
    var e := EnvelopeOf(id, payload, size, 0);
    FrameSize(e);
    assert !FrameFits(id, payload, maxPayload, 0);
  }

  lemma RepeatLength(u: Unit, n: nat)
    ensures |Repeat(u, n)| == n
  {
  }

  /** Twelve pieces, the eleventh of which begins and ends in half a pair and is wide between. */
  function Before(): seq<Unit> {
    Repeat(LETTER_A, 10 * MIN_CHUNK - 2) + [HALF]
  }

  function Eleventh(): seq<Unit> {
    [OTHER_HALF] + Repeat(WIDE, MIN_CHUNK - 2) + [HALF]
  }

  function Contents(): seq<Unit> {
    Before() + Eleventh() + [OTHER_HALF]
  }

  lemma ContentsArePlain()
    ensures Plain(Contents()) && |Contents()| == 11 * MIN_CHUNK
    ensures Utf8Size(Contents()) <= 20 * MIN_CHUNK
  {
    hide Utf8Size, Plain, Repeat;
    var pair := [HALF, OTHER_HALF];
    var a, w := Repeat(LETTER_A, 10 * MIN_CHUNK - 2), Repeat(WIDE, MIN_CHUNK - 2);
    RepeatLength(LETTER_A, 10 * MIN_CHUNK - 2);
    RepeatLength(WIDE, MIN_CHUNK - 2);
    assert Contents() == a + pair + w + pair;
    RepeatIsPlain(LETTER_A, 10 * MIN_CHUNK - 2);
    RepeatIsPlain(WIDE, MIN_CHUNK - 2);
    PairIsPlain();
    PlainJoin(a, pair);
    PlainJoin(a + pair, w);
    PlainJoin(a + pair + w, pair);
    SizeOfJoin(a, pair);
    SizeOfJoin(a + pair, w);
    SizeOfJoin(a + pair + w, pair);
  }

  lemma PairIsPlain()
    ensures Plain([HALF, OTHER_HALF]) && Utf8Size([HALF, OTHER_HALF]) == 4
  {
  }

  /** Halves of pairs at both ends cost six units each, wide units three bytes each. */
  lemma EleventhSize()
    ensures Utf8Size(Escaped(Eleventh())) == 3 * MIN_CHUNK + 6
  {
    hide Utf8Size, Escaped, Plain, Repeat;
    var n := MIN_CHUNK - 2;
    var w := Repeat(WIDE, n);
    RepeatIsPlain(WIDE, n);
    HalfEscapes(OTHER_HALF, w + [HALF]);
    EscapedJoin(w, [HALF]);
    HalfEscapes(HALF, []);
    NothingLeft();
    assert [HALF] + [] == [HALF];
    assert Eleventh() == [OTHER_HALF] + (w + [HALF]);
    AsciiAdds(EscapedUnit(OTHER_HALF), w + EscapedUnit(HALF));
    AsciiAdds(EscapedUnit(HALF), w);
  }

  lemma NothingLeft()
    ensures forall a: seq<Unit> :: a + Escaped([]) == a
  {
  }

  lemma HalfEscapes(u: Unit, rest: seq<Unit>)
    requires u == OTHER_HALF || (u == HALF && rest == [])
    ensures Escaped([u] + rest) == EscapedUnit(u) + Escaped(rest)
    ensures Ascii(EscapedUnit(u)) && |EscapedUnit(u)| == 6
  {
    assert ([u] + rest)[1..] == rest;
  }

  /** Just above that, the eleventh frame of the twelve still overflows. */
  lemma MiddleCapOverflows(id: string, maxPayload: nat)
    requires Printable(id) && 0 < |id| <= 16000 && 3 * MIN_CHUNK < maxPayload < 49212 + |id|
    ensures !FramesFit(id, maxPayload)
  {
    hide Utf8Size, Escaped, Plain, FrameText, Stringify, Contents, Eleventh, Before, Total, Cut, Slice;
    var value, payload := Text(Contents()), [QUOTE] + Contents() + [QUOTE];
    ContentsArePlain();
    QuotedPlain(Contents());
    var size := ChunkSize(maxPayload);
    assert size == MIN_CHUNK && Stringify(value) == payload && IsSent(payload, maxPayload);
    EleventhIsSlice();
    EnvelopeIsWellFormed(id, payload, maxPayload, 10);
    EleventhSize();
    var e := EnvelopeOf(id, payload, size, 10);
    FrameSize(e);
    TwoDigits(10);
    TwoDigits(12);
    assert !FrameFits(id, payload, maxPayload, 10);
  }

  lemma EleventhIsSlice()
    ensures var payload := [QUOTE] + Contents() + [QUOTE];
            Total(|payload|, MIN_CHUNK) == 12 && Slice(payload, MIN_CHUNK, 10) == Eleventh()
  {
    var payload := [QUOTE] + Contents() + [QUOTE];
    var first := [QUOTE] + Before();
    hide Repeat;
    RepeatLength(LETTER_A, 10 * MIN_CHUNK - 2);
    RepeatLength(WIDE, MIN_CHUNK - 2);
    assert payload == first + Eleventh() + [OTHER_HALF, QUOTE];
    assert |first| == 10 * MIN_CHUNK && |Eleventh()| == MIN_CHUNK;
  }

  /**
   * Every chunk frame fits the server's frame cap if and only if the cap is at least 49212 bytes and the length of the
   * identifier.  The configuration admits caps from 1024 bytes.
   */
  lemma FramesFitIff(id: string, maxPayload: nat)
    requires Printable(id) && 0 < |id| <= 16000 && maxPayload > 1
    ensures FramesFit(id, maxPayload) <==> maxPayload >= 49212 + |id|
  {
    hide FramesFit;
    if maxPayload >= 49212 + |id| {
      FramesFitAbove(id, maxPayload);
    } else if maxPayload <= 3 * MIN_CHUNK {
      SmallCapOverflows(id, maxPayload);
    } else {
      MiddleCapOverflows(id, maxPayload);
    }
  }

  function PowerOfTen(k: nat): nat {
    if k == 0 then 1 else 10 * PowerOfTen(k - 1)
  }

  lemma {:induction false} DecimalLength(n: nat, k: nat)
    requires 0 < k && n < PowerOfTen(k)
    ensures |Decimal(n)| <= k
  {
    if n >= 10 {
      DecimalLength(n / 10, k - 1);
    }
  }

  /** With a clock and a counter of at most 16 digits, as safe integers are, all frames fit from 65536 bytes on. */
  lemma DefaultCapsFit(now: nat, counter: nat, maxPayload: nat)
    requires now < PowerOfTen(16) && counter < PowerOfTen(16) && maxPayload >= 65536
    ensures Printable(ChunkId(now, counter)) && ChunkId(now, counter) != "" &&
      FramesFit(ChunkId(now, counter), maxPayload)
  {
    hide PowerOfTen, FramesFit;
    DecimalIsPrintable(now);
    DecimalIsPrintable(counter);
    DecimalLength(now, 16);
    DecimalLength(counter, 16);
    FramesFitAbove(ChunkId(now, counter), maxPayload);
  }
}
