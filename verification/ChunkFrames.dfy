// The frames that carry chunk envelopes, and how the server reads them (index.ts, lines 876-887; manager.ts,
// lines 536-544, 594-647).
module ChunkFrames {
  import opened Options
  import opened Decimals
  import opened Utf16
  import opened JsonText
  import opened JsonReader
  import opened ChunkReassembly
  import opened ChunkTransport

  // ---------- Writing a frame ----------

  /** Characters that a JSON literal holds as they are. */
  predicate Printable(s: string) {
    forall i :: 0 <= i < |s| ==> ' ' <= s[i] <= '~' && s[i] != '"' && s[i] != '\\'
  }

  function Chars(s: string): (r: seq<Unit>)
    requires Printable(s)
    ensures |r| == |s| && Ascii(r)
  {
    seq(|s|, i requires 0 <= i < |s| => s[i] as int)
  }

  lemma DecimalIsPrintable(n: nat)
    ensures Printable(Decimal(n))
    ensures forall i :: 0 <= i < |Decimal(n)| ==> LiteralUnit(Chars(Decimal(n))[i])
  {
    DecimalIsDigits(n);
  }

  function Integer(n: nat): Json {
    DecimalIsPrintable(n);
    Literal(Chars(Decimal(n)))
  }

  function FrameFields(e: Envelope): seq<Field>
    requires Printable(e.id) && WellFormed(e)
  {
    [ Field(Chars("type"), Text(Chars("chunk"))),
      Field(Chars("id"), Text(Chars(e.id))),
      Field(Chars("seq"), Integer(e.number)),
      Field(Chars("total"), Integer(e.total)),
      Field(Chars("data"), Text(e.data.value)) ]
  }

  function FrameText(e: Envelope): seq<Unit>
    requires Printable(e.id) && WellFormed(e)
  {
    Stringify(Record(FrameFields(e)))
  }

  // ---------- Reading a frame ----------

  /** The value of a name; of several the last, as JSON.parse keeps it. */
  function FieldNamed(fields: seq<Field>, name: seq<Unit>): Option<Json> {
    if fields == [] then None
    else
      var last := fields[|fields| - 1];
      if last.name == name then Some(last.value) else FieldNamed(fields[..|fields| - 1], name)
  }

  /** A number written in decimal digits, the last of them the ones. */
  function ReadDecimal(t: seq<Unit>): Option<nat> {
    if t == [] || !(0x30 <= t[|t| - 1] <= 0x39) then None
    else if |t| == 1 then Some(t[0] - 0x30)
    else
      match ReadDecimal(t[..|t| - 1])
      case None => None
      case Some(tens) => Some(10 * tens + (t[|t| - 1] - 0x30))
  }

  function NumberIn(value: Option<Json>, otherwise: int): int {
    match value
    case Some(Literal(text)) => if ReadDecimal(text).Some? then ReadDecimal(text).value else otherwise
    case _ => otherwise
  }

  function CharOf(u: Unit): char {
    if Surrogate(u) then REPLACEMENT as char else u as char
  }

  function StringOf(units: seq<Unit>): string {
    seq(|units|, i requires 0 <= i < |units| => CharOf(units[i]))
  }

  /** The envelope of a frame whose type is 'chunk'; a field that is absent or of another type reads as invalid. */
  function ReadFrame(text: seq<Unit>): Option<Envelope> {
    match Parse(text)
    case Some(Record(fields)) =>
      if FieldNamed(fields, Chars("type")) != Some(Text(Chars("chunk"))) then None
      else
        var id, data := FieldNamed(fields, Chars("id")), FieldNamed(fields, Chars("data"));
        Some(Envelope(
          if id.Some? && id.value.Text? then StringOf(id.value.units) else "",
          NumberIn(FieldNamed(fields, Chars("seq")), -1),
          NumberIn(FieldNamed(fields, Chars("total")), 0),
          if data.Some? && data.value.Text? then Some(data.value.units) else None))
    case _ => None
  }

  lemma StringReadsBack(s: string)
    requires Printable(s)
    ensures StringOf(Chars(s)) == s
  {
  }

  lemma DigitUnit(d: nat)
    requires d < 10
    ensures DIGITS[d] as int == 0x30 + d
  {
  }

  lemma OneMoreDigit(t: seq<Unit>, tens: nat, ones: nat)
    requires |t| > 1 && ones < 10 && t[|t| - 1] == 0x30 + ones && ReadDecimal(t[..|t| - 1]) == Some(tens)
    ensures ReadDecimal(t) == Some(10 * tens + ones)
  {
  }

  /** Digit by digit: the number is what its decimal says. */
  lemma {:induction false} DecimalReadsBack(n: nat)
    ensures Printable(Decimal(n)) && ReadDecimal(Chars(Decimal(n))) == Some(n)
  {
    hide ReadDecimal;
    DecimalIsPrintable(n);
    var t := Chars(Decimal(n));
    if n < 10 {
      DigitUnit(n);
      OneDigit(t, n);
    } else {
      DecimalReadsBack(n / 10);
      DigitUnit(n % 10);
      assert t[..|t| - 1] == Chars(Decimal(n / 10));
      OneMoreDigit(t, n / 10, n % 10);
    }
  }

  lemma OneDigit(t: seq<Unit>, ones: nat)
    requires |t| == 1 && ones < 10 && t[0] == 0x30 + ones
    ensures ReadDecimal(t) == Some(ones)
  {
  }

  lemma IntegerReadsBack(n: nat, otherwise: int)
    ensures NumberIn(Some(Integer(n)), otherwise) == n
  {
    DecimalReadsBack(n);
  }

  lemma OneMoreField(fields: seq<Field>, f: Field, name: seq<Unit>)
    ensures FieldNamed(fields + [f], name) == if f.name == name then Some(f.value) else FieldNamed(fields, name)
  {
    assert (fields + [f])[..|fields|] == fields;
  }

  lemma FieldOfFive(a: Field, b: Field, c: Field, d: Field, e: Field, name: seq<Unit>)
    ensures FieldNamed([a, b, c, d, e], name) ==
            if e.name == name then Some(e.value)
            else if d.name == name then Some(d.value)
            else if c.name == name then Some(c.value)
            else if b.name == name then Some(b.value)
            else if a.name == name then Some(a.value)
            else None
  {
    OneMoreField([a, b, c, d], e, name);
    OneMoreField([a, b, c], d, name);
    OneMoreField([a, b], c, name);
    OneMoreField([a], b, name);
    OneMoreField([], a, name);
    assert [a, b, c, d, e] == [a, b, c, d] + [e] && [a, b, c, d] == [a, b, c] + [d];
    assert [a, b, c] == [a, b] + [c] && [a, b] == [a] + [b] && [a] == [] + [a];
  }

  lemma NamesDiffer()
    ensures Chars("type") != Chars("data") && Chars("type") != Chars("id") && Chars("type") != Chars("seq")
    ensures Chars("type") != Chars("total") && Chars("id") != Chars("seq") && Chars("id") != Chars("total")
    ensures Chars("id") != Chars("data") && Chars("seq") != Chars("total") && Chars("seq") != Chars("data")
    ensures Chars("total") != Chars("data")
  {
    assert Chars("type")[0] != Chars("data")[0];
  }

  /** A frame's bytes decode to its text even where the piece cuts a surrogate pair. */
  lemma FrameTextSurvives(e: Envelope)
    requires Printable(e.id) && WellFormed(e)
    ensures Decoded(Utf8(FrameText(e))) == FrameText(e)
  {
    StringifyIsTransportable(Record(FrameFields(e)));
    Utf8RoundTrip(FrameText(e));
  }

  /** Whatever the envelope, the server reads from its frame's bytes exactly what was sent. */
  lemma FrameReadsBack(e: Envelope)
    requires Printable(e.id) && WellFormed(e)
    ensures ReadFrame(Decoded(Utf8(FrameText(e)))) == Some(e)
  {
    hide Stringify, Parse, Utf8, Decoded, FieldNamed, Chars, Integer, NumberIn;
    FrameTextSurvives(e);
    ParsesBack(Record(FrameFields(e)));
    var f := FrameFields(e);
    FieldOfFive(f[0], f[1], f[2], f[3], f[4], Chars("type"));
    FieldOfFive(f[0], f[1], f[2], f[3], f[4], Chars("id"));
    FieldOfFive(f[0], f[1], f[2], f[3], f[4], Chars("seq"));
    FieldOfFive(f[0], f[1], f[2], f[3], f[4], Chars("total"));
    FieldOfFive(f[0], f[1], f[2], f[3], f[4], Chars("data"));
    assert f == [f[0], f[1], f[2], f[3], f[4]];
    NamesDiffer();
    StringReadsBack(e.id);
    IntegerReadsBack(e.number, -1);
    IntegerReadsBack(e.total, 0);
  }

  lemma ChunkIdIsPrintable(now: nat, counter: nat)
    ensures Printable(ChunkId(now, counter)) && ChunkId(now, counter) != ""
  {
    DecimalIsPrintable(now);
    DecimalIsPrintable(counter);
  }

  // ---------- From the sender's value to the server's ----------

  /** A message that the server receives, and when. */
  datatype Frame = Frame(bytes: seq<Byte>, at: int)

  /** What handleChunk is given, of messages that are all chunk frames. */
  function Arrivals(frames: seq<Frame>): seq<Arrival>
    requires forall i :: 0 <= i < |frames| ==> ReadFrame(Decoded(frames[i].bytes)).Some?
  {
    seq(|frames|, i requires 0 <= i < |frames| =>
      Arrival(ReadFrame(Decoded(frames[i].bytes)).value, frames[i].at))
  }

  /** The bytes are those of a frame that send writes for a piece of the payload. */
  ghost predicate IsSentFrame(f: Frame, id: string, payload: seq<Unit>, size: nat)
    requires Printable(id) && id != "" && size > 0 && Total(|payload|, size) <= 4096
  {
    exists k: nat :: k < Total(|payload|, size) && f.bytes == Utf8(FrameText(EnvelopeOf(id, payload, size, k)))
  }

  lemma SentFrameReads(f: Frame, id: string, payload: seq<Unit>, size: nat)
    requires Printable(id) && id != "" && size > 0 && Total(|payload|, size) <= 4096
    requires IsSentFrame(f, id, payload, size)
    ensures var e := ReadFrame(Decoded(f.bytes)); e.Some? && IsPiece(e.value, id, payload, size)
  {
    hide FrameText, Utf8, Decoded, Total, ReadFrame;
    var k: nat :| k < Total(|payload|, size) && f.bytes == Utf8(FrameText(EnvelopeOf(id, payload, size, k)));
    FrameReadsBack(EnvelopeOf(id, payload, size, k));
  }

  /**
   * Among any chunk frames, those that carry the id are frames that send wrote for this payload, in any order and any
   * number of times, all in time, and not all of them there before the last.
   */
  ghost predicate FramesOf(frames: seq<Frame>, id: string, payload: seq<Unit>, size: nat)
    requires Printable(id) && id != "" && size > 0 && Total(|payload|, size) <= 4096
  {
    && (forall i :: 0 <= i < |frames| ==> ReadFrame(Decoded(frames[i].bytes)).Some?)
    && var arrivals := Arrivals(frames);
       && (forall i :: 0 <= i < |frames| && arrivals[i].envelope.id == id ==> IsSentFrame(frames[i], id, payload, size))
       && (forall i :: 0 <= i < |frames| ==> InTime(arrivals, i, id))
       && (frames != [] ==> !Covers(Seen(arrivals[..|frames| - 1], id), Total(|payload|, size)))
  }

  /**
   * From the value that is sent to the value that the server handles: of a payload within eight frame caps no frame is
   * refused, and when the last missing one has come in, the text put together is the payload and parses to the value.
   */
  lemma SentValueArrives(table: Table, maxPayload: nat, frames: seq<Frame>, now: nat, counter: nat, value: Json)
    requires var id, payload := ChunkId(now, counter), Stringify(value);
             id !in table && |payload| > maxPayload / 2 && Utf8Size(payload) <= 8 * maxPayload
    ensures var id, payload, size := ChunkId(now, counter), Stringify(value), ChunkSize(maxPayload);
            && Printable(id) && id != "" && Total(|payload|, size) <= 33
            && (FramesOf(frames, id, payload, size) ==>
                  var arrivals := Arrivals(frames);
                  var (after, outcomes) := Run(table, 8 * maxPayload, arrivals);
                  var complete := Covers(Seen(arrivals, id), Total(|payload|, size));
                  && (forall i :: 0 <= i < |frames| && arrivals[i].envelope.id == id ==>
                        outcomes[i] == if complete && i == |frames| - 1 then Complete(payload) else Stored)
                  && (complete ==> frames != [] && arrivals[|frames| - 1].envelope.id == id && id !in after))
            && Parse(payload) == Some(value)
  {
    hide Stringify, Utf8Size, Run, Total, Covers, Seen, InTime, ChunkId, Parse, IsSentFrame, IsPiece, ReadFrame,
      Decoded;
    var id, payload, size := ChunkId(now, counter), Stringify(value), ChunkSize(maxPayload);
    ChunkIdIsPrintable(now, counter);
    FewPieces(payload, maxPayload);
    ParsesBack(value);
    if FramesOf(frames, id, payload, size) {
      var arrivals := Arrivals(frames);
      forall i | 0 <= i < |frames| && arrivals[i].envelope.id == id
        ensures IsPiece(arrivals[i].envelope, id, payload, size)
      {
        SentFrameReads(frames[i], id, payload, size);
      }
      SentPayloadArrives(table, maxPayload, arrivals, id, payload);
    }
  }
}
