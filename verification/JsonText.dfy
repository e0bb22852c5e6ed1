// Text that JSON.stringify produces: string escaping after section 7 of RFC 8259, with lone surrogates escaped
// (used by send, index.ts, lines 864-889).
module JsonText {
  import opened Options
  import opened Utf16

  const QUOTE: Unit := 0x22
  const BACKSLASH: Unit := 0x5C
  const LETTER_U: Unit := 0x75

  function HexDigit(d: nat): Unit
    requires d < 16
  {
    if d < 10 then 0x30 + d else 0x61 + (d - 10)
  }

  function Hex(u: Unit): (r: seq<Unit>)
    ensures |r| == 4
  {
    [HexDigit(u / 0x1000), HexDigit(u / 0x100 % 16), HexDigit(u / 0x10 % 16), HexDigit(u % 16)]
  }

  /** The letter of a two-unit escape, if the unit has one. */
  function Letter(u: Unit): Option<Unit> {
    if u == QUOTE || u == BACKSLASH then Some(u)
    else if u == 0x08 then Some(0x62)
    else if u == 0x0C then Some(0x66)
    else if u == 0x0A then Some(0x6E)
    else if u == 0x0D then Some(0x72)
    else if u == 0x09 then Some(0x74)
    else None
  }

  function EscapedUnit(u: Unit): seq<Unit> {
    if Letter(u).Some? then [BACKSLASH, Letter(u).value]
    else if u < 0x20 || Surrogate(u) then [BACKSLASH, LETTER_U] + Hex(u)
    else [u]
  }

  /** The contents of a string literal; pairs stay as they are, halves of pairs are escaped. */
  function Escaped(s: seq<Unit>): seq<Unit> {
    if s == [] then []
    else if PairAhead(s) then [s[0], s[1]] + Escaped(s[2..])
    else EscapedUnit(s[0]) + Escaped(s[1..])
  }

  // ---------- Reading a literal back ----------

  function HexValue(u: Unit): Option<nat> {
    if 0x30 <= u <= 0x39 then Some(u - 0x30)
    else if 0x61 <= u <= 0x66 then Some(u - 0x61 + 10)
    else if 0x41 <= u <= 0x46 then Some(u - 0x41 + 10)
    else None
  }

  function HexRead(t: seq<Unit>): Option<Unit>
    requires |t| == 4
  {
    match (HexValue(t[0]), HexValue(t[1]), HexValue(t[2]), HexValue(t[3]))
    case (Some(a), Some(b), Some(c), Some(d)) =>
      var u := a * 0x1000 + b * 0x100 + c * 0x10 + d;
      if u < 0x10000 then Some(u) else None
    case _ => None
  }

  function Unlettered(u: Unit): Option<Unit> {
    if u == QUOTE || u == BACKSLASH || u == 0x2F then Some(u)
    else if u == 0x62 then Some(0x08)
    else if u == 0x66 then Some(0x0C)
    else if u == 0x6E then Some(0x0A)
    else if u == 0x72 then Some(0x0D)
    else if u == 0x74 then Some(0x09)
    else None
  }

  /** One character of a literal: the unit and how much text it took. */
  function ReadUnit(t: seq<Unit>): Option<(Unit, nat)>
    requires t != []
  {
    if t[0] != BACKSLASH then
      if t[0] < 0x20 then None else Some((t[0], 1))
    else if |t| >= 6 && t[1] == LETTER_U then
      if HexRead(t[2..6]).Some? then Some((HexRead(t[2..6]).value, 6)) else None
    else if |t| >= 2 && Unlettered(t[1]).Some? then Some((Unlettered(t[1]).value, 2))
    else None
  }

  /** The text up to the closing quote, and what follows it. */
  function ReadLiteral(t: seq<Unit>): (r: Option<(seq<Unit>, seq<Unit>)>)
    ensures r.Some? ==> |r.value.1| < |t|
    decreases |t|
  {
    if t == [] then None
    else if t[0] == QUOTE then Some(([], t[1..]))
    else
      match ReadUnit(t)
      case None => None
      case Some((u, n)) =>
        if n > |t| || n == 0 then None
        else
          match ReadLiteral(t[n..])
          case None => None
          case Some((units, rest)) => Some(([u] + units, rest))
  }

  lemma HexDigitReads(d: nat)
    requires d < 16
    ensures HexValue(HexDigit(d)) == Some(d)
  {
  }

  lemma HexReads(u: Unit)
    ensures HexRead(Hex(u)) == Some(u)
  {
    hide HexDigit, HexValue;
    HexDigitReads(u / 0x1000);
    HexDigitReads(u / 0x100 % 16);
    HexDigitReads(u / 0x10 % 16);
    HexDigitReads(u % 16);
    var q := u / 0x10;
    var r := q / 0x10;
    assert u / 0x100 == r && u / 0x1000 == r / 0x10;
    assert u == q * 0x10 + u % 16 && q == r * 0x10 + q % 16;
  }

  lemma EscapedUnitReads(u: Unit, rest: seq<Unit>)
    ensures var e := EscapedUnit(u);
            (e + rest)[0] != QUOTE && (e + rest)[|e|..] == rest && ReadUnit(e + rest) == Some((u, |e|))
  {
    hide Hex, HexRead;
    HexReads(u);
    var e := EscapedUnit(u);
    if |e| == 6 {
      assert (e + rest)[2..6] == Hex(u);
    }
  }

  lemma ReadsPlain(u: Unit, rest: seq<Unit>)
    requires Surrogate(u)
    ensures var t := [u] + rest; t[0] != QUOTE && t[1..] == rest && ReadUnit(t) == Some((u, 1))
  {
  }

  lemma OneUnitRead(t: seq<Unit>, u: Unit, n: nat, units: seq<Unit>, tail: seq<Unit>)
    requires t != [] && t[0] != QUOTE && 0 < n <= |t| && ReadUnit(t) == Some((u, n))
    requires ReadLiteral(t[n..]) == Some((units, tail))
    ensures ReadLiteral(t) == Some(([u] + units, tail))
  {
  }

  /** Reading an escaped literal gives the text back, whatever surrogates it holds. */
  lemma {:induction false} EscapingReadsBack(s: seq<Unit>, tail: seq<Unit>)
    ensures ReadLiteral(Escaped(s) + [QUOTE] + tail) == Some((s, tail))
  {
    hide ReadLiteral, ReadUnit, EscapedUnit, Surrogate;
    var end := [QUOTE] + tail;
    assert Escaped(s) + [QUOTE] + tail == Escaped(s) + end;
    if s == [] {
      ClosingQuote(tail);
      assert Escaped(s) + end == end;
    } else if PairAhead(s) {
      var rest := Escaped(s[2..]) + end;
      EscapingReadsBack(s[2..], tail);
      assert Escaped(s[2..]) + [QUOTE] + tail == rest;
      PairReads(s, rest, tail);
      assert Escaped(s) + end == [s[0]] + ([s[1]] + rest);
    } else {
      var rest := Escaped(s[1..]) + end;
      EscapingReadsBack(s[1..], tail);
      assert Escaped(s[1..]) + [QUOTE] + tail == rest;
      EscapedUnitReads(s[0], rest);
      EscapedUnitLength(s[0]);
      OneUnitRead(EscapedUnit(s[0]) + rest, s[0], |EscapedUnit(s[0])|, s[1..], tail);
      assert Escaped(s) + end == EscapedUnit(s[0]) + rest;
      assert [s[0]] + s[1..] == s;
    }
  }

  lemma PairReads(s: seq<Unit>, rest: seq<Unit>, tail: seq<Unit>)
    requires PairAhead(s) && ReadLiteral(rest) == Some((s[2..], tail))
    ensures ReadLiteral([s[0]] + ([s[1]] + rest)) == Some((s, tail))
  {
    hide ReadLiteral, ReadUnit;
    ReadsPlain(s[1], rest);
    OneUnitRead([s[1]] + rest, s[1], 1, s[2..], tail);
    ReadsPlain(s[0], [s[1]] + rest);
    OneUnitRead([s[0]] + ([s[1]] + rest), s[0], 1, [s[1]] + s[2..], tail);
    assert [s[0]] + ([s[1]] + s[2..]) == s;
  }

  lemma ClosingQuote(tail: seq<Unit>)
    ensures ReadLiteral([QUOTE] + tail) == Some(([], tail))
  {
    assert ([QUOTE] + tail)[1..] == tail;
  }

  /** What is escaped, and how; a quote, a backslash and these control characters have letters of their own. */
  lemma EscapesByTable(u: Unit)
    ensures EscapedUnit(0x22) == [0x5C, 0x22] && EscapedUnit(0x5C) == [0x5C, 0x5C]
    ensures EscapedUnit(0x08) == [0x5C, 0x62] && EscapedUnit(0x0C) == [0x5C, 0x66] && EscapedUnit(0x0A) == [0x5C, 0x6E]
    ensures EscapedUnit(0x0D) == [0x5C, 0x72] && EscapedUnit(0x09) == [0x5C, 0x74]
    ensures EscapedUnit(0x1F) == [0x5C, 0x75, 0x30, 0x30, 0x31, 0x66]
    ensures EscapedUnit(0xDBCA) == [0x5C, 0x75, 0x64, 0x62, 0x63, 0x61]
    ensures u >= 0x20 && u != 0x22 && u != 0x5C && !(0xD800 <= u < 0xE000) ==> EscapedUnit(u) == [u]
  {
  }

  lemma EscapedUnitLength(u: Unit)
    ensures 1 <= |EscapedUnit(u)| <= 6
  {
  }

  // ---------- What JSON.stringify guarantees about its text ----------

  /** No control characters and no lone surrogates. */
  predicate Transportable(s: seq<Unit>) {
    Paired(s) && forall i :: 0 <= i < |s| ==> s[i] >= 0x20
  }

  lemma {:induction false} PairedJoin(a: seq<Unit>, b: seq<Unit>)
    requires Paired(a) && Paired(b)
    ensures Paired(a + b)
  {
    if a == [] {
      assert a + b == b;
    } else if PairAhead(a) {
      PairedJoin(a[2..], b);
      assert (a + b)[2..] == a[2..] + b;
    } else {
      PairedJoin(a[1..], b);
      assert (a + b)[1..] == a[1..] + b;
    }
  }

  lemma TransportableJoin(a: seq<Unit>, b: seq<Unit>)
    requires Transportable(a) && Transportable(b)
    ensures Transportable(a + b)
  {
    PairedJoin(a, b);
  }

  predicate Ascii(s: seq<Unit>) {
    forall i :: 0 <= i < |s| ==> 0x20 <= s[i] < 0x80
  }

  lemma {:induction false} AsciiIsTransportable(s: seq<Unit>)
    requires Ascii(s)
    ensures Transportable(s) && Utf8Size(s) == |s|
  {
    if s != [] {
      AsciiIsTransportable(s[1..]);
    }
  }

  lemma {:induction false} EscapedIsTransportable(s: seq<Unit>)
    ensures Transportable(Escaped(s))
  {
    if s == [] {
    } else if PairAhead(s) {
      EscapedIsTransportable(s[2..]);
      TransportableJoin([s[0], s[1]], Escaped(s[2..]));
    } else {
      EscapedIsTransportable(s[1..]);
      EscapedUnitIsTransportable(s[0]);
      TransportableJoin(EscapedUnit(s[0]), Escaped(s[1..]));
    }
  }

  lemma EscapedUnitIsTransportable(u: Unit)
    ensures Transportable(EscapedUnit(u))
  {
    if Letter(u).Some? || u < 0x20 || Surrogate(u) {
      AsciiIsTransportable(EscapedUnit(u));
    }
  }

  // ---------- Values ----------

  /** The units of numbers and of true, false and null: letters, digits, signs and the point. */
  predicate LiteralUnit(u: Unit) {
    0x30 <= u <= 0x39 || 0x41 <= u <= 0x5A || 0x61 <= u <= 0x7A || u == 0x2B || u == 0x2D || u == 0x2E
  }

  type LiteralText = s: seq<Unit> | s != [] && forall i :: 0 <= i < |s| ==> LiteralUnit(s[i]) witness [0x30]

  datatype Json =
    | Literal(text: LiteralText)
    | Text(units: seq<Unit>)
    | List(items: seq<Json>)
    | Record(fields: seq<Field>)

  datatype Field = Field(name: seq<Unit>, value: Json)

  function Quoted(s: seq<Unit>): seq<Unit> {
    [QUOTE] + Escaped(s) + [QUOTE]
  }

  function Stringify(value: Json): seq<Unit> {
    match value
    case Literal(text) => text
    case Text(units) => Quoted(units)
    case List(items) => [0x5B] + StringifyItems(items) + [0x5D]
    case Record(fields) => [0x7B] + StringifyFields(fields) + [0x7D]
  }

  function StringifyItems(items: seq<Json>): seq<Unit> {
    if items == [] then []
    else Stringify(items[0]) + (if |items| > 1 then [0x2C] else []) + StringifyItems(items[1..])
  }

  function StringifyFields(fields: seq<Field>): seq<Unit> {
    if fields == [] then []
    else
      Quoted(fields[0].name) + [0x3A] + Stringify(fields[0].value) + (if |fields| > 1 then [0x2C] else []) +
      StringifyFields(fields[1..])
  }

  lemma QuotedIsTransportable(s: seq<Unit>)
    ensures Transportable(Quoted(s))
  {
    hide Transportable;
    EscapedIsTransportable(s);
    AsciiIsTransportable([QUOTE]);
    TransportableJoin([QUOTE], Escaped(s));
    TransportableJoin([QUOTE] + Escaped(s), [QUOTE]);
  }

  /** Whatever the value, its JSON text holds no control character and no lone surrogate. */
  lemma {:induction false} StringifyIsTransportable(value: Json)
    ensures Transportable(Stringify(value))
  {
    hide Transportable;
    match value
    case Literal(text) => AsciiIsTransportable(text);
    case Text(units) => QuotedIsTransportable(units);
    case List(items) =>
      ItemsAreTransportable(items);
      Enclosed(0x5B, StringifyItems(items), 0x5D);
    case Record(fields) =>
      FieldsAreTransportable(fields);
      Enclosed(0x7B, StringifyFields(fields), 0x7D);
  }

  lemma Enclosed(open: Unit, s: seq<Unit>, close: Unit)
    requires Transportable(s) && Ascii([open]) && Ascii([close])
    ensures Transportable([open] + s + [close])
  {
    hide Transportable;
    AsciiIsTransportable([open]);
    AsciiIsTransportable([close]);
    TransportableJoin([open], s);
    TransportableJoin([open] + s, [close]);
  }

  lemma {:induction false} ItemsAreTransportable(items: seq<Json>)
    ensures Transportable(StringifyItems(items))
  {
    hide Transportable;
    AsciiIsTransportable([]);
    AsciiIsTransportable([0x2C]);
    if items != [] {
      StringifyIsTransportable(items[0]);
      ItemsAreTransportable(items[1..]);
      var comma := if |items| > 1 then [0x2C] else [];
      TransportableJoin(Stringify(items[0]), comma);
      TransportableJoin(Stringify(items[0]) + comma, StringifyItems(items[1..]));
    }
  }

  lemma {:induction false} FieldsAreTransportable(fields: seq<Field>)
    ensures Transportable(StringifyFields(fields))
  {
    hide Transportable;
    AsciiIsTransportable([]);
    AsciiIsTransportable([0x2C]);
    AsciiIsTransportable([0x3A]);
    if fields != [] {
      var Field(name, value) := fields[0];
      QuotedIsTransportable(name);
      assert value == fields[0].value;
      StringifyIsTransportable(value);
      FieldsAreTransportable(fields[1..]);
      var comma := if |fields| > 1 then [0x2C] else [];
      TransportableJoin(Quoted(name), [0x3A]);
      TransportableJoin(Quoted(name) + [0x3A], Stringify(value));
      TransportableJoin(Quoted(name) + [0x3A] + Stringify(value), comma);
      TransportableJoin(Quoted(name) + [0x3A] + Stringify(value) + comma, StringifyFields(fields[1..]));
    }
  }
}
