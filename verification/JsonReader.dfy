// Reading JSON text (section 2 of RFC 8259) as JSON.parse does, without the blanks that JSON.stringify never writes
// (manager.ts, lines 585 and 604).
module JsonReader {
  import opened Options
  import opened Utf16
  import opened JsonText

  /** How many units at the beginning belong to a number, true, false or null. */
  function LiteralRun(t: seq<Unit>): (n: nat)
    ensures n <= |t| && forall i :: 0 <= i < n ==> LiteralUnit(t[i])
    ensures n < |t| ==> !LiteralUnit(t[n])
  {
    if t == [] || !LiteralUnit(t[0]) then 0 else 1 + LiteralRun(t[1..])
  }

  /** The value that the text begins with, and what follows it. */
  function ReadValue(t: seq<Unit>): (r: Option<(Json, seq<Unit>)>)
    ensures r.Some? ==> |r.value.1| < |t|
    decreases |t|, 0
  {
    if t == [] then None
    else if t[0] == 0x22 then
      match ReadLiteral(t[1..])
      case None => None
      case Some((units, rest)) => Some((Text(units), rest))
    else if t[0] == 0x5B then
      if |t| > 1 && t[1] == 0x5D then Some((List([]), t[2..]))
      else
        match ReadItems(t[1..])
        case None => None
        case Some((items, rest)) => Some((List(items), rest))
    else if t[0] == 0x7B then
      if |t| > 1 && t[1] == 0x7D then Some((Record([]), t[2..]))
      else
        match ReadFields(t[1..])
        case None => None
        case Some((fields, rest)) => Some((Record(fields), rest))
    else
      var n := LiteralRun(t);
      if n == 0 then None else Some((Literal(t[..n]), t[n..]))
  }

  /** The items up to the closing bracket. */
  function ReadItems(t: seq<Unit>): (r: Option<(seq<Json>, seq<Unit>)>)
    ensures r.Some? ==> |r.value.1| < |t|
    decreases |t|, 1
  {
    match ReadValue(t)
    case None => None
    case Some((first, rest)) =>
      if rest == [] then None
      else if rest[0] == 0x5D then Some(([first], rest[1..]))
      else if rest[0] == 0x2C then
        match ReadItems(rest[1..])
        case None => None
        case Some((items, after)) => Some(([first] + items, after))
      else None
  }

  /** The fields up to the closing brace. */
  function ReadFields(t: seq<Unit>): (r: Option<(seq<Field>, seq<Unit>)>)
    ensures r.Some? ==> |r.value.1| < |t|
    decreases |t|, 1
  {
    match ReadField(t)
    case None => None
    case Some((first, rest)) =>
      if rest == [] then None
      else if rest[0] == 0x7D then Some(([first], rest[1..]))
      else if rest[0] == 0x2C then
        match ReadFields(rest[1..])
        case None => None
        case Some((fields, after)) => Some(([first] + fields, after))
      else None
  }

  function ReadField(t: seq<Unit>): (r: Option<(Field, seq<Unit>)>)
    ensures r.Some? ==> |r.value.1| < |t|
    decreases |t|, 0
  {
    if t == [] || t[0] != 0x22 then None
    else
      match ReadLiteral(t[1..])
      case None => None
      case Some((name, rest)) =>
        if rest == [] || rest[0] != 0x3A then None
        else
          match ReadValue(rest[1..])
          case None => None
          case Some((value, after)) => Some((Field(name, value), after))
  }

  /** The value of a text that holds one and nothing else. */
  function Parse(t: seq<Unit>): Option<Json> {
    match ReadValue(t)
    case None => None
    case Some((value, rest)) => if rest == [] then Some(value) else None
  }

  // ---------- What was written is read ----------

  /** What may follow a value in JSON text: nothing that would lengthen a literal. */
  predicate Ends(tail: seq<Unit>) {
    tail == [] || !LiteralUnit(tail[0])
  }

  lemma {:induction false} RunEnds(text: seq<Unit>, tail: seq<Unit>)
    requires Ends(tail) && forall i :: 0 <= i < |text| ==> LiteralUnit(text[i])
    ensures LiteralRun(text + tail) == |text|
  {
    if text == [] {
      assert text + tail == tail;
    } else {
      RunEnds(text[1..], tail);
      assert (text + tail)[1..] == text[1..] + tail;
    }
  }

  lemma LiteralReads(text: LiteralText, tail: seq<Unit>)
    requires Ends(tail)
    ensures ReadValue(text + tail) == Some((Literal(text), tail))
  {
    RunEnds(text, tail);
    var t := text + tail;
    assert t[0] == text[0];
    assert t[..|text|] == text && t[|text|..] == tail;
  }

  lemma QuotedReads(s: seq<Unit>, tail: seq<Unit>)
    ensures var t := Quoted(s) + tail; t != [] && t[0] == 0x22 && ReadLiteral(t[1..]) == Some((s, tail))
  {
    hide ReadLiteral, Escaped;
    EscapingReadsBack(s, tail);
    assert (Quoted(s) + tail)[1..] == Escaped(s) + [QUOTE] + tail;
  }

  /** What a value begins with is neither of the closing brackets. */
  lemma FirstUnit(value: Json)
    ensures Stringify(value) != [] && Stringify(value)[0] != 0x5D
  {
  }

  lemma BracketReads(inner: seq<Unit>, items: seq<Json>, tail: seq<Unit>)
    requires inner != [] && inner[0] != 0x5D && ReadItems(inner) == Some((items, tail))
    ensures ReadValue([0x5B] + inner) == Some((List(items), tail))
  {
    assert ([0x5B] + inner)[1..] == inner;
  }

  lemma BraceReads(inner: seq<Unit>, fields: seq<Field>, tail: seq<Unit>)
    requires inner != [] && inner[0] != 0x7D && ReadFields(inner) == Some((fields, tail))
    ensures ReadValue([0x7B] + inner) == Some((Record(fields), tail))
  {
    assert ([0x7B] + inner)[1..] == inner;
  }

  lemma EmptyReads(tail: seq<Unit>)
    ensures ReadValue([0x5B, 0x5D] + tail) == Some((List([]), tail))
    ensures ReadValue([0x7B, 0x7D] + tail) == Some((Record([]), tail))
  {
    assert ([0x5B, 0x5D] + tail)[2..] == tail && ([0x7B, 0x7D] + tail)[2..] == tail;
  }

  lemma LastItem(t: seq<Unit>, first: Json, tail: seq<Unit>)
    requires ReadValue(t) == Some((first, [0x5D] + tail))
    ensures ReadItems(t) == Some(([first], tail))
  {
    assert ([0x5D] + tail)[1..] == tail;
  }

  lemma MoreItems(t: seq<Unit>, first: Json, rest: seq<Unit>, items: seq<Json>, tail: seq<Unit>)
    requires ReadValue(t) == Some((first, [0x2C] + rest)) && ReadItems(rest) == Some((items, tail))
    ensures ReadItems(t) == Some(([first] + items, tail))
  {
    assert ([0x2C] + rest)[1..] == rest;
  }

  lemma LastField(t: seq<Unit>, first: Field, tail: seq<Unit>)
    requires ReadField(t) == Some((first, [0x7D] + tail))
    ensures ReadFields(t) == Some(([first], tail))
  {
    assert ([0x7D] + tail)[1..] == tail;
  }

  lemma MoreFields(t: seq<Unit>, first: Field, rest: seq<Unit>, fields: seq<Field>, tail: seq<Unit>)
    requires ReadField(t) == Some((first, [0x2C] + rest)) && ReadFields(rest) == Some((fields, tail))
    ensures ReadFields(t) == Some(([first] + fields, tail))
  {
    assert ([0x2C] + rest)[1..] == rest;
  }

  lemma FieldReads(f: Field, tail: seq<Unit>)
    requires ReadValue(Stringify(f.value) + tail) == Some((f.value, tail))
    ensures ReadField(Quoted(f.name) + ([0x3A] + (Stringify(f.value) + tail))) == Some((f, tail))
  {
    hide ReadLiteral, ReadValue, Stringify, Quoted;
    var rest := [0x3A] + (Stringify(f.value) + tail);
    QuotedReads(f.name, rest);
    assert rest[1..] == Stringify(f.value) + tail;
  }

  /** Every value is read back from its text. */
  lemma {:induction false} StringifyReadsBack(value: Json, tail: seq<Unit>)
    requires Ends(tail)
    ensures ReadValue(Stringify(value) + tail) == Some((value, tail))
    decreases value, 0
  {
    hide ReadValue, ReadItems, ReadFields, ReadLiteral, Quoted;
    match value
    case Literal(text) => LiteralReads(text, tail);
    case Text(units) => TextReads(units, tail);
    case List(items) =>
      if items == [] {
        EmptyReads(tail);
        assert Stringify(value) == [0x5B, 0x5D];
      } else {
        ItemsReadBack(items, tail);
        var inner := StringifyItems(items) + ([0x5D] + tail);
        FirstUnit(items[0]);
        BracketReads(inner, items, tail);
        assert Stringify(value) + tail == [0x5B] + inner;
      }
    case Record(fields) =>
      if fields == [] {
        EmptyReads(tail);
        assert Stringify(value) == [0x7B, 0x7D];
      } else {
        FieldsReadBack(fields, tail);
        var inner := StringifyFields(fields) + ([0x7D] + tail);
        QuotedStarts(fields[0].name);
        BraceReads(inner, fields, tail);
        assert Stringify(value) + tail == [0x7B] + inner;
      }
  }

  lemma LastOfItems(items: seq<Json>)
    requires |items| == 1
    ensures items == [items[0]] && StringifyItems(items) == Stringify(items[0])
  {
    assert items[1..] == [];
  }

  lemma LastOfFields(fields: seq<Field>)
    requires |fields| == 1
    ensures fields == [fields[0]]
    ensures StringifyFields(fields) == Quoted(fields[0].name) + [0x3A] + Stringify(fields[0].value)
  {
    assert fields[1..] == [];
  }

  lemma Grouped(a: seq<Unit>, b: seq<Unit>, c: seq<Unit>)
    ensures a + b + c == a + (b + c)
  {
  }

  lemma FirstOfFields(fields: seq<Field>, tail: seq<Unit>)
    requires |fields| > 1
    ensures fields == [fields[0]] + fields[1..]
    ensures StringifyFields(fields) + tail == Quoted(fields[0].name) +
      ([0x3A] + (Stringify(fields[0].value) + ([0x2C] + (StringifyFields(fields[1..]) + tail))))
  {
    hide Quoted, Stringify;
    var name, value, rest := Quoted(fields[0].name), Stringify(fields[0].value), StringifyFields(fields[1..]);
    assert StringifyFields(fields) == name + [0x3A] + value + [0x2C] + rest;
    Grouped(name + [0x3A] + value + [0x2C], rest, tail);
    Grouped(name + [0x3A] + value, [0x2C], rest + tail);
    Grouped(name + [0x3A], value, [0x2C] + (rest + tail));
    Grouped(name, [0x3A], value + ([0x2C] + (rest + tail)));
  }

  lemma QuotedStarts(s: seq<Unit>)
    ensures Quoted(s) != [] && Quoted(s)[0] == 0x22
  {
  }

  lemma TextReads(units: seq<Unit>, tail: seq<Unit>)
    ensures ReadValue(Stringify(Text(units)) + tail) == Some((Text(units), tail))
  {
    hide ReadLiteral, Quoted;
    QuotedReads(units, tail);
    var t := Quoted(units) + tail;
    assert ReadValue(t) == Some((Text(units), tail));
    assert Stringify(Text(units)) == Quoted(units);
  }

  lemma {:induction false} ItemsReadBack(items: seq<Json>, tail: seq<Unit>)
    requires items != []
    ensures ReadItems(StringifyItems(items) + ([0x5D] + tail)) == Some((items, tail))
    decreases items, 1
  {
    hide ReadValue, ReadItems, Stringify;
    var t := StringifyItems(items) + ([0x5D] + tail);
    if |items| == 1 {
      LastOfItems(items);
      StringifyReadsBack(items[0], [0x5D] + tail);
      assert t == Stringify(items[0]) + ([0x5D] + tail);
      LastItem(t, items[0], tail);
    } else {
      var rest := StringifyItems(items[1..]) + ([0x5D] + tail);
      ItemsReadBack(items[1..], tail);
      StringifyReadsBack(items[0], [0x2C] + rest);
      assert t == Stringify(items[0]) + ([0x2C] + rest);
      MoreItems(t, items[0], rest, items[1..], tail);
      assert [items[0]] + items[1..] == items;
    }
  }

  lemma {:induction false} FieldsReadBack(fields: seq<Field>, tail: seq<Unit>)
    requires fields != []
    ensures ReadFields(StringifyFields(fields) + ([0x7D] + tail)) == Some((fields, tail))
    decreases fields, 1
  {
    hide ReadValue, ReadFields, ReadField, Stringify, Quoted, StringifyFields;
    var t := StringifyFields(fields) + ([0x7D] + tail);
    var f := fields[0];
    if |fields| == 1 {
      var end := [0x7D] + tail;
      LastOfFields(fields);
      StringifyReadsBack(f.value, end);
      FieldReads(f, end);
      assert t == Quoted(f.name) + ([0x3A] + (Stringify(f.value) + end));
      LastField(t, f, tail);
    } else {
      var rest := StringifyFields(fields[1..]) + ([0x7D] + tail);
      FieldsReadBack(fields[1..], tail);
      StringifyReadsBack(f.value, [0x2C] + rest);
      FieldReads(f, [0x2C] + rest);
      FirstOfFields(fields, [0x7D] + tail);
      MoreFields(t, f, rest, fields[1..], tail);
    }
  }

  /** Writing a value and parsing the text gives the value, whatever it holds. */
  lemma ParsesBack(value: Json)
    ensures Parse(Stringify(value)) == Some(value)
  {
    hide ReadValue, Stringify;
    StringifyReadsBack(value, []);
    assert Stringify(value) + [] == Stringify(value);
  }
}
