// Strings of UTF-16 code units and their size in UTF-8 (Node's Buffer.byteLength, used in manager.ts, lines 42-59;
// the encoding is that of section 3 of RFC 3629).
module Utf16 {
  type Unit = u: nat | u < 0x10000

  type Byte = b: nat | b < 0x100

  predicate High(u: Unit) {
    0xD800 <= u < 0xDC00
  }

  predicate Low(u: Unit) {
    0xDC00 <= u < 0xE000
  }

  /** The text starts with a surrogate pair. */
  predicate PairAhead(s: seq<Unit>) {
    |s| >= 2 && High(s[0]) && Low(s[1])
  }

  function UnitSize(u: Unit): nat {
    if u < 0x80 then 1 else if u < 0x800 then 2 else 3
  }

  /** The number of UTF-8 bytes: a surrogate pair takes four, a lone surrogate three. */
  function Utf8Size(s: seq<Unit>): nat {
    if s == [] then 0
    else if PairAhead(s) then 4 + Utf8Size(s[2..])
    else UnitSize(s[0]) + Utf8Size(s[1..])
  }

  // ---------- Sizes of joined and cut texts ----------

  /** A pair counts two bytes less than its halves. */
  lemma {:induction false} SizeFromFront(s: seq<Unit>)
    requires s != []
    ensures Utf8Size(s) == UnitSize(s[0]) + Utf8Size(s[1..]) - if PairAhead(s) then 2 else 0
  {
    if PairAhead(s) {
      assert s[1..][1..] == s[2..];
    }
  }

  /** What joining saves: two bytes if a pair is put together. */
  function Saved(a: seq<Unit>, b: seq<Unit>): nat {
    if a != [] && b != [] && High(a[|a| - 1]) && Low(b[0]) then 2 else 0
  }

  lemma {:induction false} SizeOfJoin(a: seq<Unit>, b: seq<Unit>)
    ensures Utf8Size(a + b) == Utf8Size(a) + Utf8Size(b) - Saved(a, b)
  {
    if a == [] {
      assert a + b == b;
    } else {
      SizeOfJoin(a[1..], b);
      SizeFromFront(a);
      SizeFromFront(a + b);
      assert (a + b)[1..] == a[1..] + b;
      if |a| == 1 && b != [] {
        assert (a + b)[1] == b[0];
      }
    }
  }

  lemma {:induction false} NoLessThanLength(s: seq<Unit>)
    ensures |s| <= Utf8Size(s) <= 3 * |s|
  {
    if PairAhead(s) {
      NoLessThanLength(s[2..]);
    } else if s != [] {
      NoLessThanLength(s[1..]);
    }
  }

  /** Cutting a stretch out of a text never makes it larger, even if it brings two halves of a pair together. */
  lemma CuttingShrinks(a: seq<Unit>, b: seq<Unit>, c: seq<Unit>)
    ensures Utf8Size(a + c) <= Utf8Size(a + b + c)
  {
    SizeOfJoin(a, c);
    SizeOfJoin(a + b, c);
    SizeOfJoin(a, b);
    if b == [] {
      assert a + b == a;
    } else {
      SizeFromFront(b);
      NoLessThanLength(b[1..]);
      assert (a + b)[|a + b| - 1] == b[|b| - 1];
    }
  }

  // ---------- The encoding ----------

  const REPLACEMENT: Unit := 0xFFFD

  predicate Surrogate(u: Unit) {
    High(u) || Low(u)
  }

  /** The bytes of one scalar value. */
  function ScalarBytes(c: nat): seq<Byte>
    requires c < 0x110000
  {
    var q := c / 0x40;
    var r := q / 0x40;
    if c < 0x80 then [c]
    else if c < 0x800 then [0xC0 + q, 0x80 + c % 0x40]
    else if c < 0x10000 then [0xE0 + r, 0x80 + q % 0x40, 0x80 + c % 0x40]
    else [0xF0 + r / 0x40, 0x80 + r % 0x40, 0x80 + q % 0x40, 0x80 + c % 0x40]
  }

  function PairValue(high: Unit, low: Unit): nat
    requires High(high) && Low(low)
  {
    0x10000 + (high - 0xD800) * 0x400 + (low - 0xDC00)
  }

  /** Lone surrogates have no encoding; the replacement character stands for them. */
  function Utf8(s: seq<Unit>): seq<Byte> {
    if s == [] then []
    else if PairAhead(s) then ScalarBytes(PairValue(s[0], s[1])) + Utf8(s[2..])
    else ScalarBytes(if Surrogate(s[0]) then REPLACEMENT else s[0]) + Utf8(s[1..])
  }

  lemma {:induction false} SizeIsEncodedLength(s: seq<Unit>)
    ensures |Utf8(s)| == Utf8Size(s)
  {
    if PairAhead(s) {
      SizeIsEncodedLength(s[2..]);
    } else if s != [] {
      SizeIsEncodedLength(s[1..]);
    }
  }

  function UnitsOf(c: nat): seq<Unit>
    requires c < 0x110000
  {
    if c < 0x10000 then [c] else [0xD800 + (c - 0x10000) / 0x400, 0xDC00 + (c - 0x10000) % 0x400]
  }

  /** Reading well-formed UTF-8 back. */
  function Decoded(bytes: seq<Byte>): seq<Unit> {
    if bytes == [] then []
    else
      var n := if bytes[0] < 0x80 then 1 else if bytes[0] < 0xE0 then 2 else if bytes[0] < 0xF0 then 3 else 4;
      if |bytes| < n then [REPLACEMENT] else UnitsOf(ScalarOf(bytes[..n])) + Decoded(bytes[n..])
  }

  function ScalarOf(bytes: seq<Byte>): (c: nat)
    requires 1 <= |bytes| <= 4
    ensures c < 0x110000
  {
    var lead: int := bytes[0];
    var c :=
      if |bytes| == 1 then lead
      else if |bytes| == 2 then WithByte(lead - 0xC0, bytes[1])
      else if |bytes| == 3 then WithByte(WithByte(lead - 0xE0, bytes[1]), bytes[2])
      else WithByte(WithByte(WithByte(lead - 0xF0, bytes[1]), bytes[2]), bytes[3]);
    if 0 <= c < 0x110000 then c else REPLACEMENT
  }

  /** Six more bits, from a continuation byte. */
  function WithByte(c: int, byte: Byte): int {
    c * 0x40 + (byte - 0x80)
  }

  /** Every surrogate is half of a pair. */
  predicate Paired(s: seq<Unit>) {
    s == [] || if PairAhead(s) then Paired(s[2..]) else !Surrogate(s[0]) && Paired(s[1..])
  }

  lemma ScalarReadsBack(c: nat, rest: seq<Byte>)
    requires c < 0x110000
    ensures Decoded(ScalarBytes(c) + rest) == UnitsOf(c) + Decoded(rest)
  {
    var head := ScalarBytes(c);
    var bytes := head + rest;
    assert bytes[..|head|] == head && bytes[|head|..] == rest;
    ScalarBytesRead(c);
  }

  lemma ScalarBytesRead(c: nat)
    requires c < 0x110000
    ensures ScalarOf(ScalarBytes(c)) == c
  {
  }

  lemma PairReadsBack(high: Unit, low: Unit)
    requires High(high) && Low(low)
    ensures PairValue(high, low) < 0x110000 && UnitsOf(PairValue(high, low)) == [high, low]
  {
  }

  /** Text without lone surrogates survives UTF-8. */
  lemma {:induction false} Utf8RoundTrip(s: seq<Unit>)
    requires Paired(s)
    ensures Decoded(Utf8(s)) == s
  {
    hide Decoded, ScalarBytes, UnitsOf, PairValue;
    if s == [] {
      NothingDecodes();
    } else if PairAhead(s) {
      Utf8RoundTrip(s[2..]);
      PairReadsBack(s[0], s[1]);
      ScalarReadsBack(PairValue(s[0], s[1]), Utf8(s[2..]));
    } else {
      Utf8RoundTrip(s[1..]);
      ScalarReadsBack(s[0], Utf8(s[1..]));
      UnitReadsBack(s[0]);
    }
  }

  lemma NothingDecodes()
    ensures Decoded([]) == []
  {
  }

  lemma UnitReadsBack(u: Unit)
    ensures UnitsOf(u) == [u]
  {
  }
}
