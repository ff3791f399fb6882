/**
 * The canonical serialization every contract hash rests on, and the parser that undoes it: equal output means equal
 * values up to the order of object keys.
 */
module Canonical {
  import opened Texts
  import opened Sorting

  /** A value as the serializer meets it. `Undefined` is dropped from objects and refused elsewhere; `Opaque` stands
      for a function, a symbol or a bigint. */
  datatype Value =
    | Null
    | Bool(b: bool)
    | Number(n: int)
    | NonFinite
    | String(s: Text)
    | Array(items: seq<Value>)
    | Object(entries: seq<Entry>)
    | Undefined
    | Opaque

  datatype Entry = Entry(key: Text, value: Value)

  datatype Failure = NonFiniteNumber | Unserializable

  // ----------------------------------------------------------------- strings

  const NULL_TEXT: Text := [0x6E, 0x75, 0x6C, 0x6C]
  const TRUE_TEXT: Text := [0x74, 0x72, 0x75, 0x65]
  const FALSE_TEXT: Text := [0x66, 0x61, 0x6C, 0x73, 0x65]

  const QUOTE: CodeUnit := 0x22
  const BACKSLASH: CodeUnit := 0x5C
  const COMMA: CodeUnit := 0x2C
  const COLON: CodeUnit := 0x3A
  const MINUS: CodeUnit := 0x2D
  const LEFT_BRACKET: CodeUnit := 0x5B
  const RIGHT_BRACKET: CodeUnit := 0x5D
  const LEFT_BRACE: CodeUnit := 0x7B
  const RIGHT_BRACE: CodeUnit := 0x7D
  const LETTER_U: CodeUnit := 0x75

  /** A lower-case hexadecimal digit. */
  function HexDigit(d: nat): CodeUnit
    requires d < 16
  {
    if d < 10 then 0x30 + d else 0x61 + d - 10
  }

  function HexValue(u: CodeUnit): Option<nat> {
    if 0x30 <= u <= 0x39 then Some(u - 0x30)
    else if 0x61 <= u <= 0x66 then Some(u - 0x61 + 10)
    else None
  }

  function UnicodeEscape(u: CodeUnit): Text {
    [BACKSLASH, LETTER_U, HexDigit(u / 0x1000), HexDigit(u / 0x100 % 16), HexDigit(u / 16 % 16), HexDigit(u % 16)]
  }

  /** The two-character escapes of section 7 of RFC 8259 that the serializer uses. */
  function ShortEscape(u: CodeUnit): Option<CodeUnit> {
    if u == 0x22 then Some(0x22)
    else if u == 0x5C then Some(0x5C)
    else if u == 0x08 then Some(0x62)
    else if u == 0x09 then Some(0x74)
    else if u == 0x0A then Some(0x6E)
    else if u == 0x0C then Some(0x66)
    else if u == 0x0D then Some(0x72)
    else None
  }

  function FromShortEscape(u: CodeUnit): Option<CodeUnit> {
    if u == 0x22 then Some(0x22)
    else if u == 0x5C then Some(0x5C)
    else if u == 0x62 then Some(0x08)
    else if u == 0x74 then Some(0x09)
    else if u == 0x6E then Some(0x0A)
    else if u == 0x66 then Some(0x0C)
    else if u == 0x72 then Some(0x0D)
    else None
  }

  /** One code unit that is not half of a pair: short escape, `\u` escape, or itself. */
  function QuoteUnit(u: CodeUnit): Text {
    if ShortEscape(u).Some? then [BACKSLASH, ShortEscape(u).value]
    else if u < 0x20 || IsHigh(u) || IsLow(u) then UnicodeEscape(u)
    else [u]
  }

  /** `JSON.stringify` of a string, between its quotes: a lone surrogate is escaped, a pair is kept. */
  function QuoteBody(s: Text): Text {
    if s == [] then []
    else if |s| >= 2 && IsHigh(s[0]) && IsLow(s[1]) then [s[0], s[1]] + QuoteBody(s[2..])
    else QuoteUnit(s[0]) + QuoteBody(s[1..])
  }

  function Quote(s: Text): Text { [QUOTE] + QuoteBody(s) + [QUOTE] }

  // ----------------------------------------------------------------- numbers

  function Digits(n: nat): Text {
    if n < 10 then [0x30 + n] else Digits(n / 10) + [0x30 + n % 10]
  }

  /** `toFixed(0)` of an integer. */
  function PrintNumber(n: int): Text {
    if n < 0 then [MINUS] + Digits(-n) else Digits(n)
  }

  // -------------------------------------------------------------- the printer

  function ByKey(): (Entry, Entry) -> bool { (a: Entry, b: Entry) => AtMost(a.key, b.key) }

  /** The entries that are not undefined, in order. */
  function Defined(entries: seq<Entry>): (r: seq<Entry>)
    ensures forall e :: e in r <==> e in entries && e.value != Undefined
  {
    if entries == [] then []
    else
      assert entries == [entries[0]] + entries[1..];
      (if entries[0].value == Undefined then [] else [entries[0]]) + Defined(entries[1..])
  }

  function SortedEntries(entries: seq<Entry>): (r: seq<Entry>)
    ensures forall e :: e in r <==> e in entries && e.value != Undefined
  {
    MultisetMembers(Defined(entries), Sort(Defined(entries), ByKey()));
    Sort(Defined(entries), ByKey())
  }

  function Canonicalize(v: Value): Result<Text, Failure>
    decreases v, 2
  {
    match v
    case Null => Ok(NULL_TEXT)
    case Bool(b) => Ok(if b then TRUE_TEXT else FALSE_TEXT)
    case Number(n) => Ok(PrintNumber(n))
    case NonFinite => Err(NonFiniteNumber)
    case String(s) => Ok(Quote(s))
    case Array(items) =>
      var inner := CanonicalizeItems(v, items, items);
      if inner.Err? then inner else Ok([LEFT_BRACKET] + inner.value + [RIGHT_BRACKET])
    case Object(entries) =>
      var inner := CanonicalizeEntries(v, entries, SortedEntries(entries));
      if inner.Err? then inner else Ok([LEFT_BRACE] + inner.value + [RIGHT_BRACE])
    case Undefined => Err(Unserializable)
    case Opaque => Err(Unserializable)
  }

  /** The items printed in order and joined by commas; the first failure wins. */
  function CanonicalizeItems(ghost v: Value, ghost all: seq<Value>, items: seq<Value>): Result<Text, Failure>
    requires v == Array(all) && forall i :: i in items ==> i in all
    decreases v, 1, |items|
  {
    if items == [] then Ok([])
    else
      assert items[0] in all;
      var head := Canonicalize(items[0]);
      if head.Err? then head
      else
        var tail := CanonicalizeItems(v, all, items[1..]);
        if tail.Err? then tail
        else Ok(head.value + (if |items| == 1 then [] else [COMMA]) + tail.value)
  }

  function CanonicalizeEntries(ghost v: Value, ghost all: seq<Entry>, entries: seq<Entry>): Result<Text, Failure>
    requires v == Object(all) && forall e :: e in entries ==> e in all
    decreases v, 1, |entries|
  {
    if entries == [] then Ok([])
    else
      assert entries[0] in all;
      var head := Canonicalize(entries[0].value);
      if head.Err? then head
      else
        var tail := CanonicalizeEntries(v, all, entries[1..]);
        if tail.Err? then tail
        else Ok(Quote(entries[0].key) + [COLON] + head.value + (if |entries| == 1 then [] else [COMMA]) + tail.value)
  }

  // --------------------------------------------- the value behind the output

  /** The value with undefined entries dropped and keys sorted, at every depth. */
  function Normal(v: Value): Value {
    match v
    case Array(items) => Array(seq(|items|, i requires 0 <= i < |items| => Normal(items[i])))
    case Object(entries) =>
      var sorted := SortedEntries(entries);
      Object(seq(|sorted|, i requires 0 <= i < |sorted| =>
        assert sorted[i] in sorted; Entry(sorted[i].key, Normal(sorted[i].value))))
    case _ => v
  }

  /** Nothing in the value is refused; an undefined entry of an object is not. */
  predicate Serializable(v: Value) {
    match v
    case Array(items) => forall i :: 0 <= i < |items| ==> Serializable(items[i])
    case Object(entries) =>
      forall i :: 0 <= i < |entries| ==> entries[i].value == Undefined || Serializable(entries[i].value)
    case _ => !v.NonFinite? && !v.Undefined? && !v.Opaque?
  }

  /** Nothing in the value is refused or dropped. */
  predicate Printable(v: Value) {
    match v
    case Array(items) => forall i :: 0 <= i < |items| ==> Printable(items[i])
    case Object(entries) => forall i :: 0 <= i < |entries| ==> Printable(entries[i].value)
    case _ => !v.NonFinite? && !v.Undefined? && !v.Opaque?
  }

  /** A printable value printed as it stands. */
  function Print(v: Value): Text
    requires Printable(v)
    decreases v, 2
  {
    match v
    case Null => NULL_TEXT
    case Bool(b) => if b then TRUE_TEXT else FALSE_TEXT
    case Number(n) => PrintNumber(n)
    case String(s) => Quote(s)
    case Array(items) => [LEFT_BRACKET] + PrintItems(v, items) + [RIGHT_BRACKET]
    case Object(entries) => [LEFT_BRACE] + PrintEntries(v, entries) + [RIGHT_BRACE]
  }

  ghost predicate ItemsOf(v: Value, items: seq<Value>) {
    v.Array? && forall i :: 0 <= i < |items| ==> items[i] in v.items && Printable(items[i])
  }

  ghost predicate EntriesOf(v: Value, entries: seq<Entry>) {
    v.Object? && forall i :: 0 <= i < |entries| ==> entries[i] in v.entries && Printable(entries[i].value)
  }

  function PrintItems(ghost v: Value, items: seq<Value>): Text
    requires ItemsOf(v, items)
    decreases v, 1, |items|
  {
    if items == [] then []
    else Print(items[0]) + (if |items| == 1 then [] else [COMMA]) + PrintItems(v, items[1..])
  }

  function PrintEntries(ghost v: Value, entries: seq<Entry>): Text
    requires EntriesOf(v, entries)
    decreases v, 1, |entries|
  {
    if entries == [] then []
    else
      Quote(entries[0].key) + [COLON] + Print(entries[0].value) + (if |entries| == 1 then [] else [COMMA])
      + PrintEntries(v, entries[1..])
  }

  // ---------------------------------------------------------------- the parser

  predicate IsDigit(u: CodeUnit) { 0x30 <= u <= 0x39 }

  function ParseDigits(s: Text, acc: nat): (r: (nat, Text))
    ensures |r.1| <= |s|
    decreases |s|
  {
    if s != [] && IsDigit(s[0]) then ParseDigits(s[1..], acc * 10 + (s[0] - 0x30)) else (acc, s)
  }

  function ParseNumber(s: Text): (r: Option<(Value, Text)>)
    ensures r.Some? ==> |r.value.1| < |s|
  {
    if s != [] && s[0] == MINUS then
      if |s| >= 2 && IsDigit(s[1]) then
        var (n, rest) := ParseDigits(s[1..], 0);
        Some((Number(0 - n), rest))
      else None
    else if s != [] && IsDigit(s[0]) then
      var (n, rest) := ParseDigits(s[1..], s[0] - 0x30);
      Some((Number(n), rest))
    else None
  }

  function ParseHex(s: Text): Option<CodeUnit>
    requires |s| >= 4
  {
    if HexValue(s[0]).Some? && HexValue(s[1]).Some? && HexValue(s[2]).Some? && HexValue(s[3]).Some? then
      Some(HexValue(s[0]).value * 0x1000 + HexValue(s[1]).value * 0x100
           + HexValue(s[2]).value * 16 + HexValue(s[3]).value)
    else None
  }

  /** The rest of a string, up to and including its closing quote. */
  function ParseBody(s: Text): (r: Option<(Text, Text)>)
    ensures r.Some? ==> |r.value.1| < |s|
    decreases |s|
  {
    if s == [] then None
    else if s[0] == QUOTE then Some(([], s[1..]))
    else if s[0] == BACKSLASH then
      if |s| >= 6 && s[1] == LETTER_U then
        if ParseHex(s[2..]).None? then None
        else
          var tail := ParseBody(s[6..]);
          if tail.None? then None else Some(([ParseHex(s[2..]).value] + tail.value.0, tail.value.1))
      else if |s| >= 2 && FromShortEscape(s[1]).Some? then
        var tail := ParseBody(s[2..]);
        if tail.None? then None else Some(([FromShortEscape(s[1]).value] + tail.value.0, tail.value.1))
      else None
    else
      var tail := ParseBody(s[1..]);
      if tail.None? then None else Some(([s[0]] + tail.value.0, tail.value.1))
  }

  /** One value from the front of `s`, with what is left. */
  function ParseValue(s: Text): (r: Option<(Value, Text)>)
    ensures r.Some? ==> |r.value.1| < |s|
    decreases |s|, 1
  {
    if s == [] then None
    else if NULL_TEXT <= s then Some((Null, s[4..]))
    else if TRUE_TEXT <= s then Some((Bool(true), s[4..]))
    else if FALSE_TEXT <= s then Some((Bool(false), s[5..]))
    else if s[0] == QUOTE then
      var body := ParseBody(s[1..]);
      if body.None? then None else Some((String(body.value.0), body.value.1))
    else if s[0] == LEFT_BRACKET then
      if |s| >= 2 && s[1] == RIGHT_BRACKET then Some((Array([]), s[2..]))
      else
        var items := ParseItems(s[1..]);
        if items.None? then None else Some((Array(items.value.0), items.value.1))
    else if s[0] == LEFT_BRACE then
      if |s| >= 2 && s[1] == RIGHT_BRACE then Some((Object([]), s[2..]))
      else
        var entries := ParseEntries(s[1..]);
        if entries.None? then None else Some((Object(entries.value.0), entries.value.1))
    else ParseNumber(s)
  }

  function ParseItems(s: Text): (r: Option<(seq<Value>, Text)>)
    ensures r.Some? ==> |r.value.1| < |s|
    decreases |s|, 2
  {
    var head := ParseValue(s);
    if head.None? || head.value.1 == [] then None
    else
      var v, rest := head.value.0, head.value.1;
      if rest[0] == RIGHT_BRACKET then Some(([v], rest[1..]))
      else if rest[0] != COMMA then None
      else
        var tail := ParseItems(rest[1..]);
        if tail.None? then None else Some(([v] + tail.value.0, tail.value.1))
  }

  function ParseEntries(s: Text): (r: Option<(seq<Entry>, Text)>)
    ensures r.Some? ==> |r.value.1| < |s|
    decreases |s|, 2
  {
    if s == [] || s[0] != QUOTE then None
    else
      var key := ParseBody(s[1..]);
      if key.None? || key.value.1 == [] || key.value.1[0] != COLON then None
      else
        var head := ParseValue(key.value.1[1..]);
        if head.None? || head.value.1 == [] then None
        else
          var e, rest := Entry(key.value.0, head.value.0), head.value.1;
          if rest[0] == RIGHT_BRACE then Some(([e], rest[1..]))
          else if rest[0] != COMMA then None
          else
            var tail := ParseEntries(rest[1..]);
            if tail.None? then None else Some(([e] + tail.value.0, tail.value.1))
  }

  /** A whole text that is one value. */
  function Parse(s: Text): Option<Value> {
    var r := ParseValue(s);
    if r.Some? && r.value.1 == [] then Some(r.value.0) else None
  }
}
