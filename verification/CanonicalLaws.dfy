/** The parser undoes the printer, so the canonical text is a faithful name of the value up to key order. */
module CanonicalLaws {
  import opened Texts
  import opened Sorting
  import opened Sequences
  import opened Canonical

  // ----------------------------------------------------------------- pieces

  lemma HexRoundTrip(d: nat)
    requires d < 16
    ensures HexValue(HexDigit(d)) == Some(d)
  {}

  lemma FourDigits(u: CodeUnit)
    ensures u / 0x1000 < 16
    ensures u / 0x1000 * 0x1000 + u / 0x100 % 16 * 0x100 + u / 16 % 16 * 16 + u % 16 == u
  {
    assert u / 0x100 == u / 0x1000 * 16 + u / 0x100 % 16;
    assert u / 16 == u / 0x100 * 16 + u / 16 % 16;
  }

  lemma ParseEscape(u: CodeUnit, rest: Text)
    ensures ParseHex((UnicodeEscape(u) + rest)[2..]) == Some(u)
  {
    FourDigits(u);
    HexRoundTrip(u / 0x1000);
    HexRoundTrip(u / 0x100 % 16);
    HexRoundTrip(u / 16 % 16);
    HexRoundTrip(u % 16);
  }

  /** A unit read in front of the rest of a body. */
  function Before(u: CodeUnit, rest: Option<(Text, Text)>): Option<(Text, Text)> {
    if rest.None? then None else Some(([u] + rest.value.0, rest.value.1))
  }

  lemma ParseShort(u: CodeUnit, rest: Text)
    requires ShortEscape(u).Some?
    ensures ParseBody([BACKSLASH, ShortEscape(u).value] + rest) == Before(u, ParseBody(rest))
  {
    var s := [BACKSLASH, ShortEscape(u).value] + rest;
    assert s[2..] == rest && s[1] != LETTER_U && FromShortEscape(s[1]) == Some(u);
  }

  lemma ParseLong(u: CodeUnit, rest: Text)
    ensures ParseBody(UnicodeEscape(u) + rest) == Before(u, ParseBody(rest))
  {
    var s := UnicodeEscape(u) + rest;
    ParseEscape(u, rest);
    assert s[0] == BACKSLASH && s[1] == LETTER_U && s[6..] == rest;
  }

  lemma ParseUnit(u: CodeUnit, rest: Text)
    ensures ParseBody(QuoteUnit(u) + rest) == Before(u, ParseBody(rest))
  {
    if ShortEscape(u).Some? {
      ParseShort(u, rest);
    } else if u < 0x20 || IsHigh(u) || IsLow(u) {
      ParseLong(u, rest);
    } else {
      assert ([u] + rest)[1..] == rest;
    }
  }

  lemma ParseRaw(u: CodeUnit, rest: Text, tail: Text, after: Text)
    requires u != QUOTE && u != BACKSLASH && ParseBody(rest) == Some((tail, after))
    ensures ParseBody([u] + rest) == Some(([u] + tail, after))
  {
    assert ([u] + rest)[1..] == rest;
  }

  lemma {:induction false} BodyRoundTrip(s: Text, close: Text, rest: Text)
    requires ParseBody(close) == Some(([], rest))
    ensures ParseBody(QuoteBody(s) + close) == Some((s, rest))
    decreases |s|
  {
    if s == [] {
      assert [] + close == close;
    } else if |s| >= 2 && IsHigh(s[0]) && IsLow(s[1]) {
      BodyRoundTrip(s[2..], close, rest);
      PairRoundTrip(s, QuoteBody(s[2..]) + close, rest);
      TwoInFront(s[0], s[1], QuoteBody(s[2..]), close);
    } else {
      BodyRoundTrip(s[1..], close, rest);
      ParseUnit(s[0], QuoteBody(s[1..]) + close);
      Associative(QuoteUnit(s[0]), QuoteBody(s[1..]), close);
      assert s == [s[0]] + s[1..];
    }
  }

  lemma TwoInFront(a: CodeUnit, b: CodeUnit, x: Text, y: Text)
    ensures [a, b] + x + y == [a] + ([b] + (x + y))
  {}

  lemma PairRoundTrip(s: Text, tail: Text, rest: Text)
    requires |s| >= 2 && IsHigh(s[0]) && IsLow(s[1])
    requires ParseBody(tail) == Some((s[2..], rest))
    ensures ParseBody([s[0]] + ([s[1]] + tail)) == Some((s, rest))
  {
    ParseRaw(s[1], tail, s[2..], rest);
    ParseRaw(s[0], [s[1]] + tail, [s[1]] + s[2..], rest);
    assert s == [s[0]] + ([s[1]] + s[2..]);
  }

  /** Every string, lone surrogates and controls included, comes back from its quoted form. */
  lemma StringRoundTrip(s: Text, rest: Text)
    ensures ParseBody(QuoteBody(s) + [QUOTE] + rest) == Some((s, rest))
  {
    assert ([QUOTE] + rest)[1..] == rest;
    BodyRoundTrip(s, [QUOTE] + rest, rest);
    assert QuoteBody(s) + [QUOTE] + rest == QuoteBody(s) + ([QUOTE] + rest);
  }

  lemma {:induction false} DigitsAreDigits(n: nat)
    ensures |Digits(n)| >= 1 && IsDigit(Digits(n)[0])
  {
    if n >= 10 { DigitsAreDigits(n / 10); }
  }

  lemma {:induction false} DigitsRoundTrip(n: nat, rest: Text)
    ensures ParseDigits(Digits(n) + rest, 0) == ParseDigits(rest, n)
    decreases n
  {
    if n < 10 {
      assert (Digits(n) + rest)[1..] == rest;
    } else {
      var d: CodeUnit := 0x30 + n % 10;
      DigitsRoundTrip(n / 10, [d] + rest);
      assert Digits(n) + rest == Digits(n / 10) + ([d] + rest);
      assert ([d] + rest)[1..] == rest;
    }
  }

  /** A number's text ends where its digits end. */
  predicate Delimited(rest: Text) { rest == [] || !IsDigit(rest[0]) }

  /** The reader starts a number at its sign or at its first digit. */
  lemma ReadsDigits(s: Text)
    requires s != [] && IsDigit(s[0])
    ensures ParseNumber(s) == Some((Number(ParseDigits(s, 0).0), ParseDigits(s, 0).1))
    ensures ParseNumber([MINUS] + s) == Some((Number(0 - ParseDigits(s, 0).0), ParseDigits(s, 0).1))
  {
    assert ([MINUS] + s)[1..] == s;
  }

  lemma NumberRoundTrip(n: int, rest: Text)
    requires Delimited(rest)
    ensures ParseNumber(PrintNumber(n) + rest) == Some((Number(n), rest))
  {
    var size: nat := if n < 0 then -n else n;
    DigitsAreDigits(size);
    DigitsRoundTrip(size, rest);
    ReadsDigits(Digits(size) + rest);
    if n < 0 { Associative<int>([MINUS], Digits(size), rest); }
  }

  // ------------------------------------------------------------- whole values

  lemma NotALiteral(s: Text)
    requires s != [] && s[0] != 0x6E && s[0] != 0x74 && s[0] != 0x66
    ensures !(NULL_TEXT <= s) && !(TRUE_TEXT <= s) && !(FALSE_TEXT <= s)
  {}

  lemma PrintStart(v: Value)
    requires Printable(v)
    ensures Print(v) != [] && Print(v)[0] != RIGHT_BRACKET && Print(v)[0] != RIGHT_BRACE
  {
    if v.Number? { DigitsAreDigits(if v.n < 0 then -v.n else v.n); }
  }

  /** Main result: whatever follows, the parser reads back exactly the value printed. */
  lemma {:induction false} ValueRoundTrip(v: Value, rest: Text)
    requires Printable(v) && (v.Number? ==> Delimited(rest))
    ensures ParseValue(Print(v) + rest) == Some((v, rest))
    decreases v, 3
  {
    match v
    case Array(items) => ArrayRoundTrip(v, rest);
    case Object(entries) => ObjectRoundTrip(v, rest);
    case _ => ScalarRoundTrip(v, rest);
  }

  lemma BoolRoundTrip(b: bool, rest: Text)
    ensures ParseValue(Print(Bool(b)) + rest) == Some((Bool(b), rest))
  {
    var s := Print(Bool(b)) + rest;
    assert s[0] == if b then 0x74 else 0x66;
    if b {
      assert s[..4] == TRUE_TEXT && s[4..] == rest;
    } else {
      assert s[..5] == FALSE_TEXT && s[5..] == rest;
    }
  }

  lemma ScalarRoundTrip(v: Value, rest: Text)
    requires Printable(v) && !v.Array? && !v.Object? && (v.Number? ==> Delimited(rest))
    ensures ParseValue(Print(v) + rest) == Some((v, rest))
  {
    var s := Print(v) + rest;
    match v
    case Null => assert s[4..] == rest;
    case Bool(b) => BoolRoundTrip(b, rest);
    case Number(n) => NumberValueRoundTrip(n, rest);
    case String(t) => StringValueRoundTrip(t, rest);
  }

  lemma NumberValueRoundTrip(n: int, rest: Text)
    requires Delimited(rest)
    ensures ParseValue(Print(Number(n)) + rest) == Some((Number(n), rest))
  {
    var s := Print(Number(n)) + rest;
    DigitsAreDigits(if n < 0 then -n else n);
    assert s[0] == MINUS || IsDigit(s[0]);
    NotALiteral(s);
    NumberRoundTrip(n, rest);
  }

  lemma StringValueRoundTrip(t: Text, rest: Text)
    ensures ParseValue(Print(String(t)) + rest) == Some((String(t), rest))
  {
    var s := Print(String(t)) + rest;
    NotALiteral(s);
    StringRoundTrip(t, rest);
    assert s[1..] == QuoteBody(t) + [QUOTE] + rest;
  }

  lemma {:induction false} ArrayRoundTrip(v: Value, rest: Text)
    requires Printable(v) && v.Array?
    ensures ParseValue(Print(v) + rest) == Some((v, rest))
    decreases v, 2
  {
    var items := v.items;
    if items == [] {
      assert PrintItems(v, items) == [];
      assert Print(v) == [LEFT_BRACKET, RIGHT_BRACKET];
      EmptyArrayReads(rest);
    } else {
      var body := PrintItems(v, items) + [RIGHT_BRACKET] + rest;
      ItemsRoundTrip(v, items, rest);
      PrintStart(items[0]);
      assert body[0] == Print(items[0])[0];
      InBrackets(LEFT_BRACKET, PrintItems(v, items), RIGHT_BRACKET, rest);
      ArrayReads(body, items, rest);
    }
  }

  lemma InBrackets(open: CodeUnit, inner: Text, close: CodeUnit, rest: Text)
    ensures [open] + inner + [close] + rest == [open] + (inner + [close] + rest)
  {}

  lemma EntriesStart(v: Value, entries: seq<Entry>)
    requires EntriesOf(v, entries) && entries != []
    ensures PrintEntries(v, entries) != [] && PrintEntries(v, entries)[0] == QUOTE
  {
    assert Quote(entries[0].key)[0] == QUOTE;
  }

  lemma EmptyArrayReads(rest: Text)
    ensures ParseValue([LEFT_BRACKET, RIGHT_BRACKET] + rest) == Some((Array([]), rest))
  {
    var s := [LEFT_BRACKET, RIGHT_BRACKET] + rest;
    NotALiteral(s);
    assert s[2..] == rest;
  }

  lemma ArrayReads(body: Text, items: seq<Value>, rest: Text)
    requires body != [] && body[0] != RIGHT_BRACKET && ParseItems(body) == Some((items, rest))
    ensures ParseValue([LEFT_BRACKET] + body) == Some((Array(items), rest))
  {
    var s := [LEFT_BRACKET] + body;
    NotALiteral(s);
    assert s[1..] == body;
  }

  lemma EmptyObjectReads(rest: Text)
    ensures ParseValue([LEFT_BRACE, RIGHT_BRACE] + rest) == Some((Object([]), rest))
  {
    var s := [LEFT_BRACE, RIGHT_BRACE] + rest;
    NotALiteral(s);
    assert s[2..] == rest;
  }

  lemma ObjectReads(body: Text, entries: seq<Entry>, rest: Text)
    requires body != [] && body[0] != RIGHT_BRACE && ParseEntries(body) == Some((entries, rest))
    ensures ParseValue([LEFT_BRACE] + body) == Some((Object(entries), rest))
  {
    var s := [LEFT_BRACE] + body;
    NotALiteral(s);
    assert s[1..] == body;
  }

  lemma {:induction false} ObjectRoundTrip(v: Value, rest: Text)
    requires Printable(v) && v.Object?
    ensures ParseValue(Print(v) + rest) == Some((v, rest))
    decreases v, 2
  {
    var entries := v.entries;
    if entries == [] {
      assert PrintEntries(v, entries) == [];
      assert Print(v) == [LEFT_BRACE, RIGHT_BRACE];
      EmptyObjectReads(rest);
    } else {
      var body := PrintEntries(v, entries) + [RIGHT_BRACE] + rest;
      EntriesRoundTrip(v, entries, rest);
      EntriesStart(v, entries);
      InBrackets(LEFT_BRACE, PrintEntries(v, entries), RIGHT_BRACE, rest);
      ObjectReads(body, entries, rest);
    }
  }

  lemma LastItem(s: Text, item: Value, rest: Text)
    requires ParseValue(s) == Some((item, [RIGHT_BRACKET] + rest))
    ensures ParseItems(s) == Some(([item], rest))
  {
    assert ([RIGHT_BRACKET] + rest)[1..] == rest;
  }

  lemma FirstItem(s: Text, item: Value, after: Text, items: seq<Value>, rest: Text)
    requires ParseValue(s) == Some((item, [COMMA] + after)) && ParseItems(after) == Some((items, rest))
    ensures ParseItems(s) == Some(([item] + items, rest))
  {
    assert ([COMMA] + after)[1..] == after;
  }

  lemma {:induction false} ItemsRoundTrip(v: Value, items: seq<Value>, rest: Text)
    requires ItemsOf(v, items) && items != []
    ensures ParseItems(PrintItems(v, items) + [RIGHT_BRACKET] + rest) == Some((items, rest))
    decreases v, 1, |items|
  {
    var s := PrintItems(v, items) + [RIGHT_BRACKET] + rest;
    assert items[0] in v.items;
    if |items| == 1 {
      assert PrintItems(v, items[1..]) == [];
      FourParts(Print(items[0]), [], [], [RIGHT_BRACKET], rest);
      assert [] + ([] + [RIGHT_BRACKET] + rest) == [RIGHT_BRACKET] + rest;
      ValueRoundTrip(items[0], [RIGHT_BRACKET] + rest);
      LastItem(s, items[0], rest);
      HeadAndTail(items);
    } else {
      var after := PrintItems(v, items[1..]) + [RIGHT_BRACKET] + rest;
      FourParts(Print(items[0]), [COMMA], PrintItems(v, items[1..]), [RIGHT_BRACKET], rest);
      ValueRoundTrip(items[0], [COMMA] + after);
      ItemsRoundTrip(v, items[1..], rest);
      FirstItem(s, items[0], after, items[1..], rest);
      HeadAndTail(items);
    }
  }

  lemma FourParts(a: Text, b: Text, c: Text, d: Text, e: Text)
    ensures a + b + c + d + e == a + (b + (c + d + e))
  {}

  lemma EntryHead(key: Text, after: Text)
    ensures ParseBody((Quote(key) + [COLON] + after)[1..]) == Some((key, [COLON] + after))
  {
    StringRoundTrip(key, [COLON] + after);
    assert (Quote(key) + [COLON] + after)[1..] == QuoteBody(key) + [QUOTE] + ([COLON] + after);
  }

  lemma EntryParts(key: Text, value: Text, comma: Text, others: Text, rest: Text)
    ensures key + [COLON] + value + comma + others + [RIGHT_BRACE] + rest
         == key + [COLON] + (value + (comma + (others + [RIGHT_BRACE] + rest)))
  {}

  lemma LastEntry(key: Text, value: Value, body: Text, rest: Text)
    requires ParseValue(body) == Some((value, [RIGHT_BRACE] + rest))
    ensures ParseEntries(Quote(key) + [COLON] + body) == Some(([Entry(key, value)], rest))
  {
    EntryHead(key, body);
    assert ([COLON] + body)[1..] == body;
    assert ([RIGHT_BRACE] + rest)[1..] == rest;
  }

  lemma FirstEntry(key: Text, value: Value, body: Text, after: Text, entries: seq<Entry>, rest: Text)
    requires ParseValue(body) == Some((value, [COMMA] + after)) && ParseEntries(after) == Some((entries, rest))
    ensures ParseEntries(Quote(key) + [COLON] + body) == Some(([Entry(key, value)] + entries, rest))
  {
    EntryHead(key, body);
    assert ([COLON] + body)[1..] == body;
    assert ([COMMA] + after)[1..] == after;
  }

  lemma {:induction false} EntriesRoundTrip(v: Value, entries: seq<Entry>, rest: Text)
    requires EntriesOf(v, entries) && entries != []
    ensures ParseEntries(PrintEntries(v, entries) + [RIGHT_BRACE] + rest) == Some((entries, rest))
    decreases v, 1, |entries|
  {
    var s, e := PrintEntries(v, entries) + [RIGHT_BRACE] + rest, entries[0];
    assert e in v.entries;
    if |entries| == 1 {
      var body := Print(e.value) + ([RIGHT_BRACE] + rest);
      assert PrintEntries(v, entries[1..]) == [];
      EntryParts(Quote(e.key), Print(e.value), [], [], rest);
      assert [] + ([] + [RIGHT_BRACE] + rest) == [RIGHT_BRACE] + rest;
      ValueRoundTrip(e.value, [RIGHT_BRACE] + rest);
      LastEntry(e.key, e.value, body, rest);
      HeadAndTail(entries);
    } else {
      var after := PrintEntries(v, entries[1..]) + [RIGHT_BRACE] + rest;
      var body := Print(e.value) + ([COMMA] + after);
      EntryParts(Quote(e.key), Print(e.value), [COMMA], PrintEntries(v, entries[1..]), rest);
      ValueRoundTrip(e.value, [COMMA] + after);
      EntriesRoundTrip(v, entries[1..], rest);
      FirstEntry(e.key, e.value, body, after, entries[1..], rest);
      HeadAndTail(entries);
    }
  }

  // ------------------------------------------------- the canonical text itself

  /** Canonicalization succeeds exactly on serializable values, and prints their normal form. */
  lemma {:induction false} CanonicalizePrintsNormal(v: Value)
    ensures Canonicalize(v).Ok? <==> Serializable(v)
    ensures Serializable(v) ==> Printable(Normal(v)) && Canonicalize(v) == Ok(Print(Normal(v)))
    decreases v, 2
  {
    match v
    case Array(items) =>
      var w := Normal(v);
      ItemsPrintNormal(v, 0);
      assert items[0..] == items && w.items[0..] == w.items;
    case Object(entries) =>
      var w := Normal(v);
      var sorted := SortedEntries(entries);
      EntriesPrintNormal(v, sorted, 0);
      assert sorted[0..] == sorted && w.entries[0..] == w.entries;
      SerializableEntries(entries);
    case _ =>
  }

  lemma SerializableEntries(entries: seq<Entry>)
    ensures Serializable(Object(entries)) <==>
            forall j :: 0 <= j < |SortedEntries(entries)| ==> Serializable(SortedEntries(entries)[j].value)
  {
    var sorted := SortedEntries(entries);
    if Serializable(Object(entries)) {
      forall j | 0 <= j < |sorted| ensures Serializable(sorted[j].value) {
        assert sorted[j] in sorted;
        var i :| 0 <= i < |entries| && entries[i] == sorted[j];
      }
    }
    if forall j :: 0 <= j < |sorted| ==> Serializable(sorted[j].value) {
      forall i | 0 <= i < |entries| ensures entries[i].value == Undefined || Serializable(entries[i].value) {
        if entries[i].value != Undefined {
          assert entries[i] in sorted;
        }
      }
    }
  }

  lemma {:induction false} ItemsPrintNormal(v: Value, n: nat)
    requires v.Array? && n <= |v.items|
    ensures var rest, w := v.items[n..], Normal(v);
            && (CanonicalizeItems(v, v.items, rest).Ok? <==>
                  forall i :: n <= i < |v.items| ==> Serializable(v.items[i]))
            && (CanonicalizeItems(v, v.items, rest).Ok? ==>
                  ItemsOf(w, w.items[n..]) && CanonicalizeItems(v, v.items, rest).value == PrintItems(w, w.items[n..]))
    decreases v, 1, |v.items| - n
  {
    var rest, w := v.items[n..], Normal(v);
    if n < |v.items| {
      assert v.items[n] in v.items;
      CanonicalizePrintsNormal(v.items[n]);
      ItemsPrintNormal(v, n + 1);
      assert rest[1..] == v.items[n + 1..];
      assert w.items[n..][1..] == w.items[n + 1..];
      assert w.items[n] == Normal(v.items[n]);
      assert rest[0] == v.items[n] && w.items[n..][0] == w.items[n];
    }
  }

  lemma EntriesMore(w: Value, n: nat)
    requires w.Object? && n < |w.entries| && Printable(w.entries[n].value) && EntriesOf(w, w.entries[n + 1..])
    ensures EntriesOf(w, w.entries[n..])
  {
    var out := w.entries[n..];
    forall i | 0 <= i < |out| ensures out[i] in w.entries && Printable(out[i].value) {
      if i > 0 { assert out[i] == w.entries[n + 1..][i - 1]; }
    }
  }

  lemma {:induction false} EntriesPrintNormal(v: Value, sorted: seq<Entry>, n: nat)
    requires v.Object? && sorted == SortedEntries(v.entries) && n <= |sorted|
    ensures var rest, w := sorted[n..], Normal(v);
            && (CanonicalizeEntries(v, v.entries, rest).Ok? <==>
                  forall i :: n <= i < |sorted| ==> Serializable(sorted[i].value))
            && (CanonicalizeEntries(v, v.entries, rest).Ok? ==>
                  && EntriesOf(w, w.entries[n..])
                  && CanonicalizeEntries(v, v.entries, rest).value == PrintEntries(w, w.entries[n..]))
    decreases v, 1, |sorted| - n
  {
    var rest, w := sorted[n..], Normal(v);
    if n < |sorted| {
      assert sorted[n] in sorted;
      CanonicalizePrintsNormal(sorted[n].value);
      EntriesPrintNormal(v, sorted, n + 1);
      var out := w.entries[n..];
      assert rest[0] == sorted[n] && rest[1..] == sorted[n + 1..];
      assert out[0] == w.entries[n] == Entry(sorted[n].key, Normal(sorted[n].value)) && out[1..] == w.entries[n + 1..];
      assert |out| == |rest|;
      var head, tail := Canonicalize(sorted[n].value), CanonicalizeEntries(v, v.entries, rest[1..]);
      assert CanonicalizeEntries(v, v.entries, rest).Ok? <==> head.Ok? && tail.Ok?;
      if head.Ok? && tail.Ok? {
        EntriesMore(w, n);
        assert head.value == Print(out[0].value) && tail.value == PrintEntries(w, out[1..]);
      }
    }
  }

  /** Main result: parsing the canonical text gives the value with its keys sorted. */
  lemma CanonicalRoundTrip(v: Value)
    requires Serializable(v)
    ensures Canonicalize(v).Ok? && Parse(Canonicalize(v).value) == Some(Normal(v))
  {
    CanonicalizePrintsNormal(v);
    ValueRoundTrip(Normal(v), []);
    assert Print(Normal(v)) + [] == Print(Normal(v));
  }

  /** Main result: two values have one canonical text exactly when they have one normal form. */
  lemma CanonicalTextNamesTheValue(v: Value, w: Value)
    requires Serializable(v) && Serializable(w)
    ensures Canonicalize(v) == Canonicalize(w) <==> Normal(v) == Normal(w)
  {
    CanonicalRoundTrip(v);
    CanonicalRoundTrip(w);
    CanonicalizePrintsNormal(v);
    CanonicalizePrintsNormal(w);
  }

  // --------------------------------------------------------------- key order

  function KeysOf(entries: seq<Entry>): (keys: seq<Text>)
    ensures |keys| == |entries|
  {
    seq(|entries|, i requires 0 <= i < |entries| => entries[i].key)
  }

  /** Every object has each key once, as JavaScript objects do. */
  predicate DistinctKeys(v: Value) {
    match v
    case Array(items) => forall i :: 0 <= i < |items| ==> DistinctKeys(items[i])
    case Object(entries) =>
      NoDuplicates(KeysOf(entries)) && forall i :: 0 <= i < |entries| ==> DistinctKeys(entries[i].value)
    case _ => true
  }

  ghost predicate HasKey(entries: seq<Entry>, key: Text) {
    exists i :: Holds(entries, key, i)
  }

  ghost predicate Holds(entries: seq<Entry>, key: Text, at: int) {
    0 <= at < |entries| && entries[at].key == key && entries[at].value != Undefined
  }

  /** Equal up to the order of keys and to undefined entries, at every depth. */
  ghost predicate Same(v: Value, w: Value)
    decreases v
  {
    match (v, w)
    case (Array(a), Array(b)) => |a| == |b| && forall i :: 0 <= i < |a| ==> Same(a[i], b[i])
    case (Object(e), Object(f)) =>
      && (forall i :: 0 <= i < |e| && e[i].value != Undefined ==> HasKey(f, e[i].key))
      && (forall j :: 0 <= j < |f| && f[j].value != Undefined ==> HasKey(e, f[j].key))
      && (forall i, j :: 0 <= i < |e| && Holds(f, e[i].key, j) && e[i].value != Undefined ==>
          Same(e[i].value, f[j].value))
    case _ => v == w
  }

  lemma ByKeyIsTotal()
    ensures TotalPreorder(ByKey())
  {
    var leq := ByKey();
    forall x: Entry, y: Entry ensures leq(x, y) || leq(y, x) { LessIsTotal(x.key, y.key); }
    forall x: Entry, y: Entry, z: Entry | leq(x, y) && leq(y, z) ensures leq(x, z) {
      AtMostIsTransitive(x.key, y.key, z.key);
    }
  }

  lemma FirstKeyIsNew(entries: seq<Entry>)
    requires entries != [] && NoDuplicates(KeysOf(entries))
    ensures NoDuplicates(KeysOf(entries[1..]))
    ensures entries[0].key !in KeysOf(Defined(entries[1..]))
  {
    var rest, keys := entries[1..], KeysOf(entries);
    assert forall i :: 0 <= i < |rest| ==> KeysOf(rest)[i] == keys[i + 1];
    var d := Defined(rest);
    forall i | 0 <= i < |d| ensures KeysOf(d)[i] != keys[0] {
      assert d[i] in d;
      var k :| 0 <= k < |rest| && rest[k] == d[i];
      assert keys[k + 1] != keys[0];
    }
  }

  lemma OneMoreKey(first: Entry, others: seq<Entry>)
    requires NoDuplicates(KeysOf(others)) && first.key !in KeysOf(others)
    ensures NoDuplicates(KeysOf([first] + others))
  {
    assert KeysOf([first] + others) == [first.key] + KeysOf(others);
    NoDuplicatesConcat([first.key], KeysOf(others));
  }

  lemma {:induction false} DefinedKeysDistinct(entries: seq<Entry>)
    requires NoDuplicates(KeysOf(entries))
    ensures NoDuplicates(KeysOf(Defined(entries)))
  {
    if entries != [] {
      FirstKeyIsNew(entries);
      DefinedKeysDistinct(entries[1..]);
      OneMoreKey(entries[0], Defined(entries[1..]));
      assert Defined(entries) == [entries[0]] + Defined(entries[1..]) || Defined(entries) == Defined(entries[1..]);
    }
  }

  lemma DistinctKeysDistinguish(entries: seq<Entry>)
    requires NoDuplicates(KeysOf(entries))
    ensures Distinguishes(entries, ByKey())
  {
    forall x, y | x in entries && y in entries && ByKey()(x, y) && ByKey()(y, x) ensures x == y {
      LessIsTotal(x.key, y.key);
      var i :| 0 <= i < |entries| && entries[i] == x;
      var j :| 0 <= j < |entries| && entries[j] == y;
      assert KeysOf(entries)[i] == KeysOf(entries)[j];
    }
  }

  lemma {:induction false} DefinedCount(entries: seq<Entry>, e: Entry)
    ensures multiset(Defined(entries))[e] == if e.value == Undefined then 0 else multiset(entries)[e]
  {
    if entries != [] {
      DefinedCount(entries[1..], e);
      CountHead(entries, e);
      if entries[0].value != Undefined {
        CountHead(Defined(entries), e);
        assert Defined(entries)[1..] == Defined(entries[1..]);
      }
    }
  }

  lemma CountHead(entries: seq<Entry>, e: Entry)
    requires entries != []
    ensures multiset(entries)[e] == multiset(entries[1..])[e] + if entries[0] == e then 1 else 0
  {
    assert entries == [entries[0]] + entries[1..];
  }

  lemma SortedFrom(entries: seq<Entry>, p: nat) returns (i: nat)
    requires p < |SortedEntries(entries)|
    ensures i < |entries| && entries[i] == SortedEntries(entries)[p] && entries[i].value != Undefined
  {
    assert SortedEntries(entries)[p] in SortedEntries(entries);
    i :| 0 <= i < |entries| && entries[i] == SortedEntries(entries)[p];
  }

  lemma SortedAt(entries: seq<Entry>, i: nat) returns (p: nat)
    requires i < |entries| && entries[i].value != Undefined
    ensures p < |SortedEntries(entries)| && SortedEntries(entries)[p] == entries[i]
  {
    assert entries[i] in SortedEntries(entries);
    p :| 0 <= p < |SortedEntries(entries)| && SortedEntries(entries)[p] == entries[i];
  }

  lemma SortedHasKey(entries: seq<Entry>, key: Text)
    ensures key in KeysOf(SortedEntries(entries)) <==> HasKey(entries, key)
  {
    var s := SortedEntries(entries);
    if key in KeysOf(s) {
      var k :| 0 <= k < |s| && KeysOf(s)[k] == key;
      var i := SortedFrom(entries, k);
      assert Holds(entries, key, i);
    }
    if HasKey(entries, key) {
      var i :| Holds(entries, key, i);
      var k := SortedAt(entries, i);
      assert KeysOf(s)[k] == key;
    }
  }

  /** The sorted entries: strictly by key, exactly the defined ones. */
  lemma SortedEntriesLaws(entries: seq<Entry>)
    requires NoDuplicates(KeysOf(entries))
    ensures var keys := KeysOf(SortedEntries(entries));
            && NoDuplicates(keys) && Sorted(keys, TextOrder())
            && (forall key :: key in keys <==> HasKey(entries, key))
  {
    var s := SortedEntries(entries);
    DefinedKeysDistinct(entries);
    ByKeyIsTotal();
    SortSorted(Defined(entries), ByKey());
    forall i, j | 0 <= i <= j < |s| ensures TextOrder()(KeysOf(s)[i], KeysOf(s)[j]) { assert ByKey()(s[i], s[j]); }
    SortedKeysDistinct(Defined(entries));
    forall key ensures key in KeysOf(s) <==> HasKey(entries, key) { SortedHasKey(entries, key); }
  }

  lemma SortedKeysDistinct(entries: seq<Entry>)
    requires NoDuplicates(KeysOf(entries))
    ensures NoDuplicates(KeysOf(Sort(entries, ByKey())))
  {
    var s := Sort(entries, ByKey());
    forall i, j | 0 <= i < |entries| && 0 <= j < |entries| && i != j ensures entries[i] != entries[j] {
      if i < j { assert KeysOf(entries)[i] != KeysOf(entries)[j]; }
      else { assert KeysOf(entries)[j] != KeysOf(entries)[i]; }
    }
    MultisetNoDuplicates(entries, s);
    MultisetMembers(entries, s);
    forall i, j | 0 <= i < j < |s| ensures KeysOf(s)[i] != KeysOf(s)[j] {
      assert s[i] in s && s[j] in s && s[i] != s[j];
      var x :| 0 <= x < |entries| && entries[x] == s[i];
      var y :| 0 <= y < |entries| && entries[y] == s[j];
      assert x != y;
      if x < y { assert KeysOf(entries)[x] != KeysOf(entries)[y]; }
      else { assert KeysOf(entries)[y] != KeysOf(entries)[x]; }
    }
  }

  /** One key list for two objects with the same defined keys. */
  lemma SameKeysSameOrder(e: seq<Entry>, f: seq<Entry>)
    requires NoDuplicates(KeysOf(e)) && NoDuplicates(KeysOf(f))
    requires forall key :: HasKey(e, key) <==> HasKey(f, key)
    ensures KeysOf(SortedEntries(e)) == KeysOf(SortedEntries(f))
  {
    var a, b := KeysOf(SortedEntries(e)), KeysOf(SortedEntries(f));
    SortedEntriesLaws(e);
    SortedEntriesLaws(f);
    NoDuplicatesMultiset(a, b);
    TextOrderIsTotal();
    SortedUnique(a, b, TextOrder());
  }

  /** Main result: the normal form is exactly the value up to key order, so by `CanonicalTextNamesTheValue` the
      canonical text is too. */
  lemma {:induction false} SameIsNormal(v: Value, w: Value)
    requires DistinctKeys(v) && DistinctKeys(w)
    ensures Same(v, w) <==> Normal(v) == Normal(w)
    decreases v
  {
    match (v, w)
    case (Array(a), Array(b)) =>
      forall i | 0 <= i < |a| && i < |b| ensures Same(a[i], b[i]) <==> Normal(a[i]) == Normal(b[i]) {
        SameIsNormal(a[i], b[i]);
      }
      if Normal(v) == Normal(w) {
        assert |Normal(v).items| == |a| && |Normal(w).items| == |b|;
        forall i | 0 <= i < |a| ensures Same(a[i], b[i]) {
          assert Normal(v).items[i] == Normal(a[i]) && Normal(w).items[i] == Normal(b[i]);
        }
      }
    case (Object(e), Object(f)) =>
      forall i, j | 0 <= i < |e| && 0 <= j < |f|
        ensures Same(e[i].value, f[j].value) <==> Normal(e[i].value) == Normal(f[j].value)
      {
        SameIsNormal(e[i].value, f[j].value);
      }
      if Same(v, w) { SameObjectsAreNormal(e, f); }
      if Normal(v) == Normal(w) { NormalObjectsAreSame(e, f); }
    case _ =>
  }

  ghost predicate ValuesAgree(e: seq<Entry>, f: seq<Entry>) {
    forall i, j :: 0 <= i < |e| && 0 <= j < |f| ==>
      (Same(e[i].value, f[j].value) <==> Normal(e[i].value) == Normal(f[j].value))
  }

  lemma SameObjectsHaveSameKeys(e: seq<Entry>, f: seq<Entry>)
    requires Same(Object(e), Object(f))
    ensures forall key :: HasKey(e, key) <==> HasKey(f, key)
  {
    forall key ensures HasKey(e, key) <==> HasKey(f, key) {
      if HasKey(e, key) {
        var i :| Holds(e, key, i);
        assert HasKey(f, e[i].key);
      }
      if HasKey(f, key) {
        var j :| Holds(f, key, j);
        assert HasKey(e, f[j].key);
      }
    }
  }

  lemma SameObjectsLineUp(e: seq<Entry>, f: seq<Entry>)
    requires NoDuplicates(KeysOf(e)) && NoDuplicates(KeysOf(f)) && ValuesAgree(e, f)
    requires Same(Object(e), Object(f))
    ensures var a, b := SortedEntries(e), SortedEntries(f);
            |a| == |b| && forall p: nat :: p < |a| ==> a[p].key == b[p].key && Normal(a[p].value) == Normal(b[p].value)
  {
    SameObjectsHaveSameKeys(e, f);
    SameKeysSameOrder(e, f);
    var a, b := SortedEntries(e), SortedEntries(f);
    assert |a| == |KeysOf(a)| == |KeysOf(b)| == |b|;
    forall p: nat | p < |a| ensures a[p].key == b[p].key && Normal(a[p].value) == Normal(b[p].value) {
      assert KeysOf(a)[p] == KeysOf(b)[p];
      var i := SortedFrom(e, p);
      var j := SortedFrom(f, p);
      assert Holds(f, e[i].key, j);
      assert Same(e[i].value, f[j].value);
    }
  }

  lemma SameObjectsAreNormal(e: seq<Entry>, f: seq<Entry>)
    requires NoDuplicates(KeysOf(e)) && NoDuplicates(KeysOf(f)) && ValuesAgree(e, f)
    requires Same(Object(e), Object(f))
    ensures Normal(Object(e)) == Normal(Object(f))
  {
    SameObjectsLineUp(e, f);
    var a, b := SortedEntries(e), SortedEntries(f);
    var x, y := Normal(Object(e)).entries, Normal(Object(f)).entries;
    assert |x| == |y|;
    forall p: nat | p < |x| ensures x[p] == y[p] {
      assert x[p] == Entry(a[p].key, Normal(a[p].value)) && y[p] == Entry(b[p].key, Normal(b[p].value));
    }
  }

  lemma NormalObjectsLineUp(e: seq<Entry>, f: seq<Entry>)
    requires Normal(Object(e)) == Normal(Object(f))
    ensures KeysOf(SortedEntries(e)) == KeysOf(SortedEntries(f))
    ensures forall p :: 0 <= p < |SortedEntries(e)| && p < |SortedEntries(f)| ==>
              Normal(SortedEntries(e)[p].value) == Normal(SortedEntries(f)[p].value)
  {
    var a, b := SortedEntries(e), SortedEntries(f);
    var x, y := Normal(Object(e)).entries, Normal(Object(f)).entries;
    assert |a| == |x| == |y| == |b|;
    forall p | 0 <= p < |a| ensures KeysOf(a)[p] == KeysOf(b)[p] && Normal(a[p].value) == Normal(b[p].value) {
      assert x[p] == Entry(a[p].key, Normal(a[p].value)) && y[p] == Entry(b[p].key, Normal(b[p].value));
    }
  }

  lemma OnePlace(keys: seq<Text>, p: nat, q: nat)
    requires NoDuplicates(keys) && p < |keys| && q < |keys| && keys[p] == keys[q]
    ensures p == q
  {}

  lemma NormalObjectsAgreeAt(e: seq<Entry>, f: seq<Entry>, i: nat, j: nat)
    requires NoDuplicates(KeysOf(e)) && NoDuplicates(KeysOf(f))
    requires Normal(Object(e)) == Normal(Object(f))
    requires i < |e| && Holds(f, e[i].key, j) && e[i].value != Undefined
    ensures Normal(e[i].value) == Normal(f[j].value)
  {
    var a, b := SortedEntries(e), SortedEntries(f);
    NormalObjectsLineUp(e, f);
    SortedEntriesLaws(e);
    var p := SortedAt(e, i);
    var q := SortedAt(f, j);
    assert |KeysOf(a)| == |KeysOf(b)|;
    assert KeysOf(a)[p] == KeysOf(b)[q];
    OnePlace(KeysOf(a), p, q);
  }

  lemma NormalObjectsAreSame(e: seq<Entry>, f: seq<Entry>)
    requires NoDuplicates(KeysOf(e)) && NoDuplicates(KeysOf(f)) && ValuesAgree(e, f)
    requires Normal(Object(e)) == Normal(Object(f))
    ensures Same(Object(e), Object(f))
  {
    NormalObjectsLineUp(e, f);
    SortedEntriesLaws(e);
    SortedEntriesLaws(f);
    forall i | 0 <= i < |e| && e[i].value != Undefined ensures HasKey(f, e[i].key) {
      assert Holds(e, e[i].key, i);
      assert HasKey(e, e[i].key);
    }
    forall j | 0 <= j < |f| && f[j].value != Undefined ensures HasKey(e, f[j].key) {
      assert Holds(f, f[j].key, j);
      assert HasKey(f, f[j].key);
    }
    forall i: nat, j: nat | i < |e| && Holds(f, e[i].key, j) && e[i].value != Undefined
      ensures Same(e[i].value, f[j].value)
    {
      NormalObjectsAgreeAt(e, f, i, j);
    }
  }

  lemma DefinedIgnoresOrder(e: seq<Entry>, f: seq<Entry>)
    requires multiset(e) == multiset(f)
    ensures multiset(Defined(e)) == multiset(Defined(f))
  {
    forall x ensures multiset(Defined(e))[x] == multiset(Defined(f))[x] {
      DefinedCount(e, x);
      DefinedCount(f, x);
    }
  }

  /** Key order never changes the output: reordering the entries of an object keeps its normal form. */
  lemma KeyOrderIrrelevant(e: seq<Entry>, f: seq<Entry>)
    requires multiset(e) == multiset(f) && NoDuplicates(KeysOf(e))
    ensures Normal(Object(e)) == Normal(Object(f))
  {
    DefinedIgnoresOrder(e, f);
    DefinedKeysDistinct(e);
    DistinctKeysDistinguish(Defined(e));
    ByKeyIsTotal();
    SortIgnoresOrder(Defined(e), Defined(f), ByKey());
  }

  /** Main result: equal canonical texts, hence equal hashes of them, mean equal values up to key order, and only
      that. */
  lemma EqualTextsMeanEqualValues(v: Value, w: Value)
    requires Serializable(v) && Serializable(w) && DistinctKeys(v) && DistinctKeys(w)
    ensures Canonicalize(v) == Canonicalize(w) <==> Same(v, w)
  {
    CanonicalTextNamesTheValue(v, w);
    SameIsNormal(v, w);
  }

  // -------------------------------------------------------- the literal text

  /** `null`, `true`, `false`. */
  lemma WordsPrinted()
    ensures Canonicalize(Null) == Ok([0x6E, 0x75, 0x6C, 0x6C])
    ensures Canonicalize(Bool(true)) == Ok([0x74, 0x72, 0x75, 0x65])
    ensures Canonicalize(Bool(false)) == Ok([0x66, 0x61, 0x6C, 0x73, 0x65])
  {}

  /** `-10`. */
  lemma NumberPrinted()
    ensures Canonicalize(Number(-10)) == Ok([0x2D, 0x31, 0x30])
  {
    assert Digits(1) == [0x31];
    assert Digits(10) == [0x31] + [0x30] == [0x31, 0x30];
    assert PrintNumber(-10) == [0x2D] + [0x31, 0x30] == [0x2D, 0x31, 0x30];
  }

  /** Strings of one unit with an escape of two characters: `"`, `\`, and the controls named b, t, n, f and r. */
  lemma ShortEscapesPrinted()
    ensures Canonicalize(String([0x22])) == Ok([0x22, 0x5C, 0x22, 0x22])
    ensures Canonicalize(String([0x5C])) == Ok([0x22, 0x5C, 0x5C, 0x22])
    ensures Canonicalize(String([0x08])) == Ok([0x22, 0x5C, 0x62, 0x22])
    ensures Canonicalize(String([0x09])) == Ok([0x22, 0x5C, 0x74, 0x22])
    ensures Canonicalize(String([0x0A])) == Ok([0x22, 0x5C, 0x6E, 0x22])
    ensures Canonicalize(String([0x0C])) == Ok([0x22, 0x5C, 0x66, 0x22])
    ensures Canonicalize(String([0x0D])) == Ok([0x22, 0x5C, 0x72, 0x22])
  {
    forall u: CodeUnit | ShortEscape(u).Some?
      ensures Canonicalize(String([u])) == Ok([0x22, 0x5C, ShortEscape(u).value, 0x22])
    {
      assert QuoteBody([u]) == [0x5C, ShortEscape(u).value];
      assert [0x22] + [0x5C, ShortEscape(u).value] + [0x22] == [0x22, 0x5C, ShortEscape(u).value, 0x22];
    }
  }

  lemma ControlPrinted()
    ensures QuoteBody([0x1F]) == [0x5C, 0x75, 0x30, 0x30, 0x31, 0x66]
  {
    assert QuoteBody([0x1F]) == UnicodeEscape(0x1F);
  }

  lemma LoneSurrogatePrinted()
    ensures QuoteBody([0xD83D]) == [0x5C, 0x75, 0x64, 0x38, 0x33, 0x64]
  {
    assert QuoteBody([0xD83D]) == UnicodeEscape(0xD83D);
  }

  /** The empty string, a letter, a pair of surrogates; a control character and a lone surrogate are escaped. */
  lemma OtherStringsPrinted()
    ensures Canonicalize(String([])) == Ok([0x22, 0x22])
    ensures Canonicalize(String([0x61])) == Ok([0x22, 0x61, 0x22])
    ensures Canonicalize(String([0xD83D, 0xDE00])) == Ok([0x22, 0xD83D, 0xDE00, 0x22])
    ensures Canonicalize(String([0x1F])) == Ok([0x22, 0x5C, 0x75, 0x30, 0x30, 0x31, 0x66, 0x22])
    ensures Canonicalize(String([0xD83D])) == Ok([0x22, 0x5C, 0x75, 0x64, 0x38, 0x33, 0x64, 0x22])
  {
    ControlPrinted();
    LoneSurrogatePrinted();
    assert QuoteBody([]) == [] && QuoteBody([0x61]) == [0x61] && QuoteBody([0xD83D, 0xDE00]) == [0xD83D, 0xDE00];
    assert [0x22] + [] + [0x22] == [0x22, 0x22] && [0x22] + [0x61] + [0x22] == [0x22, 0x61, 0x22];
    assert [0x22] + [0xD83D, 0xDE00] + [0x22] == [0x22, 0xD83D, 0xDE00, 0x22];
    assert [0x22] + [0x5C, 0x75, 0x30, 0x30, 0x31, 0x66] + [0x22] == [0x22, 0x5C, 0x75, 0x30, 0x30, 0x31, 0x66, 0x22];
    assert [0x22] + [0x5C, 0x75, 0x64, 0x38, 0x33, 0x64] + [0x22] == [0x22, 0x5C, 0x75, 0x64, 0x38, 0x33, 0x64, 0x22];
  }

  lemma ItemsPrinted(v: Value, x: Value, y: Value)
    requires v == Array([x, y]) && Canonicalize(x).Ok? && Canonicalize(y).Ok?
    ensures CanonicalizeItems(v, [x, y], [x, y]) == Ok(Canonicalize(x).value + [0x2C] + Canonicalize(y).value)
  {
    assert [x, y][1..] == [y] && [y][1..] == [];
    assert CanonicalizeItems(v, [x, y], [y]) == Ok(Canonicalize(y).value + [] + []);
    assert Canonicalize(y).value + [] + [] == Canonicalize(y).value;
  }

  /** Two items, printed between brackets and parted by a comma. */
  lemma ArrayPrinted(x: Value, y: Value)
    requires Canonicalize(x).Ok? && Canonicalize(y).Ok?
    ensures Canonicalize(Array([x, y]))
         == Ok([0x5B] + (Canonicalize(x).value + [0x2C] + Canonicalize(y).value) + [0x5D])
  {
    ItemsPrinted(Array([x, y]), x, y);
  }

  /** An array with nothing in it, `[]`. */
  lemma EmptyArrayPrinted()
    ensures Canonicalize(Array([])) == Ok([0x5B, 0x5D])
  {
    assert CanonicalizeItems(Array([]), [], []) == Ok([]);
    assert [0x5B] + [] + [0x5D] == [0x5B, 0x5D];
  }

  lemma LettersDefined(a: Entry, b: Entry, c: Entry)
    requires a.value != Undefined && b.value != Undefined && c.value == Undefined
    ensures Defined([b, c, a]) == [b, a]
  {
    assert [b, c, a][1..] == [c, a] && [c, a][1..] == [a];
    assert Defined([a]) == [a];
    assert Defined([c, a]) == [a];
  }

  lemma LettersSorted(a: Entry, b: Entry)
    requires Less(a.key, b.key) && !Less(b.key, a.key)
    ensures Sort([b, a], ByKey()) == [a, b]
  {
    assert [b, a][1..] == [a] && [a][1..] == [];
    assert Sort([a], ByKey()) == [a];
    assert Insert(b, [], ByKey()) == [b];
  }

  lemma LettersJoined(xs: Text, ys: Text)
    ensures [0x22, 0x61, 0x22] + [0x3A] + xs + [0x2C] + ([0x22, 0x62, 0x22] + [0x3A] + ys + [] + [])
         == [0x22, 0x61, 0x22, 0x3A] + xs + [0x2C, 0x22, 0x62, 0x22, 0x3A] + ys
  {}

  lemma LetterPrinted(v: Value, all: seq<Entry>, b: Entry)
    requires v == Object(all) && b in all && b.key == [0x62] && Canonicalize(b.value).Ok?
    ensures CanonicalizeEntries(v, all, [b])
         == Ok([0x22, 0x62, 0x22] + [0x3A] + Canonicalize(b.value).value + [] + [])
  {
    assert [b][1..] == [];
    assert Quote([0x62]) == [0x22, 0x62, 0x22];
  }

  lemma LettersPrinted(v: Value, all: seq<Entry>, a: Entry, b: Entry)
    requires v == Object(all) && a in all && b in all && a.key == [0x61] && b.key == [0x62]
    requires Canonicalize(a.value).Ok? && Canonicalize(b.value).Ok?
    ensures CanonicalizeEntries(v, all, [a, b])
         == Ok([0x22, 0x61, 0x22, 0x3A] + Canonicalize(a.value).value
               + [0x2C, 0x22, 0x62, 0x22, 0x3A] + Canonicalize(b.value).value)
  {
    assert [a, b][1..] == [b];
    assert Quote([0x61]) == [0x22, 0x61, 0x22];
    LetterPrinted(v, all, b);
    LettersJoined(Canonicalize(a.value).value, Canonicalize(b.value).value);
  }

  lemma TwoPrinted(a: Entry, b: Entry, c: Entry, inner: Text)
    requires a.value != Undefined && b.value != Undefined && c.value == Undefined
    requires Less(a.key, b.key) && !Less(b.key, a.key)
    requires CanonicalizeEntries(Object([b, c, a]), [b, c, a], [a, b]) == Ok(inner)
    ensures Canonicalize(Object([b, c, a])) == Ok([0x7B] + inner + [0x7D])
  {
    LettersDefined(a, b, c);
    LettersSorted(a, b);
  }

  /** `{"a":` the one value `,"b":` the other `}`, of an object listing `b`, an undefined `c` and `a`. */
  lemma ObjectPrinted(x: Value, y: Value)
    requires Canonicalize(x).Ok? && Canonicalize(y).Ok?
    ensures Canonicalize(Object([Entry([0x62], y), Entry([0x63], Undefined), Entry([0x61], x)]))
         == Ok([0x7B] + ([0x22, 0x61, 0x22, 0x3A] + Canonicalize(x).value
                         + [0x2C, 0x22, 0x62, 0x22, 0x3A] + Canonicalize(y).value) + [0x7D])
  {
    var a, b, c := Entry([0x61], x), Entry([0x62], y), Entry([0x63], Undefined);
    var all := [b, c, a];
    assert a == all[2] && b == all[0];
    LettersPrinted(Object(all), all, a, b);
    TwoPrinted(a, b, c, [0x22, 0x61, 0x22, 0x3A] + Canonicalize(x).value
                        + [0x2C, 0x22, 0x62, 0x22, 0x3A] + Canonicalize(y).value);
  }

  /** An object with nothing in it, `{}`. */
  lemma EmptyObjectPrinted()
    ensures Canonicalize(Object([])) == Ok([0x7B, 0x7D])
  {
    assert Defined([]) == [] && SortedEntries([]) == [];
    assert [0x7B] + [] + [0x7D] == [0x7B, 0x7D];
  }
}
