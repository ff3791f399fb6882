/** The escape form loses nothing, is a fixed point of itself, and is cut only between escapes. */
module TextEscapeLaws {
  import opened Texts
  import opened Sequences
  import opened ProhibitedText
  import opened TextEscape

  // ------------------------------------------------------------- one escape back

  function DigitValue(unit: CodeUnit): int { if unit < 0x41 then unit - 0x30 else unit - 0x41 + 10 }

  function HexValue(digits: Text): int {
    if digits == [] then 0 else HexValue(digits[..|digits| - 1]) * 16 + DigitValue(digits[|digits| - 1])
  }

  /** What an escape stands for: the number between its braces. */
  function ReadEscape(escape: Text): int {
    if |escape| < 4 then 0 else HexValue(escape[3..|escape| - 1])
  }

  predicate IsHexDigit(unit: CodeUnit) { 0x30 <= unit <= 0x39 || 0x41 <= unit <= 0x46 }

  lemma {:induction false} HexRoundTrip(n: nat)
    ensures HexValue(HexDigits(n)) == n
    ensures |HexDigits(n)| >= 1
    ensures forall i :: 0 <= i < |HexDigits(n)| ==> IsHexDigit(HexDigits(n)[i])
  {
    if n >= 16 {
      HexRoundTrip(n / 16);
      assert HexDigits(n)[..|HexDigits(n)| - 1] == HexDigits(n / 16);
    } else {
      assert HexDigits(n)[..0] == [];
    }
  }

  lemma {:induction false} LeadingZero(digits: Text)
    ensures HexValue([0x30] + digits) == HexValue(digits)
  {
    var longer := [0x30] + digits;
    if digits == [] {
      assert longer[..0] == [];
    } else {
      LeadingZero(digits[..|digits| - 1]);
      assert longer[..|longer| - 1] == [0x30] + digits[..|digits| - 1];
    }
  }

  lemma {:induction false} LeadingZeros(k: nat, digits: Text)
    ensures HexValue(seq(k, i => 0x30) + digits) == HexValue(digits)
  {
    if k == 0 {
      assert seq(0, i => 0x30) + digits == digits;
    } else {
      LeadingZeros(k - 1, digits);
      LeadingZero(seq(k - 1, i => 0x30) + digits);
      assert seq(k, i => 0x30) + digits == [0x30] + (seq(k - 1, i => 0x30) + digits);
    }
  }

  lemma PaddedReads(c: CodePoint)
    ensures var padded := Padded(HexDigits(c));
            |padded| >= 4 && HexValue(padded) == c && forall i :: 0 <= i < |padded| ==> IsHexDigit(padded[i])
  {
    HexRoundTrip(c);
    if |HexDigits(c)| < 4 { LeadingZeros(4 - |HexDigits(c)|, HexDigits(c)); }
  }

  /** An escape is its opener, at least four upper-case hexadecimal digits and a closing brace, and names its code
      point. */
  lemma EscapeShape(c: CodePoint)
    ensures var e := EscapeCodePoint(c);
            && |e| >= 8 && OpensAt(e, 0) && e[|e| - 1] == CLOSE_BRACE
            && (forall i :: 3 <= i < |e| - 1 ==> IsHexDigit(e[i]))
            && ReadEscape(e) == c
  {
    var e := EscapeCodePoint(c);
    PaddedReads(c);
    var padded := Padded(HexDigits(c));
    assert e[3..|e| - 1] == padded;
    assert e[0..3] == OPENER;
    forall i | 3 <= i < |e| - 1 ensures IsHexDigit(e[i]) { assert e[i] == padded[i - 3]; }
  }

  // ------------------------------------------------------------------- the parts

  function TextOf(parts: seq<EscapedPart>): Text {
    if parts == [] then [] else TextOf(parts[..|parts| - 1]) + parts[|parts| - 1].text
  }

  /** The value a list of parts displays: text as it stands, each escape read back. */
  function Decoded(parts: seq<EscapedPart>): seq<int> {
    if parts == [] then []
    else
      var part := parts[|parts| - 1];
      Decoded(parts[..|parts| - 1])
      + if part.escape && 0 <= ReadEscape(part.text) < 0x11_0000 then Units(ReadEscape(part.text)) else part.text
  }

  ghost predicate AllPlain(points: seq<CodePoint>, u: Unicode) {
    forall i :: 0 <= i < |points| ==> !Named(points[i], u)
  }

  /** What each part holds: the escape of one named code point, or some text that names none. */
  ghost predicate PartHolds(part: EscapedPart, u: Unicode) {
    if part.escape then exists c: CodePoint :: Named(c, u) && part.text == EscapeCodePoint(c)
    else part.text != [] && AllPlain(CodePoints(part.text), u)
  }

  ghost predicate PartsHold(parts: seq<EscapedPart>, u: Unicode) {
    && (forall i :: 0 <= i < |parts| ==> PartHolds(parts[i], u))
    && (forall i :: 0 <= i < |parts| - 1 ==> parts[i].escape || parts[i + 1].escape)
  }

  lemma {:induction false} JoinUnitsAppend(points: seq<CodePoint>, c: CodePoint)
    ensures JoinUnits(points + [c]) == JoinUnits(points) + Units(c)
  {
    if points == [] {
      assert JoinUnits([c][1..]) == [];
    } else {
      JoinUnitsAppend(points[1..], c);
      assert (points + [c])[1..] == points[1..] + [c];
      Associative<int>(Units(points[0]), JoinUnits(points[1..]), Units(c));
    }
  }

  lemma UnsplitPart(points: seq<CodePoint>, from: nat, to: nat)
    requires Unsplit(points) && from <= to <= |points|
    ensures Unsplit(points[from..to])
  {
    var part := points[from..to];
    forall i | 0 <= i < |part| - 1 ensures !(IsHigh(part[i]) && IsLow(part[i + 1])) {
      assert part[i] == points[from + i] && part[i + 1] == points[from + i + 1];
    }
  }

  lemma PushedPart(parts: seq<EscapedPart>, part: EscapedPart)
    ensures TextOf(parts + [part]) == TextOf(parts) + part.text
    ensures Decoded(parts + [part])
         == Decoded(parts)
            + if part.escape && 0 <= ReadEscape(part.text) < 0x11_0000 then Units(ReadEscape(part.text)) else part.text
  {
    assert (parts + [part])[..|parts|] == parts;
  }

  lemma FlushedPlain(parts: seq<EscapedPart>, plain: Text)
    ensures TextOf(Flushed(parts, plain)) == TextOf(parts) + plain
    ensures Decoded(Flushed(parts, plain)) == Decoded(parts) + plain
  {
    if |plain| > 0 {
      PushedPart(parts, EscapedPart(plain, false));
    } else {
      assert TextOf(parts) + plain == TextOf(parts) && Decoded(parts) + plain == Decoded(parts);
    }
  }

  /** The pending text is the last code points, none of them named. */
  ghost predicate Pending(points: seq<CodePoint>, k: nat, plain: Text, u: Unicode) {
    k <= |points| && plain == JoinUnits(points[k..]) && AllPlain(points[k..], u)
  }

  ghost predicate PartsSoFar(points: seq<CodePoint>, parts: seq<EscapedPart>, plain: Text, u: Unicode) {
    && TextOf(parts) + plain == EscapePoints(points, u)
    && Decoded(parts) + plain == JoinUnits(points)
    && PartsHold(parts, u)
    && (parts != [] ==> parts[|parts| - 1].escape)
    && exists k: nat :: Pending(points, k, plain, u)
  }

  lemma PlainTextHolds(points: seq<CodePoint>, k: nat, plain: Text, u: Unicode)
    requires Unsplit(points) && Pending(points, k, plain, u) && plain != []
    ensures PartHolds(EscapedPart(plain, false), u)
  {
    UnsplitPart(points, k, |points|);
    assert points[k..|points|] == points[k..];
    JoinUnitsRoundTrip(points[k..]);
  }

  lemma PushHolds(parts: seq<EscapedPart>, part: EscapedPart, u: Unicode)
    requires PartsHold(parts, u) && PartHolds(part, u)
    requires parts == [] || parts[|parts| - 1].escape || part.escape
    ensures PartsHold(parts + [part], u)
  {
    var all := parts + [part];
    forall i | 0 <= i < |all| ensures PartHolds(all[i], u) {
      if i < |parts| { assert all[i] == parts[i]; }
    }
    forall i | 0 <= i < |all| - 1 ensures all[i].escape || all[i + 1].escape {
      assert all[i] == parts[i];
      if i + 1 < |parts| { assert all[i + 1] == parts[i + 1]; }
    }
  }

  lemma FlushHolds(points: seq<CodePoint>, parts: seq<EscapedPart>, plain: Text, u: Unicode)
    requires Unsplit(points) && PartsSoFar(points, parts, plain, u)
    ensures PartsHold(Flushed(parts, plain), u)
  {
    if |plain| > 0 {
      var k: nat :| Pending(points, k, plain, u);
      PlainTextHolds(points, k, plain, u);
      PushHolds(parts, EscapedPart(plain, false), u);
    }
  }

  lemma EscapedText(points: seq<CodePoint>, c: CodePoint, parts: seq<EscapedPart>, plain: Text, u: Unicode)
    requires Named(c, u) && TextOf(parts) + plain == EscapePoints(points, u)
    ensures TextOf(Flushed(parts, plain) + [EscapedPart(EscapeCodePoint(c), true)]) == EscapePoints(points + [c], u)
  {
    FlushedPlain(parts, plain);
    PushedPart(Flushed(parts, plain), EscapedPart(EscapeCodePoint(c), true));
    EscapePointsAppend(points, c, u);
  }

  lemma EscapedDecodes(points: seq<CodePoint>, c: CodePoint, parts: seq<EscapedPart>, plain: Text)
    requires Decoded(parts) + plain == JoinUnits(points)
    ensures Decoded(Flushed(parts, plain) + [EscapedPart(EscapeCodePoint(c), true)]) == JoinUnits(points + [c])
  {
    FlushedPlain(parts, plain);
    PushedPart(Flushed(parts, plain), EscapedPart(EscapeCodePoint(c), true));
    EscapeShape(c);
    JoinUnitsAppend(points, c);
  }

  lemma NothingPending(points: seq<CodePoint>, u: Unicode)
    ensures Pending(points, |points|, [], u)
  {
    assert points[|points|..] == [];
  }

  lemma NothingMore(a: seq<int>)
    ensures a + [] == a
  {}

  lemma EscapedStep(points: seq<CodePoint>, c: CodePoint, parts: seq<EscapedPart>, plain: Text, u: Unicode)
    requires Unsplit(points) && PartsSoFar(points, parts, plain, u) && Named(c, u)
    ensures PartsSoFar(points + [c], Flushed(parts, plain) + [EscapedPart(EscapeCodePoint(c), true)], [], u)
  {
    var flushed, escape := Flushed(parts, plain), EscapedPart(EscapeCodePoint(c), true);
    EscapedText(points, c, parts, plain, u);
    EscapedDecodes(points, c, parts, plain);
    NothingMore(TextOf(flushed + [escape]));
    NothingMore(Decoded(flushed + [escape]));
    FlushHolds(points, parts, plain, u);
    assert PartHolds(escape, u);
    PushHolds(flushed, escape, u);
    NothingPending(points + [c], u);
  }

  lemma PendingStep(points: seq<CodePoint>, c: CodePoint, k: nat, plain: Text, u: Unicode)
    requires Pending(points, k, plain, u) && !Named(c, u)
    ensures Pending(points + [c], k, plain + Units(c), u)
  {
    assert (points + [c])[k..] == points[k..] + [c];
    JoinUnitsAppend(points[k..], c);
  }

  lemma EscapePointsAppend(points: seq<CodePoint>, c: CodePoint, u: Unicode)
    ensures EscapePoints(points + [c], u)
         == EscapePoints(points, u) + if Named(c, u) then EscapeCodePoint(c) else Units(c)
  {
    assert (points + [c])[..|points|] == points;
  }

  lemma PlainStep(points: seq<CodePoint>, c: CodePoint, parts: seq<EscapedPart>, plain: Text, u: Unicode)
    requires PartsSoFar(points, parts, plain, u) && !Named(c, u)
    ensures PartsSoFar(points + [c], parts, plain + Units(c), u)
  {
    assert exists k: nat :: Pending(points + [c], k, plain + Units(c), u) by {
      var k: nat :| Pending(points, k, plain, u);
      PendingStep(points, c, k, plain, u);
    }
    EscapePointsAppend(points, c, u);
    JoinUnitsAppend(points, c);
    Associative<int>(TextOf(parts), plain, Units(c));
    Associative<int>(Decoded(parts), plain, Units(c));
  }

  lemma {:induction false} PartsAfterHold(points: seq<CodePoint>, u: Unicode)
    requires Unsplit(points)
    ensures PartsSoFar(points, PartsAfter(points, u).0, PartsAfter(points, u).1, u)
  {
    if points == [] {
      assert Pending([], 0, [], u);
    } else {
      var before, c := points[..|points| - 1], points[|points| - 1];
      UnsplitPart(points, 0, |points| - 1);
      assert points[0..|points| - 1] == before && before + [c] == points;
      PartsAfterHold(before, u);
      var (parts, plain) := PartsAfter(before, u);
      if Named(c, u) { EscapedStep(before, c, parts, plain, u); } else { PlainStep(before, c, parts, plain, u); }
    }
  }

  /** The parts concatenate to the escaped value and read back as the value itself. */
  lemma PartsLoseNothing(value: Text, u: Unicode)
    ensures TextOf(PartsOf(value, u)) == EscapeOneLine(value, u)
    ensures Decoded(PartsOf(value, u)) == value
    ensures PartsHold(PartsOf(value, u), u)
  {
    CodePointsRoundTrip(value);
    PartsAfterHold(CodePoints(value), u);
    var (parts, plain) := PartsAfter(CodePoints(value), u);
    FlushedPlain(parts, plain);
    FlushHolds(CodePoints(value), parts, plain, u);
  }

  // ------------------------------------------------------------- a fixed point

  /** The code points of the escaped text: every named one has become printable ASCII. */
  function OutPoints(points: seq<CodePoint>, u: Unicode): seq<CodePoint> {
    if points == [] then []
    else
      OutPoints(points[..|points| - 1], u) + OutOf(points[|points| - 1], u)
  }

  lemma EscapeIsPrintable(c: CodePoint, u: Unicode)
    requires u.Valid()
    ensures forall i :: 0 <= i < |EscapeCodePoint(c)| ==>
              0x20 <= EscapeCodePoint(c)[i] < 0x7F && !Named(EscapeCodePoint(c)[i], u)
  {
    var e := EscapeCodePoint(c);
    EscapeShape(c);
    forall i | 0 <= i < |e| ensures 0x20 <= e[i] < 0x7F && !Named(e[i], u) {
      if i < 3 {
        assert e[i] == e[0..3][i];
      } else if i < |e| - 1 {
        assert IsHexDigit(e[i]);
      }
    }
  }

  lemma {:induction false} JoinUnitsConcat(a: seq<CodePoint>, b: seq<CodePoint>)
    ensures JoinUnits(a + b) == JoinUnits(a) + JoinUnits(b)
  {
    if a == [] {
      assert a + b == b;
    } else {
      JoinUnitsConcat(a[1..], b);
      assert (a + b)[1..] == a[1..] + b;
      Associative<int>(Units(a[0]), JoinUnits(a[1..]), JoinUnits(b));
    }
  }

  lemma {:induction false} AsciiIsItself(text: Text)
    requires forall i :: 0 <= i < |text| ==> text[i] < 0x7F
    ensures JoinUnits(text) == text
  {
    if text != [] { AsciiIsItself(text[1..]); }
  }

  lemma UnsplitConcat(a: seq<CodePoint>, b: seq<CodePoint>)
    requires Unsplit(a) && Unsplit(b) && a != [] && b != []
    requires !(IsHigh(a[|a| - 1]) && IsLow(b[0]))
    ensures Unsplit(a + b)
  {}

  /** What one code point becomes. */
  function OutOf(c: CodePoint, u: Unicode): seq<CodePoint> { if Named(c, u) then EscapeCodePoint(c) else [c] }

  /** `out` shows the escaped points: it names nothing, joins to their text, and ends high only where they do. */
  ghost predicate Shows(out: seq<CodePoint>, points: seq<CodePoint>, text: Text, u: Unicode) {
    && JoinUnits(out) == text && AllPlain(out, u) && Unsplit(out)
    && (points != [] ==> out != [] && (IsHigh(out[|out| - 1]) ==> points[|points| - 1] == out[|out| - 1]))
  }

  lemma OutOfMeaning(c: CodePoint, u: Unicode)
    requires u.Valid()
    ensures var out := OutOf(c, u);
            && out != [] && AllPlain(out, u) && Unsplit(out)
            && JoinUnits(out) == (if Named(c, u) then EscapeCodePoint(c) else Units(c))
            && (IsHigh(out[|out| - 1]) ==> c == out[|out| - 1])
            && (IsLow(out[0]) ==> c == out[0])
  {
    if Named(c, u) {
      EscapeShape(c);
      EscapeIsPrintable(c, u);
      AsciiIsItself(EscapeCodePoint(c));
    } else {
      assert JoinUnits([c][1..]) == [];
    }
  }

  lemma {:induction false} OutPointsMeaning(points: seq<CodePoint>, u: Unicode)
    requires u.Valid() && Unsplit(points)
    ensures Shows(OutPoints(points, u), points, EscapePoints(points, u), u)
  {
    if points != [] {
      var before, c := points[..|points| - 1], points[|points| - 1];
      UnsplitBefore(points);
      OutPointsMeaning(before, u);
      OutPointsOneMore(before, c, u);
      InitAndLast(points);
    }
  }

  lemma OutPointsOneMore(points: seq<CodePoint>, c: CodePoint, u: Unicode)
    requires u.Valid() && Shows(OutPoints(points, u), points, EscapePoints(points, u), u)
    requires points != [] ==> !(IsHigh(points[|points| - 1]) && IsLow(c))
    ensures Shows(OutPoints(points + [c], u), points + [c], EscapePoints(points + [c], u), u)
  {
    ShowsOneMore(OutPoints(points, u), points, EscapePoints(points, u), c, u);
    OutPointsAppend(points, c, u);
    EscapePointsAppend(points, c, u);
  }

  lemma OutPointsAppend(points: seq<CodePoint>, c: CodePoint, u: Unicode)
    ensures OutPoints(points + [c], u) == OutPoints(points, u) + OutOf(c, u)
  {
    assert (points + [c])[..|points|] == points;
  }

  lemma UnsplitBefore(points: seq<CodePoint>)
    requires points != [] && Unsplit(points)
    ensures var before, c := points[..|points| - 1], points[|points| - 1];
            Unsplit(before) && (before != [] ==> !(IsHigh(before[|before| - 1]) && IsLow(c)))
  {
    var before := points[..|points| - 1];
    UnsplitPart(points, 0, |points| - 1);
    assert points[0..|points| - 1] == before;
    if before != [] { assert !(IsHigh(points[|before| - 1]) && IsLow(points[|before| - 1 + 1])); }
  }

  lemma ShowsOneMore(first: seq<CodePoint>, before: seq<CodePoint>, text: Text, c: CodePoint, u: Unicode)
    requires u.Valid() && Shows(first, before, text, u) && (before == [] ==> first == [])
    requires before != [] ==> !(IsHigh(before[|before| - 1]) && IsLow(c))
    ensures Shows(first + OutOf(c, u), before + [c], text + if Named(c, u) then EscapeCodePoint(c) else Units(c), u)
  {
    OutOfMeaning(c, u);
    JoinUnitsConcat(first, OutOf(c, u));
    UnsplitOneMore(first, before, OutOf(c, u), c);
    PlainConcat(first, OutOf(c, u), u);
  }

  lemma UnsplitOneMore(first: seq<CodePoint>, before: seq<CodePoint>, next: seq<CodePoint>, c: CodePoint)
    requires Unsplit(first) && (before == [] <==> first == [])
    requires Unsplit(next) && next != [] && (IsLow(next[0]) ==> c == next[0])
    requires before != [] && IsHigh(first[|first| - 1]) ==> before[|before| - 1] == first[|first| - 1]
    requires before != [] ==> !(IsHigh(before[|before| - 1]) && IsLow(c))
    ensures Unsplit(first + next)
  {
    if before != [] { UnsplitConcat(first, next); } else { assert first + next == next; }
  }

  lemma PlainConcat(a: seq<CodePoint>, b: seq<CodePoint>, u: Unicode)
    requires AllPlain(a, u) && AllPlain(b, u)
    ensures AllPlain(a + b, u)
  {}

  lemma {:induction false} PlainPointsStand(points: seq<CodePoint>, u: Unicode)
    requires AllPlain(points, u)
    ensures EscapePoints(points, u) == JoinUnits(points)
  {
    if points != [] {
      var before, c := points[..|points| - 1], points[|points| - 1];
      PlainPointsStand(before, u);
      JoinUnitsAppend(before, c);
      assert before + [c] == points;
    }
  }

  /** The escaped value names nothing more, and escaping it again changes nothing. */
  lemma EscapeIsAFixedPoint(value: Text, u: Unicode)
    requires u.Valid()
    ensures AllPlain(CodePoints(EscapeOneLine(value, u)), u)
    ensures EscapeOneLine(EscapeOneLine(value, u), u) == EscapeOneLine(value, u)
  {
    CodePointsRoundTrip(value);
    var out := OutPoints(CodePoints(value), u);
    OutPointsMeaning(CodePoints(value), u);
    JoinUnitsRoundTrip(out);
    PlainPointsStand(out, u);
  }

  /** A value is shown as it stands exactly when it names nothing. */
  lemma ShownAsItStands(value: Text, u: Unicode)
    requires u.Valid()
    ensures EscapeOneLine(value, u) == value <==> AllPlain(CodePoints(value), u)
  {
    if EscapeOneLine(value, u) == value {
      EscapeIsAFixedPoint(value, u);
    }
    if AllPlain(CodePoints(value), u) {
      CodePointsRoundTrip(value);
      PlainPointsStand(CodePoints(value), u);
    }
  }

  // -------------------------------------------------------------------- the cut

  function StartOf(parts: seq<EscapedPart>, i: nat): nat
    requires i <= |parts|
  {
    |TextOf(parts[..i])|
  }

  /** No escape of the list has characters on both sides of position `k`. */
  ghost predicate SplitsNone(parts: seq<EscapedPart>, k: int) {
    forall i :: 0 <= i < |parts| && parts[i].escape ==> !(StartOf(parts, i) < k < StartOf(parts, i) + |parts[i].text|)
  }

  lemma {:induction false} PartStands(parts: seq<EscapedPart>, i: nat)
    requires i < |parts|
    ensures StartOf(parts, i) + |parts[i].text| <= |TextOf(parts)|
    ensures TextOf(parts)[StartOf(parts, i)..StartOf(parts, i) + |parts[i].text|] == parts[i].text
  {
    var before := parts[..|parts| - 1];
    if i < |before| {
      PartStands(before, i);
      assert before[..i] == parts[..i];
      var from, to := StartOf(parts, i), StartOf(parts, i) + |parts[i].text|;
      assert TextOf(parts)[from..to] == TextOf(before)[from..to];
    }
  }

  /** Where an escape stands in the text: an opener, no other backslash, and its own brace the first to close it. */
  ghost predicate EscapeAt(s: Text, from: nat, to: nat) {
    && from + 8 <= to <= |s|
    && OpensAt(s, from)
    && s[to - 1] == CLOSE_BRACE
    && (forall j :: from <= j < to - 1 ==> s[j] != CLOSE_BRACE)
    && (forall j :: from < j < to ==> s[j] != BACKSLASH)
  }

  lemma EscapeSlice(s: Text, from: nat, c: CodePoint)
    requires from + |EscapeCodePoint(c)| <= |s|
    requires s[from..from + |EscapeCodePoint(c)|] == EscapeCodePoint(c)
    ensures EscapeAt(s, from, from + |EscapeCodePoint(c)|)
  {
    var e := EscapeCodePoint(c);
    EscapeShape(c);
    forall j | from <= j < from + |e| ensures s[j] == e[j - from] {
      assert s[from..from + |e|][j - from] == s[j];
    }
    assert e[0..3] == OPENER;
    assert e[0] == e[0..3][0] && e[1] == e[0..3][1] && e[2] == e[0..3][2];
    assert s[from..from + 3] == OPENER;
    forall j | from <= j < from + |e| - 1
      ensures s[j] != CLOSE_BRACE && (j > from ==> s[j] != BACKSLASH)
    {
      if j >= from + 3 { assert IsHexDigit(e[j - from]); }
    }
  }

  lemma EscapePartStands(s: Text, from: nat, part: EscapedPart, u: Unicode)
    requires PartHolds(part, u) && part.escape
    requires from + |part.text| <= |s| && s[from..from + |part.text|] == part.text
    ensures EscapeAt(s, from, from + |part.text|)
  {
    var c: CodePoint :| Named(c, u) && part.text == EscapeCodePoint(c);
    EscapeSlice(s, from, c);
  }

  lemma PartIsHeld(value: Text, u: Unicode, i: nat)
    requires i < |PartsOf(value, u)|
    ensures PartHolds(PartsOf(value, u)[i], u) && TextOf(PartsOf(value, u)) == EscapeOneLine(value, u)
  {
    PartsLoseNothing(value, u);
  }

  lemma EscapeStands(value: Text, u: Unicode, i: nat)
    requires i < |PartsOf(value, u)| && PartsOf(value, u)[i].escape
    ensures var parts := PartsOf(value, u);
            EscapeAt(EscapeOneLine(value, u), StartOf(parts, i), StartOf(parts, i) + |parts[i].text|)
  {
    var parts := PartsOf(value, u);
    PartIsHeld(value, u, i);
    PartStands(parts, i);
    EscapePartStands(EscapeOneLine(value, u), StartOf(parts, i), parts[i], u);
  }

  lemma OpenerStartsWithBackslash(s: Text, k: int)
    requires OpensAt(s, k)
    ensures s[k] == BACKSLASH
  {
    assert s[k..k + 3][0] == OPENER[0];
  }

  lemma CutAvoids(s: Text, max: nat, from: nat, to: nat)
    requires EscapeAt(s, from, to)
    ensures !(from < EscapedCut(s, max) < to)
    ensures from < max < to ==> EscapedCut(s, max) == from
  {
    if |s| > max && from < max < to {
      var open := LastOpener(s, max - 1);
      assert open == from by {
        OpenerStartsWithBackslash(s, open);
      }
      var close := NextClose(s, open);
      assert close == to - 1;
    } else if |s| > max {
      var open := LastOpener(s, if max == 0 then 0 else max - 1);
      if open >= 0 { OpenerStartsWithBackslash(s, open); }
    }
  }

  /** The cut is within the limit and splits no escape, whatever literal openers the value holds. */
  lemma CutSplitsNoEscape(value: Text, u: Unicode, max: nat)
    ensures EscapedCut(EscapeOneLine(value, u), max) <= max
    ensures EscapedCut(EscapeOneLine(value, u), max) <= |EscapeOneLine(value, u)|
    ensures SplitsNone(PartsOf(value, u), EscapedCut(EscapeOneLine(value, u), max))
  {
    var parts, s := PartsOf(value, u), EscapeOneLine(value, u);
    forall i | 0 <= i < |parts| && parts[i].escape
      ensures !(StartOf(parts, i) < EscapedCut(s, max) < StartOf(parts, i) + |parts[i].text|)
    {
      EscapeStands(value, u, i);
      CutAvoids(s, max, StartOf(parts, i), StartOf(parts, i) + |parts[i].text|);
    }
    CutStaysInside(s, max);
  }

  lemma CutStaysInside(s: Text, max: nat)
    ensures EscapedCut(s, max) <= max && EscapedCut(s, max) <= |s|
  {}

  ghost predicate EscapeStartsAt(parts: seq<EscapedPart>, k: int) {
    exists i :: 0 <= i < |parts| && parts[i].escape && StartOf(parts, i) == k
  }

  /** No longer cut of the value would do. */
  ghost predicate Longest(parts: seq<EscapedPart>, length: nat, max: nat, cut: nat) {
    forall k :: cut < k <= max && k <= length ==> !SplitsNone(parts, k)
  }

  /** The last opener before the limit is closed, but only at or after the limit: the cut goes back to it. */
  predicate Blunted(s: Text, max: nat) {
    && |s| > max
    && var open := LastOpener(s, max - 1);
       0 <= open < max && NextClose(s, open) >= max
  }

  lemma CutWhenBlunted(s: Text, max: nat)
    ensures EscapedCut(s, max) ==
            if |s| <= max then |s| else if Blunted(s, max) then LastOpener(s, max - 1) else max
  {
    if max == 0 {
      assert LastOpener(s, 0) <= 0;
    } else {
      assert LastOpener(s, max - 1) < max;
    }
  }

  /**
   * The cut keeps as much as a safe cut can exactly unless the last opener before the limit is text of the value and
   * is closed only at or after the limit: it is then taken for an escape, and dropped with all that follows it.
   */
  lemma CutIsLongestExactly(value: Text, u: Unicode, max: nat)
    ensures var parts, s := PartsOf(value, u), EscapeOneLine(value, u);
            Longest(parts, |s|, max, EscapedCut(s, max))
            <==> !(Blunted(s, max) && !EscapeStartsAt(parts, LastOpener(s, max - 1)))
  {
    var parts, s := PartsOf(value, u), EscapeOneLine(value, u);
    var cut := EscapedCut(s, max);
    CutWhenBlunted(s, max);
    if Blunted(s, max) {
      if EscapeStartsAt(parts, cut) {
        var i :| 0 <= i < |parts| && parts[i].escape && StartOf(parts, i) == cut;
        CutAtEscapeIsLongest(value, u, max, i);
      } else {
        CutElsewhereIsShort(value, u, max);
      }
    }
  }

  /** Five characters that look like an escape and are none: cut to four, none of them is kept, though all four could
      be. */
  lemma LiteralIsCutShort(u: Unicode)
    requires u.Valid()
    ensures var value: Text := [0x5C, 0x75, 0x7B, 0x41, 0x7D];
            var parts, s := PartsOf(value, u), EscapeOneLine(value, u);
            s == value && EscapedCut(s, 4) == 0 && SplitsNone(parts, 4) && !Longest(parts, |s|, 4, EscapedCut(s, 4))
  {
    var value: Text := [0x5C, 0x75, 0x7B, 0x41, 0x7D];
    var parts := PartsOf(value, u);
    AsciiStands(value, u);
    LiteralSplitsNone(value, u);
    LiteralOpens(value);
    assert 0 < 4 <= |value| && SplitsNone(parts, 4);
  }

  lemma LiteralSplitsNone(value: Text, u: Unicode)
    requires u.Valid() && |value| == 5 && EscapeOneLine(value, u) == value
    ensures SplitsNone(PartsOf(value, u), 4)
  {
    forall i | 0 <= i < |PartsOf(value, u)| ensures !PartsOf(value, u)[i].escape {
      if PartsOf(value, u)[i].escape { EscapeStands(value, u, i); }
    }
  }

  lemma AsciiStands(value: Text, u: Unicode)
    requires u.Valid() && forall i :: 0 <= i < |value| ==> 0x20 <= value[i] < 0x7F
    ensures EscapeOneLine(value, u) == value
  {
    AsciiIsItself(value);
    assert Unsplit(value);
    JoinUnitsRoundTrip(value);
    assert AllPlain(value, u);
    PlainPointsStand(value, u);
  }

  lemma LiteralOpens(s: Text)
    requires s == [BACKSLASH, LETTER_U, OPEN_BRACE, 0x41, CLOSE_BRACE]
    ensures EscapedCut(s, 4) == 0
  {
    assert s[0..3] == OPENER;
    assert OpensAt(s, 0);
    forall k | 1 <= k <= 3 ensures !OpensAt(s, k) {
      if OpensAt(s, k) { OpenerStartsWithBackslash(s, k); }
    }
    assert s[3] == 0x41 && s[4] == CLOSE_BRACE;
  }

  lemma CutAtEscapeIsLongest(value: Text, u: Unicode, max: nat, i: nat)
    requires i < |PartsOf(value, u)| && PartsOf(value, u)[i].escape
    requires StartOf(PartsOf(value, u), i) == EscapedCut(EscapeOneLine(value, u), max) < max
    ensures Longest(PartsOf(value, u), |EscapeOneLine(value, u)|, max, EscapedCut(EscapeOneLine(value, u), max))
  {
    EscapeStands(value, u, i);
    CutAtOpenEscape(EscapeOneLine(value, u), PartsOf(value, u), max, i);
  }

  lemma CutAtOpenEscape(s: Text, parts: seq<EscapedPart>, max: nat, i: nat)
    requires i < |parts| && parts[i].escape && EscapeAt(s, StartOf(parts, i), StartOf(parts, i) + |parts[i].text|)
    requires StartOf(parts, i) == EscapedCut(s, max) < max
    ensures Longest(parts, |s|, max, EscapedCut(s, max))
  {
    OpenCut(s, max, StartOf(parts, i), StartOf(parts, i) + |parts[i].text|);
    InsideSplits(parts, i, |s|, max);
  }

  lemma InsideSplits(parts: seq<EscapedPart>, i: nat, length: nat, max: nat)
    requires i < |parts| && parts[i].escape && max < StartOf(parts, i) + |parts[i].text|
    ensures Longest(parts, length, max, StartOf(parts, i))
  {}

  lemma CutElsewhereIsShort(value: Text, u: Unicode, max: nat)
    requires var cut := EscapedCut(EscapeOneLine(value, u), max);
             cut < max && cut < |EscapeOneLine(value, u)| && !EscapeStartsAt(PartsOf(value, u), cut)
    ensures max < |EscapeOneLine(value, u)| && SplitsNone(PartsOf(value, u), max)
  {
    var parts, s := PartsOf(value, u), EscapeOneLine(value, u);
    forall i | 0 <= i < |parts| && parts[i].escape
      ensures !(StartOf(parts, i) < max < StartOf(parts, i) + |parts[i].text|)
    {
      EscapeStands(value, u, i);
      EscapeNotCut(s, max, parts, i);
    }
  }

  lemma EscapeNotCut(s: Text, max: nat, parts: seq<EscapedPart>, i: nat)
    requires i < |parts| && parts[i].escape && EscapeAt(s, StartOf(parts, i), StartOf(parts, i) + |parts[i].text|)
    requires !EscapeStartsAt(parts, EscapedCut(s, max))
    ensures !(StartOf(parts, i) < max < StartOf(parts, i) + |parts[i].text|)
  {
    CutAvoids(s, max, StartOf(parts, i), StartOf(parts, i) + |parts[i].text|);
  }

  /** A cut short of the limit at an escape's start left that escape out because the limit falls inside it. */
  lemma OpenCut(s: Text, max: nat, from: nat, to: nat)
    requires EscapeAt(s, from, to) && EscapedCut(s, max) == from < max && from < |s|
    ensures max < to
  {
    assert |s| > max;
    var open := LastOpener(s, max - 1);
    assert open == from;
    var close := NextClose(s, open);
    assert close >= max;
    assert close <= to - 1;
  }
}
