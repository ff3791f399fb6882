/** Text as JavaScript iterates it, by code points, and the rule for the code points no text may carry. */
module ProhibitedText {
  import opened Texts

  type CodePoint = c: int | 0 <= c < 0x11_0000

  // -------------------------------------------------------------- code points

  /** The code units of one code point; a lone surrogate is its own. */
  function Units(c: CodePoint): (r: Text)
    ensures 1 <= |r| <= 2
  {
    if c < 0x1_0000 then [c] else [0xD800 + (c - 0x1_0000) / 0x400, 0xDC00 + (c - 0x1_0000) % 0x400]
  }

  function Paired(high: CodeUnit, low: CodeUnit): CodePoint
    requires IsHigh(high) && IsLow(low)
  {
    0x1_0000 + (high - 0xD800) * 0x400 + (low - 0xDC00)
  }

  /** The code points of a string, as `for ... of` yields them. */
  function CodePoints(s: Text): seq<CodePoint> {
    if s == [] then []
    else if |s| >= 2 && IsHigh(s[0]) && IsLow(s[1]) then [Paired(s[0], s[1])] + CodePoints(s[2..])
    else [s[0]] + CodePoints(s[1..])
  }

  /** The string of a list of code points. */
  function JoinUnits(points: seq<CodePoint>): Text {
    if points == [] then [] else Units(points[0]) + JoinUnits(points[1..])
  }

  /** No high surrogate stands alone before a low one, where they would be read as one code point. */
  ghost predicate Unsplit(points: seq<CodePoint>) {
    forall i :: 0 <= i < |points| - 1 ==> !(IsHigh(points[i]) && IsLow(points[i + 1]))
  }

  lemma UnitsOfPair(high: CodeUnit, low: CodeUnit)
    requires IsHigh(high) && IsLow(low)
    ensures Units(Paired(high, low)) == [high, low]
  {}

  lemma {:induction false} CodePointsRoundTrip(s: Text)
    ensures JoinUnits(CodePoints(s)) == s
    ensures Unsplit(CodePoints(s))
    ensures |CodePoints(s)| <= |s|
    ensures s != [] ==> CodePoints(s) != [] && (IsLow(CodePoints(s)[0]) ==> CodePoints(s)[0] == s[0])
  {
    if s != [] {
      var points := CodePoints(s);
      if |s| >= 2 && IsHigh(s[0]) && IsLow(s[1]) {
        CodePointsRoundTrip(s[2..]);
        UnitsOfPair(s[0], s[1]);
        assert points[1..] == CodePoints(s[2..]);
        assert s == [s[0], s[1]] + s[2..];
        forall i | 0 <= i < |points| - 1 ensures !(IsHigh(points[i]) && IsLow(points[i + 1])) {
          if i > 0 { assert points[i] == points[1..][i - 1] && points[i + 1] == points[1..][i]; }
        }
      } else {
        CodePointsRoundTrip(s[1..]);
        assert points[1..] == CodePoints(s[1..]);
        assert s == [s[0]] + s[1..];
        forall i | 0 <= i < |points| - 1 ensures !(IsHigh(points[i]) && IsLow(points[i + 1])) {
          if i > 0 {
            assert points[i] == points[1..][i - 1] && points[i + 1] == points[1..][i];
          } else {
            assert points[1] == CodePoints(s[1..])[0];
          }
        }
      }
    }
  }

  lemma {:induction false} JoinUnitsRoundTrip(points: seq<CodePoint>)
    requires Unsplit(points)
    ensures CodePoints(JoinUnits(points)) == points
  {
    if points != [] {
      var c, rest := points[0], points[1..];
      assert Unsplit(rest) by {
        forall i | 0 <= i < |rest| - 1 ensures !(IsHigh(rest[i]) && IsLow(rest[i + 1])) {
          assert rest[i] == points[i + 1] && rest[i + 1] == points[i + 1 + 1];
        }
      }
      JoinUnitsRoundTrip(rest);
      var tail := JoinUnits(rest);
      var s := Units(c) + tail;
      if c >= 0x1_0000 {
        assert s[2..] == tail;
      } else {
        assert s[1..] == tail;
        if rest != [] {
          assert !(IsHigh(points[0]) && IsLow(points[0 + 1]));
          assert tail[0] == Units(rest[0])[0];
        }
      }
      assert points == [c] + rest;
    }
  }

  // ----------------------------------------------------------------- the rule

  datatype Rule =
    | C0Control | C1Control | LineSeparator | BidiControl | DefaultIgnorable | InterlinearAnnotation | Noncharacter

  /** The Unicode properties of the running Node the rule reads. */
  datatype Unicode = Unicode(
    bidiControl: CodePoint -> bool,
    defaultIgnorable: CodePoint -> bool,
    noncharacter: CodePoint -> bool)
  {
    /** No printable ASCII character is default-ignorable or a noncharacter in any version of Unicode. */
    ghost predicate Valid() {
      forall c: CodePoint :: 0x20 <= c < 0x7F ==> !defaultIgnorable(c) && !noncharacter(c)
    }
  }

  predicate IsControl(c: CodePoint) { c <= 0x1F || 0x7F <= c <= 0x9F }

  /** Tab, line feed and carriage return. */
  predicate IsLineCharacter(c: CodePoint) { c == 0x09 || c == 0x0A || c == 0x0D }

  predicate IsSelector(c: CodePoint) { c == 0xFE0E || c == 0xFE0F }

  predicate InRuleSet(c: CodePoint, u: Unicode) {
    || IsControl(c) || u.defaultIgnorable(c) || u.noncharacter(c)
    || c == 0x2028 || c == 0x2029 || 0xFFF9 <= c <= 0xFFFB
  }

  /** The class a multi-line value is matched against. */
  predicate InProhibitedClass(c: CodePoint, u: Unicode) {
    InRuleSet(c, u) && !IsLineCharacter(c) && !IsSelector(c)
  }

  /** The class a one-line value is matched against. */
  predicate InOneLineClass(c: CodePoint, u: Unicode) {
    InRuleSet(c, u) && !IsSelector(c)
  }

  /** The rule a code point breaks, if any; the last label is what is left over, the annotation characters. */
  function ProhibitedTextRule(c: CodePoint, u: Unicode): (rule: Option<Rule>)
    ensures rule == Some(InterlinearAnnotation) ==> 0xFFF9 <= c <= 0xFFFB
  {
    if !InProhibitedClass(c, u) then None
    else if c <= 0x1F then Some(C0Control)
    else if 0x7F <= c <= 0x9F then Some(C1Control)
    else if c == 0x2028 || c == 0x2029 then Some(LineSeparator)
    else if u.bidiControl(c) then Some(BidiControl)
    else if u.defaultIgnorable(c) then Some(DefaultIgnorable)
    else if u.noncharacter(c) then Some(Noncharacter)
    else Some(InterlinearAnnotation)
  }

  /** The label of each code point: which are refused, and under which rule when several would name them. */
  lemma RuleExactly(c: CodePoint, u: Unicode)
    ensures ProhibitedTextRule(c, u) == Some(C0Control) <==> c < 0x20 && c !in {0x09, 0x0A, 0x0D}
    ensures ProhibitedTextRule(c, u) == Some(C1Control) <==> 0x7F <= c < 0xA0
    ensures ProhibitedTextRule(c, u) == Some(LineSeparator) <==> c in {0x2028, 0x2029}
    ensures ProhibitedTextRule(c, u).None? <==>
            || c in {0x09, 0x0A, 0x0D, 0xFE0E, 0xFE0F}
            || (0x20 <= c < 0x7F && !u.defaultIgnorable(c) && !u.noncharacter(c))
            || (0xA0 <= c && c !in {0x2028, 0x2029, 0xFFF9, 0xFFFA, 0xFFFB}
                && !u.defaultIgnorable(c) && !u.noncharacter(c))
    ensures ProhibitedTextRule(c, u).Some? && (0x20 <= c < 0x7F || (0xA0 <= c && c !in {0x2028, 0x2029})) ==>
              ProhibitedTextRule(c, u).value ==
              if u.bidiControl(c) then BidiControl
              else if u.defaultIgnorable(c) then DefaultIgnorable
              else if u.noncharacter(c) then Noncharacter else InterlinearAnnotation
  {}

  /** A one-line value adds exactly the three line characters. */
  lemma OneLineClassMeaning(c: CodePoint, u: Unicode)
    ensures InOneLineClass(c, u) <==> IsLineCharacter(c) || ProhibitedTextRule(c, u).Some?
  {}
}
