/** The escape form for prohibited text: its parts, its cut, and where it finds what it escapes. */
module TextEscape {
  import opened Texts
  import opened ProhibitedText

  const BACKSLASH: CodeUnit := 0x5C
  const LETTER_U: CodeUnit := 0x75
  const OPEN_BRACE: CodeUnit := 0x7B
  const CLOSE_BRACE: CodeUnit := 0x7D
  const OPENER: Text := [BACKSLASH, LETTER_U, OPEN_BRACE]

  // ---------------------------------------------------------------- one escape

  /** An upper-case hexadecimal digit. */
  function HexDigit(d: nat): CodeUnit
    requires d < 16
  {
    if d < 10 then 0x30 + d else 0x41 + d - 10
  }

  function HexDigits(n: nat): Text {
    if n < 16 then [HexDigit(n)] else HexDigits(n / 16) + [HexDigit(n % 16)]
  }

  /** `padStart(4, '0')`. */
  function Padded(digits: Text): Text {
    if |digits| >= 4 then digits else seq(4 - |digits|, i => 0x30) + digits
  }

  function EscapeCodePoint(c: CodePoint): Text {
    OPENER + Padded(HexDigits(c)) + [CLOSE_BRACE]
  }

  // --------------------------------------------------------------- whole values

  /** The code points a one-line value is escaped at. */
  predicate Named(c: CodePoint, u: Unicode) { InOneLineClass(c, u) }

  function EscapePoints(points: seq<CodePoint>, u: Unicode): Text {
    if points == [] then []
    else
      EscapePoints(points[..|points| - 1], u)
      + if Named(points[|points| - 1], u) then EscapeCodePoint(points[|points| - 1]) else Units(points[|points| - 1])
  }

  function EscapeOneLine(value: Text, u: Unicode): Text { EscapePoints(CodePoints(value), u) }

  /** A piece of what is shown: some text left alone, or a single escape. */
  datatype EscapedPart = EscapedPart(text: Text, escape: bool)

  function Flushed(parts: seq<EscapedPart>, plain: Text): seq<EscapedPart> {
    if |plain| > 0 then parts + [EscapedPart(plain, false)] else parts
  }

  /** The parts pushed and the plain text pending after some code points. */
  function PartsAfter(points: seq<CodePoint>, u: Unicode): (seq<EscapedPart>, Text) {
    if points == [] then ([], [])
    else
      var (parts, plain) := PartsAfter(points[..|points| - 1], u);
      var c := points[|points| - 1];
      if Named(c, u) then (Flushed(parts, plain) + [EscapedPart(EscapeCodePoint(c), true)], [])
      else (parts, plain + Units(c))
  }

  function PartsOf(value: Text, u: Unicode): seq<EscapedPart> {
    var (parts, plain) := PartsAfter(CodePoints(value), u);
    Flushed(parts, plain)
  }

  /** One step of string iteration. */
  lemma NextCodePoint(s: Text, i: nat)
    requires i < |s|
    ensures var pair := i + 1 < |s| && IsHigh(s[i]) && IsLow(s[i + 1]);
            CodePoints(s[i..]) == if pair then [Paired(s[i], s[i + 1])] + CodePoints(s[i + 2..])
                                  else [s[i]] + CodePoints(s[i + 1..])
  {
    assert s[i..][1..] == s[i + 1..];
    if i + 1 < |s| { assert s[i..][2..] == s[i + 2..]; }
  }

  /** The code points before `i`, when iteration stops there. */
  ghost predicate Iterated(s: Text, i: nat, done: seq<CodePoint>) {
    i <= |s| && CodePoints(s) == done + CodePoints(s[i..])
  }

  /** The code point at `i`; after it, iteration stops one unit on, or two after a pair. */
  ghost function OneMoreIterated(s: Text, i: nat, done: seq<CodePoint>): (c: CodePoint)
    requires i < |s| && Iterated(s, i, done)
    ensures Iterated(s, if i + 1 < |s| && IsHigh(s[i]) && IsLow(s[i + 1]) then i + 2 else i + 1, done + [c])
  {
    NextCodePoint(s, i);
    var pair := i + 1 < |s| && IsHigh(s[i]) && IsLow(s[i + 1]);
    var c := if pair then Paired(s[i], s[i + 1]) else s[i];
    var next := if pair then i + 2 else i + 1;
    assert done + ([c] + CodePoints(s[next..])) == done + [c] + CodePoints(s[next..]);
    c
  }

  method ReadCodePoint(s: Text, i: nat, ghost done: seq<CodePoint>) returns (c: CodePoint, next: nat)
    requires i < |s| && Iterated(s, i, done)
    ensures i < next <= |s| && Iterated(s, next, done + [c])
  {
    NextCodePoint(s, i);
    if i + 1 < |s| && IsHigh(s[i]) && IsLow(s[i + 1]) {
      c, next := Paired(s[i], s[i + 1]), i + 2;
    } else {
      c, next := s[i], i + 1;
    }
    assert done + ([c] + CodePoints(s[next..])) == done + [c] + CodePoints(s[next..]);
  }

  method EscapeOneLineParts(value: Text, u: Unicode) returns (parts: seq<EscapedPart>)
    requires u.Valid()
    ensures parts == PartsOf(value, u)
  {
    parts := [];
    var plain: Text := [];
    var i := 0;
    ghost var done: seq<CodePoint> := [];
    assert value[0..] == value && [] + CodePoints(value) == CodePoints(value);
    while i < |value|
      invariant Iterated(value, i, done)
      invariant (parts, plain) == PartsAfter(done, u)
    {
      var c, next := ReadCodePoint(value, i, done);
      assert (done + [c])[..|done|] == done;
      var printable := 0x20 <= c < 0x7F;
      OneLineClassMeaning(c, u);
      var escaped := !printable && (IsLineCharacter(c) || ProhibitedTextRule(c, u).Some?);
      assert escaped == Named(c, u);
      if escaped {
        if |plain| > 0 { parts := parts + [EscapedPart(plain, false)]; }
        plain := [];
        parts := parts + [EscapedPart(EscapeCodePoint(c), true)];
      } else {
        plain := plain + Units(c);
      }
      done := done + [c];
      i := next;
    }
    assert value[i..] == [];
    assert CodePoints(value) == done + [] == done;
    if |plain| > 0 { parts := parts + [EscapedPart(plain, false)]; }
  }

  // -------------------------------------------------------------------- the cut

  predicate OpensAt(s: Text, k: int) { 0 <= k && k + 3 <= |s| && s[k..k + 3] == OPENER }

  /** `lastIndexOf` of the opener, from `k` downwards. */
  function LastOpener(s: Text, k: int): (r: int)
    ensures r == -1 || (0 <= r <= k && OpensAt(s, r))
    ensures forall i :: r < i <= k ==> !OpensAt(s, i)
    decreases k
  {
    if k < 0 then -1 else if OpensAt(s, k) then k else LastOpener(s, k - 1)
  }

  /** `indexOf` of the closing brace, from `k` upwards. */
  function NextClose(s: Text, k: nat): (r: int)
    ensures r == -1 || (k <= r < |s| && s[r] == CLOSE_BRACE)
    ensures forall i :: k <= i < |s| && (r == -1 || i < r) ==> s[i] != CLOSE_BRACE
    decreases |s| - k
  {
    if k >= |s| then -1 else if s[k] == CLOSE_BRACE then k else NextClose(s, k + 1)
  }

  /** The length an escaped value is cut to. A negative start of `lastIndexOf` is read as zero. */
  function EscapedCut(escaped: Text, max: nat): nat {
    if |escaped| <= max then |escaped|
    else
      var open := LastOpener(escaped, if max == 0 then 0 else max - 1);
      if open >= 0 && NextClose(escaped, open) >= max then open else max
  }

  // ------------------------------------------------------------------- lengths

  method CodePointLength(value: Text) returns (length: nat)
    ensures length == |CodePoints(value)|
  {
    length := 0;
    var index := 0;
    ghost var done: seq<CodePoint> := [];
    assert value[0..] == value && [] + CodePoints(value) == CodePoints(value);
    while index < |value|
      invariant Iterated(value, index, done) && length == |done|
    {
      done := done + [OneMoreIterated(value, index, done)];
      if 0xD800 <= value[index] <= 0xDBFF && index + 1 < |value| && 0xDC00 <= value[index + 1] <= 0xDFFF {
        index := index + 1;
      }
      index := index + 1;
      length := length + 1;
    }
    assert value[index..] == [];
    assert CodePoints(value) == done + [] == done;
  }

  // ------------------------------------------------------------------ locations

  datatype Located = Located(codePoint: CodePoint, rule: Option<Rule>, line: nat, column: nat)

  /** One more than the line feeds before position `i`. */
  function LineAt(points: seq<CodePoint>, i: nat): nat
    requires i <= |points|
  {
    if i == 0 then 1 else LineAt(points, i - 1) + if points[i - 1] == 0x0A then 1 else 0
  }

  /** One more than the code points between the last line feed before `i` and `i`. */
  function ColumnAt(points: seq<CodePoint>, i: nat): nat
    requires i <= |points|
  {
    if i == 0 || points[i - 1] == 0x0A then 1 else ColumnAt(points, i - 1) + 1
  }

  /** What is reported of a code point: a line character of a one-line value carries no rule label of its own. */
  predicate Reported(c: CodePoint, oneLine: bool, u: Unicode) {
    (oneLine && IsLineCharacter(c)) || ProhibitedTextRule(c, u).Some?
  }

  /** What is reported is what the class of the same kind of value matches. */
  lemma ReportedExactly(c: CodePoint, oneLine: bool, u: Unicode)
    ensures Reported(c, oneLine, u) <==> if oneLine then InOneLineClass(c, u) else InProhibitedClass(c, u)
  {}

  function LocatedAt(points: seq<CodePoint>, i: nat, oneLine: bool, u: Unicode): Located
    requires i < |points|
  {
    Located(points[i], if oneLine && IsLineCharacter(points[i]) then None else ProhibitedTextRule(points[i], u),
            LineAt(points, i), ColumnAt(points, i))
  }

  function LocatedUpTo(points: seq<CodePoint>, n: nat, oneLine: bool, u: Unicode): seq<Located>
    requires n <= |points|
  {
    if n == 0 then []
    else
      LocatedUpTo(points, n - 1, oneLine, u)
      + if Reported(points[n - 1], oneLine, u) then [LocatedAt(points, n - 1, oneLine, u)] else []
  }

  /** Lines one after another, each ended by a line feed. */
  ghost function Terminated(lines: seq<seq<CodePoint>>): seq<CodePoint> {
    if lines == [] then [] else Terminated(lines[..|lines| - 1]) + lines[|lines| - 1] + [0x0A]
  }

  /** The points before position `i` are `lines` whole lines and `here`, the start of the line `i` is on. */
  ghost predicate SplitsAt(points: seq<CodePoint>, i: nat, lines: seq<seq<CodePoint>>, here: seq<CodePoint>)
    requires i <= |points|
  {
    && (forall l :: 0 <= l < |lines| ==> 0x0A !in lines[l])
    && 0x0A !in here
    && points[..i] == Terminated(lines) + here
  }

  /** Position `i` is the `column`-th of the `line`-th line, both counted from one. */
  ghost predicate StandsIn(points: seq<CodePoint>, i: nat, line: nat, column: nat)
    requires i <= |points|
  {
    exists lines, here :: SplitsAt(points, i, lines, here) && line == |lines| + 1 && column == |here| + 1
  }

  lemma {:induction false} SplitsAsCounted(points: seq<CodePoint>, i: nat, lines: seq<seq<CodePoint>>,
                                           here: seq<CodePoint>)
    requires i <= |points| && SplitsAt(points, i, lines, here)
    ensures LineAt(points, i) == |lines| + 1 && ColumnAt(points, i) == |here| + 1
    decreases i
  {
    if i > 0 {
      assert points[..i] == points[..i - 1] + [points[i - 1]];
      if here != [] {
        var shorter := here[..|here| - 1];
        assert here == shorter + [here[|here| - 1]];
        assert Terminated(lines) + here == Terminated(lines) + shorter + [here[|here| - 1]];
        assert points[i - 1] in here;
        SplitsAsCounted(points, i - 1, lines, shorter);
      } else {
        var last := lines[|lines| - 1];
        SplitsAsCounted(points, i - 1, lines[..|lines| - 1], last);
      }
    }
  }

  lemma SplitEnds(points: seq<CodePoint>, i: nat, lines: seq<seq<CodePoint>>, here: seq<CodePoint>)
    requires i < |points| && SplitsAt(points, i, lines, here) && points[i] == 0x0A
    ensures SplitsAt(points, i + 1, lines + [here], [])
  {
    assert (lines + [here])[..|lines|] == lines;
    assert points[..i + 1] == points[..i] + [points[i]];
  }

  lemma SplitGoesOn(points: seq<CodePoint>, i: nat, lines: seq<seq<CodePoint>>, here: seq<CodePoint>)
    requires i < |points| && SplitsAt(points, i, lines, here) && points[i] != 0x0A
    ensures SplitsAt(points, i + 1, lines, here + [points[i]])
  {
    assert points[..i + 1] == points[..i] + [points[i]];
  }

  lemma {:induction false} EveryPositionStands(points: seq<CodePoint>, i: nat)
    returns (lines: seq<seq<CodePoint>>, here: seq<CodePoint>)
    requires i <= |points|
    ensures SplitsAt(points, i, lines, here)
  {
    if i == 0 {
      lines, here := [], [];
    } else {
      lines, here := EveryPositionStands(points, i - 1);
      if points[i - 1] == 0x0A {
        SplitEnds(points, i - 1, lines, here);
        lines, here := lines + [here], [];
      } else {
        SplitGoesOn(points, i - 1, lines, here);
        here := here + [points[i - 1]];
      }
    }
  }

  /** The counted line and column are where the position stands once the points are split at their line feeds. */
  lemma PlaceExactly(points: seq<CodePoint>, i: nat, line: nat, column: nat)
    requires i <= |points|
    ensures StandsIn(points, i, line, column) <==> line == LineAt(points, i) && column == ColumnAt(points, i)
  {
    var first, rest := EveryPositionStands(points, i);
    forall lines, here | SplitsAt(points, i, lines, here)
      ensures LineAt(points, i) == |lines| + 1 && ColumnAt(points, i) == |here| + 1
    {
      SplitsAsCounted(points, i, lines, here);
    }
  }

  /** The positions before `n` of the code points that are reported. */
  ghost function ReportedBefore(points: seq<CodePoint>, n: nat, oneLine: bool, u: Unicode): set<nat>
    requires n <= |points|
  {
    set i: nat | i < n && Reported(points[i], oneLine, u)
  }

  /** The entry is of the code point at position `i`, with the line and the column it stands in. */
  ghost predicate Locates(points: seq<CodePoint>, i: nat, oneLine: bool, u: Unicode, entry: Located)
    requires i < |points|
  {
    && entry.codePoint == points[i]
    && StandsIn(points, i, entry.line, entry.column)
    && entry.rule == if oneLine && IsLineCharacter(points[i]) then None else ProhibitedTextRule(points[i], u)
  }

  /** The entry of position `i` has as many entries before it as positions before `i` are reported. */
  ghost predicate HasEntry(points: seq<CodePoint>, i: nat, oneLine: bool, u: Unicode, found: seq<Located>)
    requires i < |points|
  {
    var k := |ReportedBefore(points, i, oneLine, u)|;
    k < |found| && Locates(points, i, oneLine, u, found[k])
  }

  /** One entry for each code point that is reported, in their order. */
  ghost predicate LocatesAll(points: seq<CodePoint>, n: nat, oneLine: bool, u: Unicode, found: seq<Located>)
    requires n <= |points|
  {
    && |found| == |ReportedBefore(points, n, oneLine, u)|
    && forall i :: 0 <= i < n && Reported(points[i], oneLine, u) ==> HasEntry(points, i, oneLine, u, found)
  }

  lemma LocatesNext(points: seq<CodePoint>, i: nat, oneLine: bool, u: Unicode)
    requires i < |points|
    ensures Locates(points, i, oneLine, u, LocatedAt(points, i, oneLine, u))
  {
    PlaceExactly(points, i, LineAt(points, i), ColumnAt(points, i));
  }

  lemma ReportedNext(points: seq<CodePoint>, i: nat, oneLine: bool, u: Unicode)
    requires i < |points|
    ensures |ReportedBefore(points, i + 1, oneLine, u)|
         == |ReportedBefore(points, i, oneLine, u)| + if Reported(points[i], oneLine, u) then 1 else 0
  {
    var before := ReportedBefore(points, i, oneLine, u);
    assert ReportedBefore(points, i + 1, oneLine, u)
        == if Reported(points[i], oneLine, u) then before + {i} else before;
  }

  lemma EntryStays(points: seq<CodePoint>, i: nat, oneLine: bool, u: Unicode, found: seq<Located>, entry: Located)
    requires i < |points| && HasEntry(points, i, oneLine, u, found)
    ensures HasEntry(points, i, oneLine, u, found + [entry])
  {
    var k := |ReportedBefore(points, i, oneLine, u)|;
    assert (found + [entry])[k] == found[k];
  }

  lemma LastEntry(points: seq<CodePoint>, n: nat, oneLine: bool, u: Unicode, found: seq<Located>, entry: Located)
    requires n < |points| && |found| == |ReportedBefore(points, n, oneLine, u)|
    requires Locates(points, n, oneLine, u, entry)
    ensures HasEntry(points, n, oneLine, u, found + [entry])
  {
    assert (found + [entry])[|found|] == entry;
  }

  lemma {:induction false} AsManyLocated(points: seq<CodePoint>, n: nat, oneLine: bool, u: Unicode)
    requires n <= |points|
    ensures |LocatedUpTo(points, n, oneLine, u)| == |ReportedBefore(points, n, oneLine, u)|
  {
    if n == 0 {
      assert ReportedBefore(points, 0, oneLine, u) == {};
    } else {
      AsManyLocated(points, n - 1, oneLine, u);
      ReportedNext(points, n - 1, oneLine, u);
    }
  }

  lemma {:induction false} EachLocated(points: seq<CodePoint>, n: nat, i: nat, oneLine: bool, u: Unicode)
    requires i < n <= |points| && Reported(points[i], oneLine, u)
    ensures HasEntry(points, i, oneLine, u, LocatedUpTo(points, n, oneLine, u))
  {
    var found, entry := LocatedUpTo(points, n - 1, oneLine, u), LocatedAt(points, n - 1, oneLine, u);
    if i == n - 1 {
      AsManyLocated(points, i, oneLine, u);
      LocatesNext(points, i, oneLine, u);
      LastEntry(points, i, oneLine, u, found, entry);
    } else {
      EachLocated(points, n - 1, i, oneLine, u);
      EntryStays(points, i, oneLine, u, found, entry);
    }
  }

  /** Every reported code point is located, in their order, where splitting the points at line feeds puts it. */
  lemma LocatedExactly(points: seq<CodePoint>, n: nat, oneLine: bool, u: Unicode)
    requires n <= |points|
    ensures LocatesAll(points, n, oneLine, u, LocatedUpTo(points, n, oneLine, u))
  {
    AsManyLocated(points, n, oneLine, u);
    forall i | 0 <= i < n && Reported(points[i], oneLine, u)
      ensures HasEntry(points, i, oneLine, u, LocatedUpTo(points, n, oneLine, u))
    {
      EachLocated(points, n, i, oneLine, u);
    }
  }

  lemma {:induction false} PositionsOfPrefix(points: seq<CodePoint>, more: seq<CodePoint>, n: nat)
    requires n <= |points|
    ensures LineAt(points + more, n) == LineAt(points, n) && ColumnAt(points + more, n) == ColumnAt(points, n)
  {
    if n > 0 { PositionsOfPrefix(points, more, n - 1); }
  }

  lemma {:induction false} LocatedOfPrefix(points: seq<CodePoint>, more: seq<CodePoint>, n: nat, oneLine: bool,
                                           u: Unicode)
    requires n <= |points|
    ensures LocatedUpTo(points + more, n, oneLine, u) == LocatedUpTo(points, n, oneLine, u)
  {
    if n > 0 {
      LocatedOfPrefix(points, more, n - 1, oneLine, u);
      PositionsOfPrefix(points, more, n - 1);
    }
  }

  method LocateProhibitedText(value: Text, oneLine: bool, u: Unicode) returns (found: seq<Located>)
    ensures found == LocatedUpTo(CodePoints(value), |CodePoints(value)|, oneLine, u)
    ensures LocatesAll(CodePoints(value), |CodePoints(value)|, oneLine, u, found)
  {
    found := [];
    var line, column := 1, 1;
    var i := 0;
    ghost var done: seq<CodePoint> := [];
    assert value[0..] == value && [] + CodePoints(value) == CodePoints(value);
    while i < |value|
      invariant Iterated(value, i, done)
      invariant line == LineAt(done, |done|) && column == ColumnAt(done, |done|)
      invariant found == LocatedUpTo(done, |done|, oneLine, u)
    {
      var c, next := ReadCodePoint(value, i, done);
      PositionsOfPrefix(done, [c], |done|);
      LocatedOfPrefix(done, [c], |done|, oneLine, u);
      var rule := if oneLine && IsLineCharacter(c) then None else ProhibitedTextRule(c, u);
      if rule.Some? || (oneLine && IsLineCharacter(c)) { found := found + [Located(c, rule, line, column)]; }
      if c == 0x0A {
        line, column := line + 1, 1;
      } else {
        column := column + 1;
      }
      done := done + [c];
      i := next;
    }
    assert value[i..] == [];
    assert CodePoints(value) == done + [] == done;
    LocatedExactly(CodePoints(value), |CodePoints(value)|, oneLine, u);
  }
}
