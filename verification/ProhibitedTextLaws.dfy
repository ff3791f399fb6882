/** What is left of a value when the prohibited code points are removed from it. */
module ProhibitedTextLaws {
  import opened Texts
  import opened ProhibitedText

  /** The code points a removal keeps, in order. */
  function Kept(points: seq<CodePoint>, u: Unicode): seq<CodePoint> {
    if points == [] then []
    else (if InProhibitedClass(points[0], u) then [] else [points[0]]) + Kept(points[1..], u)
  }

  function RemoveProhibitedText(value: Text, u: Unicode): Text { JoinUnits(Kept(CodePoints(value), u)) }

  predicate Clean(points: seq<CodePoint>, u: Unicode) {
    forall c :: c in points ==> !InProhibitedClass(c, u)
  }

  predicate HasProhibitedText(value: Text, u: Unicode) { !Clean(CodePoints(value), u) }

  /** Every surrogate of the value is half of a pair. */
  ghost predicate WellFormed(value: Text) {
    forall c :: c in CodePoints(value) ==> !IsHigh(c) && !IsLow(c)
  }

  /** Two halves left side by side would be read as one prohibited code point. */
  ghost predicate JoinsAt(points: seq<CodePoint>, i: int, u: Unicode) {
    0 <= i < |points| - 1 && IsHigh(points[i]) && IsLow(points[i + 1])
    && InProhibitedClass(Paired(points[i], points[i + 1]), u)
  }

  ghost predicate JoinsNone(points: seq<CodePoint>, u: Unicode) {
    forall i :: !JoinsAt(points, i, u)
  }

  lemma {:induction false} KeptIsClean(points: seq<CodePoint>, u: Unicode)
    ensures Clean(Kept(points, u), u)
    ensures forall c :: c in Kept(points, u) <==> c in points && !InProhibitedClass(c, u)
  {
    if points != [] {
      KeptIsClean(points[1..], u);
      assert points == [points[0]] + points[1..];
    }
  }

  lemma {:induction false} CleanKeepsAll(points: seq<CodePoint>, u: Unicode)
    requires Clean(points, u)
    ensures Kept(points, u) == points
  {
    if points != [] {
      assert points[0] in points;
      assert Clean(points[1..], u) by {
        forall c | c in points[1..] ensures !InProhibitedClass(c, u) { assert c in points; }
      }
      CleanKeepsAll(points[1..], u);
      assert points == [points[0]] + points[1..];
    }
  }

  /** Reading the string of some code points back, one or two at a time. */
  lemma ReadPair(points: seq<CodePoint>)
    requires |points| >= 2 && IsHigh(points[0]) && IsLow(points[1])
    ensures CodePoints(JoinUnits(points)) == [Paired(points[0], points[1])] + CodePoints(JoinUnits(points[2..]))
  {
    var s, tail := JoinUnits(points), JoinUnits(points[2..]);
    assert points[1..][1..] == points[2..];
    assert JoinUnits(points[1..]) == [points[1]] + tail;
    assert s == [points[0]] + ([points[1]] + tail);
    assert s[2..] == tail;
  }

  lemma ReadUnits(c: CodePoint, tail: Text)
    requires !(IsHigh(c) && tail != [] && IsLow(tail[0]))
    ensures CodePoints(Units(c) + tail) == [c] + CodePoints(tail)
  {
    var units := Units(c);
    var s := units + tail;
    if c >= 0x1_0000 {
      assert units == [units[0], units[1]] && IsHigh(units[0]) && IsLow(units[1]) && Paired(units[0], units[1]) == c;
      assert s[0] == units[0] && s[1] == units[1] && s[2..] == tail;
    } else {
      assert units == [c];
      assert s[0] == c && s[1..] == tail;
    }
  }

  lemma ReadOne(points: seq<CodePoint>)
    requires points != [] && !(|points| >= 2 && IsHigh(points[0]) && IsLow(points[1]))
    ensures CodePoints(JoinUnits(points)) == [points[0]] + CodePoints(JoinUnits(points[1..]))
  {
    var tail := JoinUnits(points[1..]);
    if |points| >= 2 { assert tail[0] == Units(points[1])[0]; }
    ReadUnits(points[0], tail);
  }

  lemma {:induction false} CleanReadBack(points: seq<CodePoint>, u: Unicode)
    requires Clean(points, u)
    ensures Clean(CodePoints(JoinUnits(points)), u) <==> JoinsNone(points, u)
    decreases |points|
  {
    if points != [] {
      var step := if |points| >= 2 && IsHigh(points[0]) && IsLow(points[1]) then 2 else 1;
      if step == 2 { ReadPair(points); } else { ReadOne(points); }
      var rest := points[step..];
      var first := if step == 2 then Paired(points[0], points[1]) else points[0];
      assert points[0] in points;
      assert Clean(rest, u) by {
        forall c | c in rest ensures !InProhibitedClass(c, u) { assert c in points; }
      }
      CleanReadBack(rest, u);
      var read := CodePoints(JoinUnits(rest));
      assert Clean([first] + read, u) <==> !InProhibitedClass(first, u) && Clean(read, u) by {
        assert first in [first] + read;
        forall c | c in read ensures c in [first] + read {}
      }
      JoinsFurtherOn(points, step, u);
    }
  }

  lemma JoinsFurtherOn(points: seq<CodePoint>, step: nat, u: Unicode)
    requires points != []
    requires step == if |points| >= 2 && IsHigh(points[0]) && IsLow(points[1]) then 2 else 1
    ensures JoinsNone(points, u) <==> !JoinsAt(points, 0, u) && JoinsNone(points[step..], u)
  {
    var rest := points[step..];
    forall i | JoinsAt(rest, i, u) ensures JoinsAt(points, i + step, u) {
      assert rest[i] == points[i + step] && rest[i + 1] == points[i + step + 1];
    }
    forall i | JoinsAt(points, i, u) && i != 0 ensures JoinsAt(rest, i - step, u) {
      assert i >= step;
      assert rest[i - step] == points[i] && rest[i - step + 1] == points[i + 1];
    }
  }

  /** A removal leaves nothing prohibited exactly when it brings no two halves of a prohibited code point together. */
  lemma RemovalLeavesNoneExactly(value: Text, u: Unicode)
    ensures !HasProhibitedText(RemoveProhibitedText(value, u), u)
       <==> JoinsNone(Kept(CodePoints(value), u), u)
  {
    KeptIsClean(CodePoints(value), u);
    CleanReadBack(Kept(CodePoints(value), u), u);
  }

  /** So a well-formed value loses exactly its prohibited code points, and a second removal changes nothing. */
  lemma RemovalOfWellFormed(value: Text, u: Unicode)
    requires WellFormed(value)
    ensures !HasProhibitedText(RemoveProhibitedText(value, u), u)
    ensures CodePoints(RemoveProhibitedText(value, u)) == Kept(CodePoints(value), u)
    ensures RemoveProhibitedText(RemoveProhibitedText(value, u), u) == RemoveProhibitedText(value, u)
  {
    var kept := Kept(CodePoints(value), u);
    KeptIsClean(CodePoints(value), u);
    forall i | 0 <= i < |kept| ensures !IsHigh(kept[i]) && !IsLow(kept[i]) { assert kept[i] in kept; }
    RemovalLeavesNoneExactly(value, u);
    JoinUnitsRoundTrip(kept);
    CleanKeepsAll(kept, u);
  }

  /** A lone high and a lone low surrogate around a zero-width space become the language tag U+E0001. */
  lemma RemovalCanJoinHalves(u: Unicode)
    requires u.defaultIgnorable(0x200B) && u.defaultIgnorable(0xE0001)
    requires !InRuleSet(0xDB40, u) && !InRuleSet(0xDC01, u)
    ensures HasProhibitedText(RemoveProhibitedText([0xDB40, 0x200B, 0xDC01], u), u)
  {
    var value: Text := [0xDB40, 0x200B, 0xDC01];
    assert value[1..] == [0x200B, 0xDC01] && value[1..][1..] == [0xDC01];
    assert CodePoints([0xDC01]) == [0xDC01];
    assert CodePoints([0x200B, 0xDC01]) == [0x200B, 0xDC01];
    var points := CodePoints(value);
    assert points == [0xDB40, 0x200B, 0xDC01];
    assert points[1..] == [0x200B, 0xDC01] && points[1..][1..] == [0xDC01];
    assert Kept([0xDC01], u) == [0xDC01];
    assert Kept([0x200B, 0xDC01], u) == [0xDC01];
    assert Kept(points, u) == [0xDB40, 0xDC01];
    assert JoinsAt(Kept(points, u), 0, u);
    RemovalLeavesNoneExactly(value, u);
  }
}
