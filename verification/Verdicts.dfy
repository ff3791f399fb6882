/** The verdict lines of a pull request's comments, and what they decide for one head commit. */
module Verdicts {
  import opened Texts
  import opened Sequences

  datatype Word = Pass | ChangesRequired

  /** A verdict and the commit it names. */
  datatype Verdict = Verdict(word: Word, commit: Text)

  datatype Association = Owner | Member | Collaborator | Outside

  datatype Comment = Comment(author: Association, body: Option<Text>)

  datatype Decision = Passed | Refused | Unrecorded

  datatype State = Success | Failure | Pending

  function StateOf(d: Decision): State { if d == Passed then Success else Failure }

  const LINE_FEED: CodeUnit := 0x0A
  const CARRIAGE_RETURN: CodeUnit := 0x0D

  const PASS_AT := Literal("Codex verdict: PASS at ")
  const CHANGES_AT := Literal("Codex verdict: CHANGES REQUIRED at ")

  function Opening(w: Word): Text { if w == Pass then PASS_AT else CHANGES_AT }

  /** Forty lower-case hexadecimal digits. */
  predicate IsCommit(t: Text) {
    |t| == 40 && forall i :: 0 <= i < 40 ==> 0x30 <= t[i] <= 0x39 || 0x61 <= t[i] <= 0x66
  }

  lemma CommitExactly(t: Text)
    ensures IsCommit(t) <==>
            && |t| == 40
            && forall u :: u in t ==> u in {0x30, 0x31, 0x32, 0x33, 0x34, 0x35, 0x36, 0x37, 0x38, 0x39,
                                            0x61, 0x62, 0x63, 0x64, 0x65, 0x66}
  {
    if IsCommit(t) {
      forall u | u in t ensures 0x30 <= u <= 0x39 || 0x61 <= u <= 0x66 {
        var i :| 0 <= i < |t| && t[i] == u;
      }
    } else if |t| == 40 {
      var i :| 0 <= i < 40 && !(0x30 <= t[i] <= 0x39 || 0x61 <= t[i] <= 0x66);
      assert t[i] in t;
    }
  }

  // -------------------------------------------------------------------- lines

  /** The white space and line ends `trim` removes. */
  predicate IsBlank(u: CodeUnit) {
    || 0x09 <= u <= 0x0D || u == 0x20 || u == 0xA0 || u == 0x1680 || 0x2000 <= u <= 0x200A
    || u == 0x2028 || u == 0x2029 || u == 0x202F || u == 0x205F || u == 0x3000 || u == 0xFEFF
  }

  /** White space and line terminators of ECMA-262, sections 12.2 and 12.3. */
  lemma BlankExactly(u: CodeUnit)
    ensures IsBlank(u) <==> u in {
              0x0009, 0x000A, 0x000B, 0x000C, 0x000D, 0x0020, 0x00A0, 0x1680, 0x2000, 0x2001, 0x2002, 0x2003, 0x2004,
              0x2005, 0x2006, 0x2007, 0x2008, 0x2009, 0x200A, 0x2028, 0x2029, 0x202F, 0x205F, 0x3000, 0xFEFF}
  {}

  function TrimStart(t: Text): Text { if t != [] && IsBlank(t[0]) then TrimStart(t[1..]) else t }

  function TrimEnd(t: Text): Text {
    if t != [] && IsBlank(t[|t| - 1]) then TrimEnd(t[..|t| - 1]) else t
  }

  function Trim(t: Text): Text { TrimEnd(TrimStart(t)) }

  function WithoutReturn(line: Text): Text {
    if line != [] && line[|line| - 1] == CARRIAGE_RETURN then line[..|line| - 1] else line
  }

  /** The lines of a body before its last line feed, and the unfinished rest. */
  function Broken(body: Text): (seq<Text>, Text) {
    if body == [] then ([], [])
    else
      var (lines, rest) := Broken(body[..|body| - 1]);
      var u := body[|body| - 1];
      if u == LINE_FEED then (lines + [WithoutReturn(rest)], []) else (lines, rest + [u])
  }

  /** `split(/\r?\n/)`. */
  function Lines(body: Text): seq<Text> { Broken(body).0 + [Broken(body).1] }

  /** The verdict a line is, if it is exactly one. */
  function LineVerdict(line: Text): Option<Verdict> {
    if PASS_AT <= line && IsCommit(line[|PASS_AT|..]) then Some(Verdict(Pass, line[|PASS_AT|..]))
    else if CHANGES_AT <= line && IsCommit(line[|CHANGES_AT|..])
    then Some(Verdict(ChangesRequired, line[|CHANGES_AT|..]))
    else None
  }

  function VerdictsAmong(lines: seq<Text>): seq<Verdict> {
    if lines == [] then []
    else
      var found := LineVerdict(Trim(lines[|lines| - 1]));
      VerdictsAmong(lines[..|lines| - 1]) + if found.Some? then [found.value] else []
  }

  method VerdictLines(body: Text) returns (verdicts: seq<Verdict>)
    ensures verdicts == VerdictsAmong(Lines(body))
  {
    verdicts := [];
    var lines := Lines(body);
    for i := 0 to |lines|
      invariant verdicts == VerdictsAmong(lines[..i])
    {
      TakeOneMore(lines, i);
      var found := LineVerdict(Trim(lines[i]));
      if found.Some? { verdicts := verdicts + [found.value]; }
    }
    assert lines[..|lines|] == lines;
  }

  // ----------------------------------------------------------------- decisions

  /** A comment's verdicts count when its author can write and it has a body. */
  function CountedVerdicts(entry: Comment): seq<Verdict> {
    if entry.author == Outside || entry.body.None? then [] else VerdictsAmong(Lines(entry.body.value))
  }

  function AllVerdicts(entries: seq<Comment>): seq<Verdict> {
    if entries == [] then []
    else AllVerdicts(entries[..|entries| - 1]) + CountedVerdicts(entries[|entries| - 1])
  }

  function LastNaming(head: Text, verdicts: seq<Verdict>): Option<Word> {
    if verdicts == [] then None
    else
      var v := verdicts[|verdicts| - 1];
      if v.commit == head then Some(v.word) else LastNaming(head, verdicts[..|verdicts| - 1])
  }

  function Concluded(last: Option<Word>): Decision {
    match last
    case None => Unrecorded
    case Some(Pass) => Passed
    case Some(ChangesRequired) => Refused
  }

  function DecisionOf(head: Text, entries: seq<Comment>): Decision {
    Concluded(LastNaming(head, AllVerdicts(entries)))
  }

  lemma {:induction false} LastNamingAfter(head: Text, before: seq<Verdict>, after: seq<Verdict>)
    ensures LastNaming(head, before + after)
         == if LastNaming(head, after).Some? then LastNaming(head, after) else LastNaming(head, before)
  {
    if after == [] {
      assert before + after == before;
    } else {
      LastNamingAfter(head, before, after[..|after| - 1]);
      assert (before + after)[..|before + after| - 1] == before + after[..|after| - 1];
    }
  }

  method Decide(head: Text, entries: seq<Comment>) returns (decision: Decision)
    ensures decision == DecisionOf(head, entries)
  {
    var last: Option<Word> := None;
    for i := 0 to |entries|
      invariant last == LastNaming(head, AllVerdicts(entries[..i]))
    {
      TakeOneMore(entries, i);
      var entry := entries[i];
      ghost var before := AllVerdicts(entries[..i]);
      LastNamingAfter(head, before, CountedVerdicts(entry));
      if entry.author in {Owner, Member, Collaborator} && entry.body.Some? {
        var verdicts := VerdictLines(entry.body.value);
        for j := 0 to |verdicts|
          invariant last == if LastNaming(head, verdicts[..j]).Some? then LastNaming(head, verdicts[..j])
                            else LastNaming(head, before)
        {
          TakeOneMore(verdicts, j);
          if verdicts[j].commit == head { last := Some(verdicts[j].word); }
        }
        assert verdicts[..|verdicts|] == verdicts;
      }
    }
    assert entries[..|entries|] == entries;
    decision := match last
                case None => Unrecorded
                case Some(Pass) => Passed
                case Some(ChangesRequired) => Refused;
  }

  // ---------------------------------------------------------------------- laws

  /** A line is a verdict exactly when it is the fixed words of one followed by a full commit. */
  lemma LineVerdictMeaning(line: Text, v: Verdict)
    ensures LineVerdict(line) == Some(v) <==> IsCommit(v.commit) && line == Opening(v.word) + v.commit
  {
    OpeningsDiffer(line);
    var opening := Opening(v.word);
    if line == opening + v.commit {
      assert line[|opening|..] == v.commit;
    }
    if opening <= line {
      assert line == opening + line[|opening|..];
    }
  }

  lemma OpeningsDiffer(line: Text)
    ensures !(PASS_AT <= line && CHANGES_AT <= line)
  {
    assert PASS_AT[15] == "Codex verdict: PASS at "[15] as int;
    assert CHANGES_AT[15] == "Codex verdict: CHANGES REQUIRED at "[15] as int;
  }

  ghost predicate LastAt(head: Text, verdicts: seq<Verdict>, i: int, w: Word) {
    && 0 <= i < |verdicts| && verdicts[i] == Verdict(w, head)
    && forall j :: i < j < |verdicts| ==> verdicts[j].commit != head
  }

  ghost predicate LastSays(head: Text, verdicts: seq<Verdict>, w: Word) {
    exists i :: LastAt(head, verdicts, i, w)
  }

  lemma {:induction false} LastNamingMeaning(head: Text, verdicts: seq<Verdict>, w: Word)
    ensures LastNaming(head, verdicts) == Some(w) <==> LastSays(head, verdicts, w)
    ensures LastNaming(head, verdicts) == None <==> forall j :: 0 <= j < |verdicts| ==> verdicts[j].commit != head
  {
    if verdicts != [] {
      var before, v := verdicts[..|verdicts| - 1], verdicts[|verdicts| - 1];
      LastNamingMeaning(head, before, w);
      if v.commit == head {
        assert LastAt(head, verdicts, |verdicts| - 1, v.word);
      } else {
        forall i | LastAt(head, before, i, w) ensures LastAt(head, verdicts, i, w) {}
        forall i | LastAt(head, verdicts, i, w) ensures LastAt(head, before, i, w) {}
      }
    }
  }

  /** The head passes exactly when the last verdict that names it, from anyone who can write, is a pass. */
  lemma PassedMeaning(head: Text, entries: seq<Comment>)
    ensures DecisionOf(head, entries) == Passed <==> LastSays(head, AllVerdicts(entries), Pass)
    ensures DecisionOf(head, entries) == Refused <==> LastSays(head, AllVerdicts(entries), ChangesRequired)
    ensures DecisionOf(head, entries) == Unrecorded
       <==> forall j :: 0 <= j < |AllVerdicts(entries)| ==> AllVerdicts(entries)[j].commit != head
  {
    LastNamingMeaning(head, AllVerdicts(entries), Pass);
    LastNamingMeaning(head, AllVerdicts(entries), ChangesRequired);
  }

  lemma {:induction false} TrimmedLine(t: Text)
    requires t != [] && !IsBlank(t[0]) && !IsBlank(t[|t| - 1])
    ensures Trim(t) == t
  {
    assert TrimStart(t) == t;
  }

  lemma VerdictLineIsPlain(v: Verdict)
    requires IsCommit(v.commit)
    ensures var line := Opening(v.word) + v.commit;
            && Trim(line) == line && (forall i :: 0 <= i < |line| ==> line[i] != LINE_FEED)
  {
    var opening, line := Opening(v.word), Opening(v.word) + v.commit;
    assert line[|line| - 1] == v.commit[39];
    assert line[0] == opening[0] == 'C' as int;
    TrimmedLine(line);
    forall i | 0 <= i < |line| ensures line[i] != LINE_FEED {
      if i >= |opening| {
        assert line[i] == v.commit[i - |opening|];
      } else {
        OpeningIsPlain(v.word, i);
      }
    }
  }

  lemma OpeningIsPlain(w: Word, i: nat)
    requires i < |Opening(w)|
    ensures Opening(w)[i] != LINE_FEED
  {
    if w == Pass {
      assert Opening(w)[i] == "Codex verdict: PASS at "[i] as int;
    } else {
      assert Opening(w)[i] == "Codex verdict: CHANGES REQUIRED at "[i] as int;
    }
  }

  lemma {:induction false} LastLine(body: Text, line: Text)
    requires forall i :: 0 <= i < |line| ==> line[i] != LINE_FEED
    ensures Broken(body + [LINE_FEED] + line) == (Broken(body + [LINE_FEED]).0, line)
  {
    var whole := body + [LINE_FEED] + line;
    if line == [] {
      assert whole == body + [LINE_FEED];
      assert (body + [LINE_FEED])[..|body|] == body;
    } else {
      var shorter := line[..|line| - 1];
      LastLine(body, shorter);
      assert whole[..|whole| - 1] == body + [LINE_FEED] + shorter;
      assert whole[|whole| - 1] == line[|line| - 1];
      assert shorter + [line[|line| - 1]] == line;
    }
  }

  /** A writer's comment that ends in a verdict line for the head settles the matter, whatever was written before. */
  lemma LastWordDecides(entries: seq<Comment>, author: Association, text: Text, v: Verdict)
    requires author != Outside && IsCommit(v.commit)
    ensures var body := text + [LINE_FEED] + (Opening(v.word) + v.commit);
            DecisionOf(v.commit, entries + [Comment(author, Some(body))]) == Concluded(Some(v.word))
  {
    var line := Opening(v.word) + v.commit;
    var body := text + [LINE_FEED] + line;
    var entry := Comment(author, Some(body));
    VerdictLineIsPlain(v);
    LineVerdictMeaning(line, v);
    LastLine(text, line);
    var lines := Lines(body);
    assert lines[|lines| - 1] == line;
    var counted := CountedVerdicts(entry);
    assert counted == VerdictsAmong(lines[..|lines| - 1]) + [v];
    assert LastNaming(v.commit, counted) == Some(v.word);
    assert (entries + [entry])[..|entries|] == entries;
    LastNamingAfter(v.commit, AllVerdicts(entries), counted);
  }

  // ------------------------------------------------------- the lines of a body

  ghost predicate EndsInReturn(t: Text) { t != [] && t[|t| - 1] == 0x0D }

  /** Lines with a line feed put back after each but the last, and a carriage return before it where one stood. */
  ghost function Rejoined(lines: seq<Text>, marks: seq<bool>): Text
    requires |lines| == |marks| + 1
  {
    if marks == [] then lines[0]
    else
      Rejoined(lines[..|lines| - 1], marks[..|marks| - 1])
      + (if marks[|marks| - 1] then [0x0D, 0x0A] else [0x0A]) + lines[|lines| - 1]
  }

  /** The lines are those of the body: they make it up again, none holds a line feed, and no carriage return before one
      is left in a line. */
  ghost predicate AreLinesOf(lines: seq<Text>, marks: seq<bool>, body: Text) {
    && |lines| == |marks| + 1 && Rejoined(lines, marks) == body
    && (forall i :: 0 <= i < |lines| ==> 0x0A !in lines[i])
    && forall i :: 0 <= i < |marks| && EndsInReturn(lines[i]) ==> marks[i]
  }

  function LineFeeds(body: Text): nat {
    if body == [] then 0 else LineFeeds(body[..|body| - 1]) + if body[|body| - 1] == 0x0A then 1 else 0
  }

  lemma RejoinedSnoc(lines: seq<Text>, marks: seq<bool>, line: Text, back: bool)
    requires |lines| == |marks| + 1
    ensures Rejoined(lines + [line], marks + [back])
         == Rejoined(lines, marks) + (if back then [CARRIAGE_RETURN, LINE_FEED] else [LINE_FEED]) + line
  {
    assert (lines + [line])[..|lines|] == lines && (marks + [back])[..|marks|] == marks;
  }

  lemma RejoinedLast(lines: seq<Text>, marks: seq<bool>, a: Text, b: Text)
    requires |lines| == |marks|
    ensures Rejoined(lines + [a + b], marks) == Rejoined(lines + [a], marks) + b
  {
    if marks != [] {
      var init := marks[..|marks| - 1];
      InitAndLast(marks);
      RejoinedSnoc(lines, init, a + b, marks[|marks| - 1]);
      RejoinedSnoc(lines, init, a, marks[|marks| - 1]);
      var ending := if marks[|marks| - 1] then [CARRIAGE_RETURN, LINE_FEED] else [LINE_FEED];
      Associative<int>(Rejoined(lines, init) + ending, a, b);
    }
  }

  lemma {:induction false} BrokenIsWhole(body: Text) returns (marks: seq<bool>)
    ensures AreLinesOf(Lines(body), marks, body) && |marks| == LineFeeds(body)
  {
    if body == [] {
      marks := [];
    } else {
      var init, u := body[..|body| - 1], body[|body| - 1];
      var before := BrokenIsWhole(init);
      var (lines, rest) := Broken(init);
      InitAndLast(body);
      if u == LINE_FEED {
        marks := before + [EndsInReturn(rest)];
        LineFeedEnds(lines, rest, before, init);
      } else {
        marks := before;
        RejoinedLast(lines, before, rest, [u]);
        assert Lines(body) == lines + [rest + [u]];
        assert Lines(init) == lines + [rest];
        LinesGrow(lines, rest, u, before);
      }
    }
  }

  lemma LinesGrow(lines: seq<Text>, rest: Text, u: CodeUnit, marks: seq<bool>)
    requires |lines| == |marks| && u != LINE_FEED
    requires AreLinesOf(lines + [rest], marks, Rejoined(lines + [rest], marks))
    ensures AreLinesOf(lines + [rest + [u]], marks, Rejoined(lines + [rest + [u]], marks))
  {
    var was, now := lines + [rest], lines + [rest + [u]];
    forall i | 0 <= i < |now| ensures LINE_FEED !in now[i] {
      if i < |lines| { assert now[i] == was[i]; } else { assert was[i] == rest; }
    }
    forall i | 0 <= i < |marks| && EndsInReturn(now[i]) ensures marks[i] { assert now[i] == was[i]; }
  }

  lemma LineFeedEnds(lines: seq<Text>, rest: Text, marks: seq<bool>, body: Text)
    requires |lines| == |marks| && AreLinesOf(lines + [rest], marks, body)
    ensures AreLinesOf(lines + [WithoutReturn(rest), []], marks + [EndsInReturn(rest)], body + [LINE_FEED])
  {
    var kept, back := WithoutReturn(rest), EndsInReturn(rest);
    var was, now := lines + [rest], lines + [kept, []];
    assert now == lines + [kept] + [[]];
    RejoinedSnoc(lines + [kept], marks, [], back);
    if back {
      assert rest == kept + [CARRIAGE_RETURN];
      RejoinedLast(lines, marks, kept, [CARRIAGE_RETURN]);
    }
    forall i | 0 <= i < |now| ensures LINE_FEED !in now[i] {
      if i < |lines| { assert now[i] == was[i]; } else { assert was[|lines|] == rest; }
    }
    forall i | 0 <= i < |marks + [back]| && EndsInReturn(now[i]) ensures (marks + [back])[i] {
      if i < |lines| { assert now[i] == was[i]; }
    }
  }

  /** Main result: `Lines` yields every line of a body and nothing else: one more than its line feeds, and they make up
      the body again. */
  lemma LinesExactly(body: Text)
    ensures |Lines(body)| == LineFeeds(body) + 1
    ensures exists marks :: AreLinesOf(Lines(body), marks, body)
  {
    var marks := BrokenIsWhole(body);
  }

  /** Trimming takes white space off both ends and stops at anything else. */
  lemma TrimMeaning(t: Text)
    ensures exists l: Text, r: Text :: t == l + Trim(t) + r && AllBlank(l) && AllBlank(r)
    ensures Trim(t) == [] || (!IsBlank(Trim(t)[0]) && !IsBlank(Trim(t)[|Trim(t)| - 1]))
  {
    var l := TrimStartMeaning(t);
    var r := TrimEndMeaning(TrimStart(t));
    Associative<int>(l, Trim(t), r);
    assert t == l + Trim(t) + r;
  }

  ghost predicate AllBlank(t: Text) { forall i :: 0 <= i < |t| ==> IsBlank(t[i]) }

  lemma {:induction false} TrimStartMeaning(t: Text) returns (l: Text)
    ensures t == l + TrimStart(t) && AllBlank(l) && (TrimStart(t) == [] || !IsBlank(TrimStart(t)[0]))
  {
    if t != [] && IsBlank(t[0]) {
      var rest := TrimStartMeaning(t[1..]);
      l := [t[0]] + rest;
    } else {
      l := [];
    }
  }

  lemma {:induction false} TrimEndMeaning(t: Text) returns (r: Text)
    ensures t == TrimEnd(t) + r && AllBlank(r)
    ensures TrimEnd(t) == [] || (TrimEnd(t)[0] == t[0] && !IsBlank(TrimEnd(t)[|TrimEnd(t)| - 1]))
  {
    if t != [] && IsBlank(t[|t| - 1]) {
      var rest := TrimEndMeaning(t[..|t| - 1]);
      r := rest + [t[|t| - 1]];
    } else {
      r := [];
    }
  }

  // ----------------------------------------------- a verdict anywhere in a comment

  /** What one line adds. */
  ghost function VerdictsOf(line: Text): seq<Verdict> {
    if LineVerdict(Trim(line)).Some? then [LineVerdict(Trim(line)).value] else []
  }

  lemma VerdictsSnoc(lines: seq<Text>, line: Text)
    ensures VerdictsAmong(lines + [line]) == VerdictsAmong(lines) + VerdictsOf(line)
  {
    assert (lines + [line])[..|lines|] == lines;
  }

  lemma {:induction false} VerdictsConcat(a: seq<Text>, b: seq<Text>)
    ensures VerdictsAmong(a + b) == VerdictsAmong(a) + VerdictsAmong(b)
  {
    if b == [] {
      assert a + b == a;
    } else {
      var init, last := b[..|b| - 1], b[|b| - 1];
      VerdictsConcat(a, init);
      VerdictsSnocBoth(a + init, VerdictsAmong(a), init, last);
      assert a + b == a + init + [last] && b == init + [last];
    }
  }

  lemma VerdictsSnocBoth(whole: seq<Text>, before: seq<Verdict>, init: seq<Text>, last: Text)
    requires VerdictsAmong(whole) == before + VerdictsAmong(init)
    ensures VerdictsAmong(whole + [last]) == before + VerdictsAmong(init + [last])
  {
    VerdictsSnoc(whole, last);
    VerdictsSnoc(init, last);
  }

  /** No line of these is a verdict naming the head. */
  ghost predicate NoneNames(lines: seq<Text>, head: Text) {
    forall i :: 0 <= i < |lines| ==>
      LineVerdict(Trim(lines[i])) == None || LineVerdict(Trim(lines[i])).value.commit != head
  }

  lemma {:induction false} NoneNamesVerdicts(lines: seq<Text>, head: Text)
    requires NoneNames(lines, head)
    ensures LastNaming(head, VerdictsAmong(lines)) == None
  {
    if lines != [] {
      var last := |lines| - 1;
      var init, found := lines[..last], LineVerdict(Trim(lines[last]));
      NoneNamesVerdicts(init, head);
      assert found == None || found.value.commit != head;
      var before, all := VerdictsAmong(init), VerdictsAmong(lines);
      if found.Some? { assert all[..|all| - 1] == before; } else { assert all == before; }
    }
  }

  /** Main result: a line of a writer's last comment that is a verdict for the head settles the matter, wherever it
      stands, when no later line names the head. */
  lemma VerdictLineDecides(entries: seq<Comment>, entry: Comment, head: Text, i: nat, w: Word)
    requires entry.author != Outside && entry.body.Some? && i < |Lines(entry.body.value)|
    requires LineVerdict(Trim(Lines(entry.body.value)[i])) == Some(Verdict(w, head))
    requires NoneNames(Lines(entry.body.value)[i + 1..], head)
    ensures DecisionOf(head, entries + [entry]) == Concluded(Some(w))
  {
    LastLineNaming(Lines(entry.body.value), head, i, w);
    assert (entries + [entry])[..|entries|] == entries;
    LastNamingAfter(head, AllVerdicts(entries), CountedVerdicts(entry));
  }

  lemma LastLineNaming(lines: seq<Text>, head: Text, i: nat, w: Word)
    requires i < |lines| && LineVerdict(Trim(lines[i])) == Some(Verdict(w, head)) && NoneNames(lines[i + 1..], head)
    ensures LastNaming(head, VerdictsAmong(lines)) == Some(w)
  {
    var upTo, after := lines[..i + 1], lines[i + 1..];
    assert lines == upTo + after;
    VerdictsConcat(upTo, after);
    NoneNamesVerdicts(after, head);
    LastNamingAfter(head, VerdictsAmong(upTo), VerdictsAmong(after));
    VerdictsUpTo(lines, i, Verdict(w, head));
  }

  lemma VerdictsUpTo(lines: seq<Text>, i: nat, v: Verdict)
    requires i < |lines| && LineVerdict(Trim(lines[i])) == Some(v)
    ensures LastNaming(v.commit, VerdictsAmong(lines[..i + 1])) == Some(v.word)
  {
    assert lines[..i + 1][..i] == lines[..i];
  }

  /** The lines of a body closed by a line feed. */
  ghost function Closed(body: Text): seq<Text> { Broken(body + [LINE_FEED]).0 }

  lemma {:induction false} LinesAppend(a: Text, b: Text)
    ensures Lines(a + [LINE_FEED] + b) == Closed(a) + Lines(b)
  {
    var whole := a + [LINE_FEED] + b;
    if b == [] {
      assert whole == a + [LINE_FEED];
      assert (a + [LINE_FEED])[..|a|] == a;
      assert Broken(a + [LINE_FEED]).1 == [];
    } else {
      var shorter := b[..|b| - 1];
      LinesAppend(a, shorter);
      assert whole[..|whole| - 1] == a + [LINE_FEED] + shorter && whole[|whole| - 1] == b[|b| - 1];
      BrokenFromLines(a + [LINE_FEED] + shorter, Closed(a), shorter);
    }
  }

  lemma BrokenFromLines(whole: Text, closed: seq<Text>, part: Text)
    requires Lines(whole) == closed + Lines(part)
    ensures Broken(whole) == (closed + Broken(part).0, Broken(part).1)
  {
    var l, r := Lines(whole), closed + Lines(part);
    assert l[|l| - 1] == r[|r| - 1] && l[..|l| - 1] == r[..|r| - 1];
    assert r[..|r| - 1] == closed + Broken(part).0;
  }

  /** A body with some text above a line, each ended by a line feed, and some below. */
  ghost function Around(above: Option<Text>, line: Text, below: Option<Text>): Text {
    (if above.Some? then above.value + [0x0A] else []) + line
    + (if below.Some? then [0x0A] + below.value else [])
  }

  lemma {:induction false} PlainLine(line: Text)
    requires LINE_FEED !in line
    ensures Broken(line) == ([], line)
  {
    if line != [] {
      InitAndLast(line);
      PlainLine(line[..|line| - 1]);
    }
  }

  lemma LinesAround(above: Option<Text>, line: Text, below: Option<Text>)
    requires LINE_FEED !in line && !EndsInReturn(line)
    ensures Lines(Around(above, line, below))
         == (if above.Some? then Closed(above.value) else []) + [line]
            + (if below.Some? then Lines(below.value) else [])
  {
    LinesBelow(line, below);
    var lower := line + if below.Some? then [LINE_FEED] + below.value else [];
    if above.Some? {
      assert Around(above, line, below) == above.value + [LINE_FEED] + lower;
      LinesAppend(above.value, lower);
    } else {
      assert Around(above, line, below) == lower;
    }
  }

  lemma LinesBelow(line: Text, below: Option<Text>)
    requires LINE_FEED !in line && !EndsInReturn(line)
    ensures Lines(line + if below.Some? then [LINE_FEED] + below.value else [])
         == [line] + if below.Some? then Lines(below.value) else []
  {
    PlainLine(line);
    if below.Some? {
      Associative<int>(line, [LINE_FEED], below.value);
      LinesAppend(line, below.value);
      PlainLineCloses(line);
    } else {
      assert line + [] == line;
    }
  }

  lemma PlainLineCloses(line: Text)
    requires LINE_FEED !in line && !EndsInReturn(line)
    ensures Closed(line) == [line]
  {
    PlainLine(line);
    assert (line + [LINE_FEED])[..|line|] == line;
  }

  /** So a verdict line decides as the first line of a comment, between others, as the last, or alone. */
  lemma VerdictAnywhereDecides(entries: seq<Comment>, author: Association, above: Option<Text>, v: Verdict,
                              below: Option<Text>)
    requires author != Outside && IsCommit(v.commit)
    requires below.Some? ==> NoneNames(Lines(below.value), v.commit)
    ensures var entry := Comment(author, Some(Around(above, Opening(v.word) + v.commit, below)));
            DecisionOf(v.commit, entries + [entry]) == if v.word == Pass then Passed else Refused
  {
    var line := Opening(v.word) + v.commit;
    VerdictLineIsPlain(v);
    LineVerdictMeaning(line, v);
    assert !EndsInReturn(line) by { assert line[|line| - 1] == v.commit[39]; }
    LinesAround(above, line, below);
    var lines := Lines(Around(above, line, below));
    var i := if above.Some? then |Closed(above.value)| else 0;
    assert lines[i] == line;
    assert lines[i + 1..] == if below.Some? then Lines(below.value) else [];
    VerdictLineDecides(entries, Comment(author, Some(Around(above, line, below))), v.commit, i, v.word);
  }

  /** The words that pass a commit. */
  lemma PassWords()
    ensures Opening(Pass) == Literal("Codex verdict: PASS at ")
  {}

  /** And the words that refuse it. */
  lemma ChangesWords()
    ensures Opening(ChangesRequired) == Literal("Codex verdict: CHANGES REQUIRED at ")
  {}

  /** A comment whose author cannot write, or whose verdicts all name other commits, changes nothing. */
  lemma OthersDecideNothing(head: Text, entries: seq<Comment>, entry: Comment)
    requires entry.author == Outside || entry.body.None?
          || forall i :: 0 <= i < |CountedVerdicts(entry)| ==> CountedVerdicts(entry)[i].commit != head
    ensures DecisionOf(head, entries + [entry]) == DecisionOf(head, entries)
  {
    assert (entries + [entry])[..|entries|] == entries;
    LastNamingAfter(head, AllVerdicts(entries), CountedVerdicts(entry));
    LastNamingMeaning(head, CountedVerdicts(entry), Pass);
  }
}
