/** Distinctive tokens and shingles of a token sequence. */
module Tokens {
  import opened Texts
  import opened Sorting
  import opened Sequences

  datatype TokenRules = TokenRules(
    stopTerms: set<Text>,
    minimumDistinctiveTokenLength: nat,
    shingleSize: nat,
    maximumShingles: nat,
    componentSeparator: Text)

  predicate Carries(token: Text, rules: TokenRules) {
    |token| >= rules.minimumDistinctiveTokenLength && token !in rules.stopTerms
  }

  function Kept(tokens: seq<Text>, rules: TokenRules): seq<Text> {
    if tokens == [] then []
    else
      Kept(tokens[..|tokens| - 1], rules)
      + if Carries(tokens[|tokens| - 1], rules) then [tokens[|tokens| - 1]] else []
  }

  function Distinctive(tokens: seq<Text>, rules: TokenRules): seq<Text> {
    Sort(Distinct(Kept(tokens, rules)), TextOrder())
  }

  method DistinctiveTokens(tokens: seq<Text>, rules: TokenRules) returns (r: seq<Text>)
    ensures r == Distinctive(tokens, rules)
  {
    var kept: seq<Text> := [];
    for i := 0 to |tokens|
      invariant kept == Distinct(Kept(tokens[..i], rules))
    {
      assert tokens[..i + 1][..i] == tokens[..i];
      DistinctSnoc(Kept(tokens[..i], rules), tokens[i]);
      assert Kept(tokens[..i], rules) + [] == Kept(tokens[..i], rules);
      if |tokens[i]| >= rules.minimumDistinctiveTokenLength && tokens[i] !in rules.stopTerms {
        if tokens[i] !in kept { kept := kept + [tokens[i]]; }
      }
    }
    assert tokens[..|tokens|] == tokens;
    r := Sort(kept, TextOrder());
  }

  lemma {:induction false} KeptMembers(tokens: seq<Text>, rules: TokenRules, token: Text)
    ensures token in Kept(tokens, rules) <==> token in tokens && Carries(token, rules)
  {
    if tokens != [] {
      KeptMembers(tokens[..|tokens| - 1], rules, token);
      assert tokens == tokens[..|tokens| - 1] + [tokens[|tokens| - 1]];
    }
  }

  /** Sorted, each once, and exactly the tokens long enough that are no stop term. */
  lemma DistinctiveLaws(tokens: seq<Text>, rules: TokenRules)
    ensures Sorted(Distinctive(tokens, rules), TextOrder()) && NoDuplicates(Distinctive(tokens, rules))
    ensures forall t :: t in Distinctive(tokens, rules) <==> t in tokens && Carries(t, rules)
  {
    var once := Distinct(Kept(tokens, rules));
    TextOrderIsTotal();
    SortSorted(once, TextOrder());
    DistinctMembers(Kept(tokens, rules));
    MultisetNoDuplicates(once, Distinctive(tokens, rules));
    MultisetMembers(once, Distinctive(tokens, rules));
    forall t ensures t in Distinctive(tokens, rules) <==> t in tokens && Carries(t, rules) {
      KeptMembers(tokens, rules, t);
    }
  }

  // ---------------------------------------------------------------- shingles

  function JoinTexts(parts: seq<Text>, separator: Text): Text {
    if parts == [] then []
    else if |parts| == 1 then parts[0]
    else parts[0] + separator + JoinTexts(parts[1..], separator)
  }

  function SizeOf(rules: TokenRules): nat { if rules.shingleSize <= 1 then 1 else rules.shingleSize }

  /** The first `n` windows of consecutive tokens, each joined. */
  function Windows(tokens: seq<Text>, rules: TokenRules, n: nat): (r: seq<Text>)
    requires n > 0 ==> n - 1 + SizeOf(rules) <= |tokens|
    ensures |r| == n
  {
    if n == 0 then []
    else Windows(tokens, rules, n - 1) + [JoinTexts(tokens[n - 1..n - 1 + SizeOf(rules)], rules.componentSeparator)]
  }

  function WindowCount(tokens: seq<Text>, rules: TokenRules): nat {
    if |tokens| < SizeOf(rules) then 0 else |tokens| - SizeOf(rules) + 1
  }

  function AtLeastOne(n: nat): nat { if n == 0 then 1 else n }

  /** The first distinct windows, up to the cap, sorted. The cap is tested after a window is added, so a cap of zero
      keeps one. */
  function ShinglesOf(tokens: seq<Text>, rules: TokenRules): seq<Text> {
    Sort(Take(Distinct(Windows(tokens, rules, WindowCount(tokens, rules))), AtLeastOne(rules.maximumShingles)),
         TextOrder())
  }

  lemma TakePrefix(all: seq<Text>, some: seq<Text>)
    requires some <= all
    ensures Take(all, |some|) == some
  {}

  lemma {:induction false} DistinctGrows(tokens: seq<Text>, rules: TokenRules, n: nat, m: nat)
    requires n <= m <= WindowCount(tokens, rules)
    ensures Distinct(Windows(tokens, rules, n)) <= Distinct(Windows(tokens, rules, m))
  {
    if n < m {
      DistinctGrows(tokens, rules, n, m - 1);
      var w := Windows(tokens, rules, m - 1);
      DistinctSnoc(w, JoinTexts(tokens[m - 1..m - 1 + SizeOf(rules)], rules.componentSeparator));
    }
  }

  method Shingles(tokens: seq<Text>, rules: TokenRules) returns (r: seq<Text>)
    ensures r == ShinglesOf(tokens, rules)
  {
    var size := if rules.shingleSize <= 1 then 1 else rules.shingleSize;
    if |tokens| < size { return []; }
    var out := DistinctWindows(tokens, rules, size);
    r := Sort(out, TextOrder());
  }

  lemma NextWindow(tokens: seq<Text>, rules: TokenRules, n: nat)
    requires n < WindowCount(tokens, rules)
    ensures var w := JoinTexts(tokens[n..n + SizeOf(rules)], rules.componentSeparator);
            var all := Distinct(Windows(tokens, rules, n));
            Distinct(Windows(tokens, rules, n + 1)) == if w in all then all else all + [w]
  {
    WindowsSnoc(tokens, rules, n);
    DistinctSnoc(Windows(tokens, rules, n), JoinTexts(tokens[n..n + SizeOf(rules)], rules.componentSeparator));
  }

  lemma WindowsSnoc(tokens: seq<Text>, rules: TokenRules, n: nat)
    requires n < WindowCount(tokens, rules)
    ensures Windows(tokens, rules, n + 1)
         == Windows(tokens, rules, n) + [JoinTexts(tokens[n..n + SizeOf(rules)], rules.componentSeparator)]
  {}

  /** Adds one window to those held, unless it is one of them. */
  method AddWindow(tokens: seq<Text>, rules: TokenRules, size: nat, index: nat, before: seq<Text>)
    returns (out: seq<Text>)
    requires size == SizeOf(rules) && index < WindowCount(tokens, rules)
    requires before == Distinct(Windows(tokens, rules, index))
    ensures out == Distinct(Windows(tokens, rules, index + 1)) && |before| <= |out| <= |before| + 1
  {
    var shingle := JoinTexts(tokens[index..index + size], rules.componentSeparator);
    NextWindow(tokens, rules, index);
    out := if shingle in before then before else before + [shingle];
  }

  /** Adds windows until the text or the cap ends. */
  method DistinctWindows(tokens: seq<Text>, rules: TokenRules, size: nat) returns (out: seq<Text>)
    requires size == SizeOf(rules) <= |tokens|
    ensures out == Take(Distinct(Windows(tokens, rules, WindowCount(tokens, rules))), AtLeastOne(rules.maximumShingles))
  {
    out := [];
    var index, full := 0, false;
    ghost var count := WindowCount(tokens, rules);
    while index + size <= |tokens| && !full
      invariant index <= count
      invariant out == Distinct(Windows(tokens, rules, index))
      invariant index == 0 ==> out == [] && !full
      invariant index > 0 && !full ==> |out| < rules.maximumShingles
      invariant full ==> |out| == AtLeastOne(rules.maximumShingles)
    {
      out := AddWindow(tokens, rules, size, index, out);
      index := index + 1;
      full := |out| >= rules.maximumShingles;
    }
    if full { FullIsCapped(tokens, rules, index); } else { AllAreKept(tokens, rules, index); }
  }

  lemma AllAreKept(tokens: seq<Text>, rules: TokenRules, n: nat)
    requires n == WindowCount(tokens, rules)
    requires |Distinct(Windows(tokens, rules, n))| <= AtLeastOne(rules.maximumShingles)
    ensures Take(Distinct(Windows(tokens, rules, n)), AtLeastOne(rules.maximumShingles))
         == Distinct(Windows(tokens, rules, n))
  {}

  /** Once the cap is reached, what is held is what the cap keeps of all the windows. */
  lemma FullIsCapped(tokens: seq<Text>, rules: TokenRules, n: nat)
    requires n <= WindowCount(tokens, rules)
    requires |Distinct(Windows(tokens, rules, n))| == AtLeastOne(rules.maximumShingles)
    ensures Take(Distinct(Windows(tokens, rules, WindowCount(tokens, rules))), AtLeastOne(rules.maximumShingles))
         == Distinct(Windows(tokens, rules, n))
  {
    DistinctGrows(tokens, rules, n, WindowCount(tokens, rules));
    TakePrefix(Distinct(Windows(tokens, rules, WindowCount(tokens, rules))), Distinct(Windows(tokens, rules, n)));
  }

  /** Sorted and each once, whatever the tokens; none when the text is shorter than one shingle. */
  lemma ShinglesLaws(tokens: seq<Text>, rules: TokenRules)
    ensures NoDuplicates(ShinglesOf(tokens, rules)) && Sorted(ShinglesOf(tokens, rules), TextOrder())
    ensures |ShinglesOf(tokens, rules)| <= AtLeastOne(rules.maximumShingles)
    ensures ShinglesOf(tokens, rules) == [] <==> |tokens| < SizeOf(rules)
  {
    var windows := Windows(tokens, rules, WindowCount(tokens, rules));
    DistinctMembers(windows);
    var all, cap := Distinct(windows), AtLeastOne(rules.maximumShingles);
    var kept := Take(all, cap);
    SortedOnce(kept);
    if windows != [] { assert windows[0] in all; }
    if all != [] { assert all[0] in windows; }
  }

  lemma SortedOnce(kept: seq<Text>)
    requires NoDuplicates(kept)
    ensures NoDuplicates(Sort(kept, TextOrder())) && Sorted(Sort(kept, TextOrder()), TextOrder())
  {
    TextOrderIsTotal();
    SortSorted(kept, TextOrder());
    MultisetNoDuplicates(kept, Sort(kept, TextOrder()));
  }

  // ------------------------------------------------------- what the shingles are

  /** `w` is the consecutive tokens from position `k` on, as many as a shingle has and at least one, joined. */
  ghost predicate IsWindow(tokens: seq<Text>, rules: TokenRules, k: nat, w: Text) {
    var n := if rules.shingleSize == 0 then 1 else rules.shingleSize;
    k + n <= |tokens| && w == JoinTexts(tokens[k..k + n], rules.componentSeparator)
  }

  ghost predicate IsOneOf(tokens: seq<Text>, rules: TokenRules, m: nat, w: Text) {
    exists k :: 0 <= k < m && IsWindow(tokens, rules, k, w)
  }

  lemma {:induction false} WindowsMembers(tokens: seq<Text>, rules: TokenRules, n: nat, w: Text)
    requires n <= WindowCount(tokens, rules)
    ensures w in Windows(tokens, rules, n) <==> IsOneOf(tokens, rules, n, w)
  {
    if n > 0 {
      WindowsMembers(tokens, rules, n - 1, w);
      WindowsSnoc(tokens, rules, n - 1);
      var last := JoinTexts(tokens[n - 1..n - 1 + SizeOf(rules)], rules.componentSeparator);
      assert IsWindow(tokens, rules, n - 1, last);
      if IsOneOf(tokens, rules, n, w) {
        var k :| 0 <= k < n && IsWindow(tokens, rules, k, w);
        assert k == n - 1 || IsOneOf(tokens, rules, n - 1, w);
      }
    }
  }

  lemma {:induction false} CapReached(tokens: seq<Text>, rules: TokenRules, n: nat) returns (m: nat)
    requires n <= WindowCount(tokens, rules)
    requires |Distinct(Windows(tokens, rules, n))| >= AtLeastOne(rules.maximumShingles)
    ensures m <= n && |Distinct(Windows(tokens, rules, m))| == AtLeastOne(rules.maximumShingles)
  {
    if |Distinct(Windows(tokens, rules, n))| == AtLeastOne(rules.maximumShingles) {
      m := n;
    } else {
      NextWindow(tokens, rules, n - 1);
      m := CapReached(tokens, rules, n - 1);
    }
  }

  /** Every window among the first `m` is kept, where `m` is how many it takes to reach the cap, or all. */
  lemma KeptWindows(tokens: seq<Text>, rules: TokenRules) returns (m: nat)
    ensures m <= WindowCount(tokens, rules)
    ensures Take(Distinct(Windows(tokens, rules, WindowCount(tokens, rules))), AtLeastOne(rules.maximumShingles))
         == Distinct(Windows(tokens, rules, m))
    ensures m < WindowCount(tokens, rules) ==>
              |Distinct(Windows(tokens, rules, m))| == AtLeastOne(rules.maximumShingles)
  {
    var count := WindowCount(tokens, rules);
    if |Distinct(Windows(tokens, rules, count))| <= AtLeastOne(rules.maximumShingles) {
      m := count;
      AllAreKept(tokens, rules, count);
    } else {
      m := CapReached(tokens, rules, count);
      FullIsCapped(tokens, rules, m);
    }
  }

  /** The shingles are the windows among the first `m`: all there are, unless those already make as many different ones
      as the cap allows. */
  lemma ShinglesExactly(tokens: seq<Text>, rules: TokenRules) returns (m: nat)
    ensures forall w :: w in ShinglesOf(tokens, rules) <==> IsOneOf(tokens, rules, m, w)
    ensures |ShinglesOf(tokens, rules)| < rules.maximumShingles ==>
              forall k, w :: 0 <= k && IsWindow(tokens, rules, k, w) ==> k < m
    ensures |ShinglesOf(tokens, rules)| <= rules.maximumShingles || |ShinglesOf(tokens, rules)| == 1
    ensures m == 0 <==> forall k, w :: 0 <= k ==> !IsWindow(tokens, rules, k, w)
  {
    m := KeptWindows(tokens, rules);
    var windows := Windows(tokens, rules, m);
    DistinctMembers(windows);
    MultisetMembers(Distinct(windows), ShinglesOf(tokens, rules));
    forall w ensures w in ShinglesOf(tokens, rules) <==> IsOneOf(tokens, rules, m, w) {
      WindowsMembers(tokens, rules, m, w);
    }
    if m == 0 {
      assert Distinct(windows) == [];
    } else {
      assert IsWindow(tokens, rules, 0, JoinTexts(tokens[0..SizeOf(rules)], rules.componentSeparator));
    }
  }

  /** Parts are joined with the separator between them. */
  lemma {:induction false} JoinedPartByPart(a: seq<Text>, b: seq<Text>, separator: Text)
    requires a != [] && b != []
    ensures JoinTexts(a + b, separator) == JoinTexts(a, separator) + separator + JoinTexts(b, separator)
    ensures forall part :: JoinTexts([part], separator) == part
  {
    if |a| == 1 {
      assert (a + b)[1..] == b;
    } else {
      JoinedPartByPart(a[1..], b, separator);
      assert (a + b)[1..] == a[1..] + b;
    }
  }
}
