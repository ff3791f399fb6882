/**
 * Reading a conversation page by page while its comments change: a comment may be added, edited or deleted between
 * two pages, and a deletion moves the later comments up by one.
 */
module Paging {
  import opened Texts
  import opened Verdicts

  const PAGE_SIZE := 100

  /** One page of a conversation, oldest first. */
  function PageOf(comments: seq<Comment>, page: nat): (r: seq<Comment>)
    requires page >= 1
    ensures |r| <= PAGE_SIZE
  {
    var from := PAGE_SIZE * (page - 1);
    if from >= |comments| then []
    else if from + PAGE_SIZE >= |comments| then comments[from..]
    else comments[from..from + PAGE_SIZE]
  }

  /** The pages one after the other, each as it is at its own moment. */
  ghost function PagesAt(written: nat -> seq<Comment>, moments: seq<nat>): seq<Comment> {
    if moments == [] then []
    else PagesAt(written, moments[..|moments| - 1]) + PageOf(written(moments[|moments| - 1]), |moments|)
  }

  lemma PagesSnoc(written: nat -> seq<Comment>, moments: seq<nat>, moment: nat)
    ensures PagesAt(written, moments + [moment])
         == PagesAt(written, moments) + PageOf(written(moment), |moments| + 1)
  {
    assert (moments + [moment])[..|moments|] == moments;
  }

  ghost predicate AllFull(written: nat -> seq<Comment>, moments: seq<nat>, n: nat)
    requires n <= |moments|
  {
    forall i :: 0 <= i < n ==> |PageOf(written(moments[i]), i + 1)| == PAGE_SIZE
  }

  /** Read to the end: every page is full but the last. */
  ghost predicate Complete(written: nat -> seq<Comment>, moments: seq<nat>) {
    && moments != [] && AllFull(written, moments, |moments| - 1)
    && |PageOf(written(moments[|moments| - 1]), |moments|)| < PAGE_SIZE
  }

  /** Every page is still the same page of the conversation when the last one is read. */
  ghost predicate Standing(written: nat -> seq<Comment>, moments: seq<nat>) {
    forall i :: 0 <= i < |moments| ==>
      PageOf(written(moments[i]), i + 1) == PageOf(written(moments[|moments| - 1]), i + 1)
  }

  ghost predicate Growing(written: nat -> seq<Comment>) { forall i, j :: 0 <= i <= j ==> written(i) <= written(j) }

  ghost predicate Ascending(moments: seq<nat>) { forall i, j :: 0 <= i <= j < |moments| ==> moments[i] <= moments[j] }

  /** After full pages, a full page is one more of them, and any other ends the conversation. */
  lemma OneMoreRead(written: nat -> seq<Comment>, moments: seq<nat>, moment: nat)
    requires AllFull(written, moments, |moments|)
    ensures if |PageOf(written(moment), |moments| + 1)| == PAGE_SIZE
            then AllFull(written, moments + [moment], |moments| + 1)
            else Complete(written, moments + [moment])
  {
    var more := moments + [moment];
    forall i | 0 <= i < |moments| ensures |PageOf(written(more[i]), i + 1)| == PAGE_SIZE {
      assert more[i] == moments[i];
    }
  }

  lemma FullPage(comments: seq<Comment>, page: nat)
    requires page >= 1 && |PageOf(comments, page)| == PAGE_SIZE
    ensures |comments| >= PAGE_SIZE * page
    ensures comments[..PAGE_SIZE * page] == comments[..PAGE_SIZE * (page - 1)] + PageOf(comments, page)
  {}

  /** Full pages that all stand are the beginning of the conversation. */
  lemma {:induction false} PagesAreTheBeginning(written: nat -> seq<Comment>, moments: seq<nat>, late: seq<Comment>)
    requires AllFull(written, moments, |moments|)
    requires forall i :: 0 <= i < |moments| ==> PageOf(written(moments[i]), i + 1) == PageOf(late, i + 1)
    ensures |late| >= PAGE_SIZE * |moments| && PagesAt(written, moments) == late[..PAGE_SIZE * |moments|]
  {
    if moments != [] {
      var last := |moments| - 1;
      PagesAreTheBeginning(written, moments[..last], late);
      assert |PageOf(written(moments[last]), last + 1)| == PAGE_SIZE;
      FullPage(late, |moments|);
    }
  }

  lemma {:induction false} PageWithin(written: nat -> seq<Comment>, moments: seq<nat>, i: nat)
    requires i < |moments| && AllFull(written, moments, |moments|)
    ensures |PagesAt(written, moments)| == PAGE_SIZE * |moments|
    ensures PagesAt(written, moments)[PAGE_SIZE * i..PAGE_SIZE * (i + 1)] == PageOf(written(moments[i]), i + 1)
  {
    var init := moments[..|moments| - 1];
    if i < |init| {
      PageWithin(written, init, i);
      var before, page := PagesAt(written, init), PageOf(written(moments[|moments| - 1]), |moments|);
      assert (before + page)[PAGE_SIZE * i..PAGE_SIZE * (i + 1)] == before[PAGE_SIZE * i..PAGE_SIZE * (i + 1)];
    } else if init != [] {
      PageWithin(written, init, 0);
    }
  }

  /** What is read is the conversation only if each of its pages is, and then they stand. */
  lemma PagesReadStand(written: nat -> seq<Comment>, moments: seq<nat>)
    requires Complete(written, moments) && PagesAt(written, moments) == written(moments[|moments| - 1])
    ensures Standing(written, moments)
  {
    var init, late := moments[..|moments| - 1], written(moments[|moments| - 1]);
    forall i | 0 <= i < |init| ensures PageOf(written(moments[i]), i + 1) == PageOf(late, i + 1) {
      PageOfPages(written, init, PageOf(late, |moments|), i);
    }
  }

  lemma PageOfPages(written: nat -> seq<Comment>, moments: seq<nat>, after: seq<Comment>, i: nat)
    requires i < |moments| && AllFull(written, moments, |moments|)
    ensures PageOf(PagesAt(written, moments) + after, i + 1) == PageOf(written(moments[i]), i + 1)
  {
    PageWithin(written, moments, i);
    PageOfBeginning(PagesAt(written, moments), after, i + 1);
  }

  lemma PageOfBeginning(before: seq<Comment>, after: seq<Comment>, page: nat)
    requires page >= 1 && |before| >= PAGE_SIZE * page
    ensures PageOf(before + after, page) == before[PAGE_SIZE * (page - 1)..PAGE_SIZE * page]
  {
    var from, to := PAGE_SIZE * (page - 1), PAGE_SIZE * page;
    assert (before + after)[from..to] == before[from..to];
  }

  /** Main result: what was read is the conversation as it was when the last page was read exactly when every page read
      before still is the same page of it. */
  lemma PagingIsExact(written: nat -> seq<Comment>, moments: seq<nat>)
    requires Complete(written, moments)
    ensures PagesAt(written, moments) == written(moments[|moments| - 1]) <==> Standing(written, moments)
    ensures Standing(written, moments) ==> |written(moments[|moments| - 1])| < PAGE_SIZE * |moments|
  {
    var init, late := moments[..|moments| - 1], written(moments[|moments| - 1]);
    if Standing(written, moments) {
      PagesAreTheBeginning(written, init, late);
      assert late == late[..PAGE_SIZE * |init|] + PageOf(late, |moments|);
    }
    if PagesAt(written, moments) == late { PagesReadStand(written, moments); }
  }

  lemma StandingIsLong(written: nat -> seq<Comment>, moments: seq<nat>)
    requires moments != [] && AllFull(written, moments, |moments|) && Standing(written, moments)
    ensures |written(moments[|moments| - 1])| >= PAGE_SIZE * |moments|
  {
    PagesAreTheBeginning(written, moments, written(moments[|moments| - 1]));
  }

  lemma FullPageStands(early: seq<Comment>, late: seq<Comment>, page: nat)
    requires page >= 1 && early <= late && |PageOf(early, page)| == PAGE_SIZE
    ensures PageOf(late, page) == PageOf(early, page)
  {}

  /** While comments are only added, full pages stand, so paging is exact. */
  lemma GrowingStands(written: nat -> seq<Comment>, moments: seq<nat>)
    requires Growing(written) && Ascending(moments)
    requires moments != [] ==> AllFull(written, moments, |moments| - 1)
    ensures Standing(written, moments)
  {
    forall i | 0 <= i < |moments|
      ensures PageOf(written(moments[i]), i + 1) == PageOf(written(moments[|moments| - 1]), i + 1)
    {
      if i < |moments| - 1 {
        FullPageStands(written(moments[i]), written(moments[|moments| - 1]), i + 1);
      }
    }
  }

  // --------------------------------------------------- a comment skipped, by example

  function Says(author: Association, v: Verdict): Comment {
    Comment(author, Some([] + [LINE_FEED] + (Opening(v.word) + v.commit)))
  }

  function Remarks(n: nat): seq<Comment> { seq(n, i => Comment(Outside, None)) }

  lemma {:induction false} RemarksDecideNothing(head: Text, entries: seq<Comment>, n: nat)
    ensures DecisionOf(head, entries + Remarks(n)) == DecisionOf(head, entries)
  {
    if n == 0 {
      assert entries + Remarks(0) == entries;
    } else {
      RemarksDecideNothing(head, entries, n - 1);
      OthersDecideNothing(head, entries + Remarks(n - 1), Comment(Outside, None));
      assert entries + Remarks(n) == entries + Remarks(n - 1) + [Comment(Outside, None)];
    }
  }

  /** A pass, remarks, and last of all the changes required. */
  function Talk(head: Text, remarks: nat): seq<Comment> {
    [Says(Owner, Verdict(Pass, head))] + Remarks(remarks) + [Says(Owner, Verdict(ChangesRequired, head))]
  }

  lemma TalkIsRefused(head: Text, remarks: nat)
    requires IsCommit(head)
    ensures DecisionOf(head, Talk(head, remarks)) == Refused
  {
    LastWordDecides([Says(Owner, Verdict(Pass, head))] + Remarks(remarks), Owner, [], Verdict(ChangesRequired, head));
  }

  lemma BeginningIsPassed(head: Text, remarks: nat)
    requires IsCommit(head)
    ensures DecisionOf(head, [Says(Owner, Verdict(Pass, head))] + Remarks(remarks)) == Passed
  {
    LastWordDecides([], Owner, [], Verdict(Pass, head));
    assert [] + [Says(Owner, Verdict(Pass, head))] == [Says(Owner, Verdict(Pass, head))];
    RemarksDecideNothing(head, [Says(Owner, Verdict(Pass, head))], remarks);
  }

  lemma TalkPages(head: Text)
    ensures |Talk(head, 99)| == 101 && |Talk(head, 98)| == 100
    ensures PageOf(Talk(head, 99), 1) == [Says(Owner, Verdict(Pass, head))] + Remarks(99)
    ensures PageOf(Talk(head, 98), 2) == []
  {
    assert Talk(head, 99)[0..100] == [Says(Owner, Verdict(Pass, head))] + Remarks(99);
  }

  /** One hundred and one comments, of which a remark is deleted after the first page is read. */
  function Deleting(head: Text): nat -> seq<Comment> { (moment: nat) => Talk(head, if moment == 0 then 99 else 98) }

  /** The input: the last comment moves to a page already read and is never seen, so a head whose last verdict is that
      changes are required, at every moment, is read as passed. */
  lemma DeletionSkipsAComment(head: Text)
    requires IsCommit(head)
    ensures var written := Deleting(head);
            && Complete(written, [0, 1]) && !Standing(written, [0, 1])
            && DecisionOf(head, PagesAt(written, [0, 1])) == Passed
            && forall moment :: DecisionOf(head, written(moment)) == Refused
  {
    var written, moments: seq<nat> := Deleting(head), [0, 1];
    var beginning := [Says(Owner, Verdict(Pass, head))] + Remarks(99);
    TalkPages(head);
    assert written(0) == Talk(head, 99) && written(1) == Talk(head, 98);
    assert moments[..1] == [0] && moments[..1][..0] == [];
    assert PagesAt(written, moments) == beginning;
    BeginningIsPassed(head, 99);
    forall moment: nat ensures DecisionOf(head, written(moment)) == Refused {
      TalkIsRefused(head, if moment == 0 then 99 else 98);
    }
    PagingIsExact(written, moments);
  }
}
