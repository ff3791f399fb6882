/** The recorder of the Codex verdict, against a server that may fail, refuse, or lose its answer. */
module CodexVerdict {
  import opened Texts
  import opened Verdicts
  import opened Paging

  /** What comes of one attempt: an answer, perhaps with an unreadable body, a transient failure after which a
      write may or may not have been applied, or a refusal. */
  datatype Outcome = Answered(readable: bool) | Transient(applied: bool) | Denied

  datatype Request = ReadHead | ReadPage(page: nat) | WriteStatus(state: State)

  const ATTEMPTS := 3
  const PAGES := 50

  /** Why a conversation was not read: a call failed or a page was no list of comments, or no page was the last one. */
  datatype Unread = PageUnread | TooManyComments

  datatype Failed = NoHead | CommentsUnread(why: Unread) | StatusUnwritten

  predicate Applies(outcome: Outcome) { outcome.Answered? || (outcome.Transient? && outcome.applied) }

  class Server {
    /** The outcome of every attempt, in the order the attempts are made. */
    const network: nat -> Outcome
    /** The comments of the pull request when each attempt is made. */
    const written: nat -> seq<Comment>
    const head: Text

    var sent: nat
    var status: Option<State>
    /** Every status write applied, oldest first. */
    ghost var applied: seq<State>
    /** Every request attempted, oldest first. */
    ghost var asked: seq<Request>

    /** Every attempt is recorded at its own index. */
    ghost predicate Valid()
      reads this
    {
      |asked| == sent
    }

    constructor (network: nat -> Outcome, written: nat -> seq<Comment>, head: Text)
      ensures this.network == network && this.written == written && this.head == head
      ensures Valid() && sent == 0 && status == None && applied == [] && asked == []
    {
      this.network, this.written, this.head := network, written, head;
      sent, status, applied, asked := 0, None, [], [];
    }

    method Attempt(request: Request) returns (outcome: Outcome)
      requires Valid()
      modifies this
      ensures Valid()
      ensures outcome == network(old(sent)) && sent == old(sent) + 1 && asked == old(asked) + [request]
      ensures applied == old(applied) + if request.WriteStatus? && Applies(outcome) then [request.state] else []
      ensures status == if request.WriteStatus? && Applies(outcome) then Some(request.state) else old(status)
    {
      outcome := network(sent);
      if request.WriteStatus? && Applies(outcome) {
        status := Some(request.state);
        applied := applied + [request.state];
      }
      sent := sent + 1;
      asked := asked + [request];
    }
  }

  // ------------------------------------------------------------- one GitHub call

  /** The attempts from `from` up to `to` make up one call. */
  ghost predicate CallMade(s: Server, from: nat, to: nat)
  {
    && from < to <= from + 3
    && (forall k :: from <= k < to - 1 ==> s.network(k).Transient?)
    && (s.network(to - 1).Transient? ==> to == from + 3)
  }

  /** The server took one of the attempts: it answered, or applied the write and lost its answer. */
  ghost predicate SomeApplied(s: Server, from: nat, to: nat) {
    exists k :: from <= k < to && (s.network(k).Answered? || (s.network(k).Transient? && s.network(k).applied))
  }

  /** `after` adds to `before` only writes of `state`, and at least one exactly when an attempt was applied. */
  ghost predicate WroteOnly(before: seq<State>, after: seq<State>, state: State, some: bool) {
    && before <= after
    && (forall i :: |before| <= i < |after| ==> after[i] == state)
    && (|before| < |after| <==> some)
  }

  /** The status is the last write applied, or what it was. */
  ghost predicate StatusFollows(was: Option<State>, before: seq<State>, s: Server)
    reads s
  {
    && before <= s.applied
    && s.status == if |before| < |s.applied| then Some(s.applied[|s.applied| - 1]) else was
  }

  ghost predicate AskedOnly(before: seq<Request>, after: seq<Request>, request: Request) {
    before < after && forall i :: |before| <= i < |after| ==> after[i] == request
  }

  method Call(s: Server, request: Request) returns (ok: bool, readable: bool)
    requires s.Valid()
    modifies s
    ensures s.Valid()
    ensures CallMade(s, old(s.sent), s.sent) && AskedOnly(old(s.asked), s.asked, request)
    ensures ok == s.network(s.sent - 1).Answered?
    ensures readable == (ok && s.network(s.sent - 1).readable)
    ensures !request.WriteStatus? ==> s.applied == old(s.applied) && s.status == old(s.status)
    ensures request.WriteStatus? ==>
              && WroteOnly(old(s.applied), s.applied, request.state, SomeApplied(s, old(s.sent), s.sent))
              && StatusFollows(old(s.status), old(s.applied), s)
  {
    ok, readable := false, false;
    var attempt := 1;
    var stop := false;
    while attempt <= ATTEMPTS && !stop
      invariant s.Valid()
      invariant 1 <= attempt <= ATTEMPTS + 1 && s.sent == old(s.sent) + attempt - 1
      invariant forall k :: old(s.sent) <= k < s.sent - 1 ==> s.network(k).Transient?
      invariant attempt > 1 ==> ok == s.network(s.sent - 1).Answered? && stop == !s.network(s.sent - 1).Transient?
      invariant attempt == 1 ==> !ok && !stop && s.asked == old(s.asked)
      invariant attempt > 1 ==> AskedOnly(old(s.asked), s.asked, request)
      invariant readable == (ok && s.network(s.sent - 1).readable)
      invariant !request.WriteStatus? ==> s.applied == old(s.applied) && s.status == old(s.status)
      invariant request.WriteStatus? ==>
                  && WroteOnly(old(s.applied), s.applied, request.state, SomeApplied(s, old(s.sent), s.sent))
                  && StatusFollows(old(s.status), old(s.applied), s)
    {
      ghost var sent := s.sent;
      assert SomeApplied(s, old(s.sent), sent + 1) <==> SomeApplied(s, old(s.sent), sent) || Applies(s.network(sent));
      var outcome := s.Attempt(request);
      ok := outcome.Answered?;
      readable := ok && outcome.readable;
      stop := !outcome.Transient?;
      attempt := attempt + 1;
    }
  }

  // ---------------------------------------------------------------- conversation

  /** Every attempt of a stretch was answered with a readable body. */
  ghost predicate AllAnswered(s: Server, from: nat, to: nat) {
    forall k :: from <= k < to ==> s.network(k) == Answered(true)
  }

  ghost predicate AskedPages(before: seq<Request>, after: seq<Request>) {
    before < after && forall i :: |before| <= i < |after| ==> after[i].ReadPage?
  }

  /** Attempts from `from` on, in order, the `i`-th of them for page `i + 1`. */
  ghost predicate PagesAsked(asked: seq<Request>, moments: seq<nat>, from: nat) {
    && Ascending(moments)
    && forall i :: 0 <= i < |moments| ==> from <= moments[i] < |asked| && asked[moments[i]] == ReadPage(i + 1)
  }

  /** The attempts that read the pages of a conversation, as far as it was read: all full but perhaps the last. */
  ghost predicate ReadPages(s: Server, moments: seq<nat>, from: nat)
    reads s
  {
    && PagesAsked(s.asked, moments, from)
    && (moments != [] ==> AllFull(s.written, moments, |moments| - 1))
  }

  /** The last page is read last, and is not full. */
  ghost predicate ReadAll(s: Server, moments: seq<nat>, from: nat, at: nat)
    reads s
  {
    ReadPages(s, moments, from) && Complete(s.written, moments) && moments[|moments| - 1] == at
  }

  /** One more page asked for keeps those read. */
  lemma OneMorePage(before: seq<Request>, after: seq<Request>, moments: seq<nat>, from: nat)
    requires PagesAsked(before, moments, from) && from <= |before|
    requires AskedOnly(before, after, ReadPage(|moments| + 1))
    ensures PagesAsked(after, moments, from) && PagesAsked(after, moments + [|after| - 1], from)
  {}

  /** One page, if its call is answered with a list of comments. */
  method OnePage(s: Server, page: nat, ghost moments: seq<nat>, ghost from: nat)
    returns (batch: Option<seq<Comment>>)
    requires s.Valid() && page == |moments| + 1 && from <= s.sent && PagesAsked(s.asked, moments, from)
    modifies s
    ensures s.Valid() && s.applied == old(s.applied) && s.status == old(s.status)
    ensures old(s.sent) < s.sent && AskedOnly(old(s.asked), s.asked, ReadPage(page))
    ensures PagesAsked(s.asked, moments, from) && PagesAsked(s.asked, moments + [s.sent - 1], from)
    ensures if batch.Some? then batch.value == PageOf(s.written(s.sent - 1), page)
            else s.network(s.sent - 1) != Answered(true)
  {
    var ok, readable := Call(s, ReadPage(page));
    OneMorePage(old(s.asked), s.asked, moments, from);
    batch := if readable then Some(PageOf(s.written(s.sent - 1), page)) else None;
  }

  /** What is read after some full pages, the last of them by the last attempt. */
  ghost predicate Reading(s: Server, moments: seq<nat>, entries: seq<Comment>, from: nat)
    reads s
  {
    && PagesAsked(s.asked, moments, from) && AllFull(s.written, moments, |moments|)
    && (moments != [] ==> moments[|moments| - 1] == s.sent - 1)
    && entries == PagesAt(s.written, moments)
  }

  /** How reading ended: at a page that could not be read, at one that was not full, or with the last page allowed. */
  ghost predicate Ended(s: Server, read: Result<seq<Comment>, Unread>, moments: seq<nat>, from: nat)
    reads s
  {
    match read
    case Ok(entries) =>
      && 0 < s.sent && ReadAll(s, moments, from, s.sent - 1)
      && |moments| <= PAGES && entries == PagesAt(s.written, moments)
    case Err(PageUnread) => ReadPages(s, moments, from) && !AllAnswered(s, from, s.sent)
    case Err(TooManyComments) => |moments| == PAGES && Reading(s, moments, PagesAt(s.written, moments), from)
  }

  lemma ReadOneMore(s: Server, moments: seq<nat>, more: seq<nat>, entries: seq<Comment>, batch: seq<Comment>, from: nat)
    requires s.Valid() && 0 < s.sent && |moments| < PAGES && more == moments + [s.sent - 1]
    requires AllFull(s.written, moments, |moments|) && entries == PagesAt(s.written, moments)
    requires PagesAsked(s.asked, more, from) && batch == PageOf(s.written(s.sent - 1), |moments| + 1)
    ensures if |batch| < PAGE_SIZE then Ended(s, Ok(entries + batch), more, from)
            else Reading(s, more, entries + batch, from)
  {
    PagesSnoc(s.written, moments, s.sent - 1);
    OneMoreRead(s.written, moments, s.sent - 1);
    if |batch| < PAGE_SIZE { CompleteEnds(s, more, from); } else { FullGoesOn(s, more, from); }
  }

  lemma CompleteEnds(s: Server, more: seq<nat>, from: nat)
    requires 0 < s.sent && Complete(s.written, more) && more[|more| - 1] == s.sent - 1 && |more| <= PAGES
    requires PagesAsked(s.asked, more, from)
    ensures Ended(s, Ok(PagesAt(s.written, more)), more, from)
  {}

  lemma FullGoesOn(s: Server, more: seq<nat>, from: nat)
    requires more != [] && AllFull(s.written, more, |more|) && more[|more| - 1] == s.sent - 1
    requires PagesAsked(s.asked, more, from)
    ensures Reading(s, more, PagesAt(s.written, more), from)
  {}

  lemma ReadNoMore(s: Server, moments: seq<nat>, from: nat)
    requires s.Valid() && from < s.sent && AllFull(s.written, moments, |moments|) && PagesAsked(s.asked, moments, from)
    requires s.network(s.sent - 1) != Answered(true)
    ensures Ended(s, Err(PageUnread), moments, from)
  {}

  /** One turn of the loop over the pages. */
  method TakePage(s: Server, page: nat, entries: seq<Comment>, ghost moments: seq<nat>, ghost from: nat)
    returns (ended: Option<Result<seq<Comment>, Unread>>, more: seq<Comment>, ghost later: seq<nat>)
    requires s.Valid() && page == |moments| + 1 <= PAGES && from <= s.sent && Reading(s, moments, entries, from)
    modifies s
    ensures s.Valid() && s.applied == old(s.applied) && s.status == old(s.status)
    ensures old(s.sent) < s.sent && AskedOnly(old(s.asked), s.asked, ReadPage(page))
    ensures if ended.Some? then ended.value != Err(TooManyComments) && Ended(s, ended.value, later, from)
            else |later| == page && Reading(s, later, more, from)
  {
    var batch := OnePage(s, page, moments, from);
    if batch.None? {
      ReadNoMore(s, moments, from);
      ended, more, later := Some(Err(PageUnread)), entries, moments;
    } else {
      ReadOneMore(s, moments, moments + [s.sent - 1], entries, batch.value, from);
      more, later := entries + batch.value, moments + [s.sent - 1];
      ended := if |batch.value| < PAGE_SIZE then Some(Ok(more)) else None;
    }
  }

  /**
   * The comments of every page, each as it was when its page was read, or why not. While comments are only added the
   * bound is reached by exactly 5,000 comments already, since the fiftieth page is then full.
   */
  method Conversation(s: Server) returns (read: Result<seq<Comment>, Unread>, ghost moments: seq<nat>)
    requires s.Valid()
    modifies s
    ensures s.Valid() && s.applied == old(s.applied) && s.status == old(s.status)
    ensures AskedPages(old(s.asked), s.asked)
    ensures Ended(s, read, moments, old(s.sent))
  {
    var entries: seq<Comment>, ended: Option<Result<seq<Comment>, Unread>> := [], None;
    moments := [];
    var page := 1;
    while page <= PAGES && ended.None?
      invariant s.Valid() && 1 <= page <= PAGES + 1 && old(s.sent) <= s.sent
      invariant s.applied == old(s.applied) && s.status == old(s.status)
      invariant if page == 1 then s.asked == old(s.asked) else AskedPages(old(s.asked), s.asked)
      invariant ended.None? ==> |moments| == page - 1 && Reading(s, moments, entries, old(s.sent))
      invariant ended.Some? ==> ended.value != Err(TooManyComments) && Ended(s, ended.value, moments, old(s.sent))
    {
      ended, entries, moments := TakePage(s, page, entries, moments, old(s.sent));
      page := page + 1;
    }
    read := if ended.Some? then ended.value else Err(TooManyComments);
  }

  /** While comments are only added, a conversation answered throughout is read in full exactly below 5,000 comments. */
  lemma ReadInFullExactly(s: Server, read: Result<seq<Comment>, Unread>, moments: seq<nat>, from: nat)
    requires Growing(s.written) && Ended(s, read, moments, from) && AllAnswered(s, from, s.sent)
    ensures s.sent > 0
    ensures read.Ok? <==> |s.written(s.sent - 1)| < 5000
    ensures read == Err(TooManyComments) <==> |s.written(s.sent - 1)| >= 5000
  {
    GrowingStands(s.written, moments);
    match read
    case Ok(_) => PagingIsExact(s.written, moments);
    case Err(TooManyComments) => StandingIsLong(s.written, moments);
  }

  /** The conversation, read and decided. */
  method ReadDecision(s: Server) returns (read: Result<Decision, Unread>, ghost moments: seq<nat>)
    requires s.Valid()
    modifies s
    ensures s.Valid() && s.applied == old(s.applied) && s.status == old(s.status)
    ensures AskedPages(old(s.asked), s.asked) && ReadPages(s, moments, old(s.sent))
    ensures read.Ok? ==>
              && ReadAll(s, moments, old(s.sent), s.sent - 1)
              && read.value == DecisionOf(s.head, PagesAt(s.written, moments))
    ensures AllAnswered(s, old(s.sent), s.sent) && Growing(s.written) ==>
              && (read.Ok? <==> |s.written(s.sent - 1)| < 5000)
              && (read == Err(TooManyComments) <==> |s.written(s.sent - 1)| >= 5000)
  {
    var entries;
    entries, moments := Conversation(s);
    if entries.Err? {
      read := Err(entries.error);
    } else {
      var decision := Decide(s.head, entries.value);
      read := Ok(decision);
    }
    if AllAnswered(s, old(s.sent), s.sent) && Growing(s.written) {
      ReadInFullExactly(s, entries, moments, old(s.sent));
    }
  }

  // --------------------------------------------------------------------- the run

  /** Success stands on the head only on what the pages read said, or untouched from before. */
  ghost predicate SuccessIsEarned(s: Server, moments: seq<nat>, was: Option<State>, before: seq<State>)
    reads s
  {
    s.status == Some(Success) ==>
      || (Complete(s.written, moments) && DecisionOf(s.head, PagesAt(s.written, moments)) == Passed)
      || (s.applied == before && was == Some(Success))
  }

  method Write(s: Server, state: State) returns (ok: bool)
    requires s.Valid()
    modifies s
    ensures s.Valid()
    ensures old(s.sent) < s.sent && AskedOnly(old(s.asked), s.asked, WriteStatus(state))
    ensures WroteOnly(old(s.applied), s.applied, state, SomeApplied(s, old(s.sent), s.sent))
    ensures StatusFollows(old(s.status), old(s.applied), s)
    ensures ok == s.network(s.sent - 1).Answered?
    ensures ok ==> |s.applied| > |old(s.applied)| && s.status == Some(state)
  {
    var readable;
    ok, readable := Call(s, WriteStatus(state));
    assert ok ==> Applies(s.network(s.sent - 1));
  }

  /** From `from` on: pending is written, then pages are read, the last by attempt `at`, and after it one state is
      written. */
  ghost predicate InOrder(asked: seq<Request>, from: nat, pendingWritten: nat, at: nat, last: State) {
    && from < pendingWritten <= at < |asked| - 1
    && (forall i :: from <= i < pendingWritten ==> asked[i] == WriteStatus(Pending))
    && (forall i :: pendingWritten <= i <= at ==> asked[i].ReadPage?)
    && (forall i :: at < i < |asked| ==> asked[i] == WriteStatus(last))
  }

  ghost predicate SettlesInOrder(asked: seq<Request>, from: nat, at: nat, last: State) {
    exists b: nat :: InOrder(asked, from, b, at, last)
  }

  /** The head is asked for first; once it is known, pending is written before any comment is read, and a decision only
      after all are. */
  ghost predicate RunsInOrder(asked: seq<Request>, from: nat, at: nat, last: State) {
    exists a: nat ::
      && SettlesInOrder(asked, a, at, last)
      && from < a && forall i :: from <= i < a ==> i < |asked| && asked[i].ReadHead?
  }

  lemma OrderOfSettling(start: seq<Request>, pendingWritten: seq<Request>, pagesRead: seq<Request>, end: seq<Request>,
                        last: State)
    requires AskedOnly(start, pendingWritten, WriteStatus(Pending))
    requires AskedPages(pendingWritten, pagesRead) && AskedOnly(pagesRead, end, WriteStatus(last))
    ensures SettlesInOrder(end, |start|, |pagesRead| - 1, last) && start < end
    ensures |start| <= |pagesRead| - 1 < |end| && end[|pagesRead| - 1].ReadPage?
  {
    assert forall i :: 0 <= i < |pendingWritten| ==> end[i] == pendingWritten[i];
    assert InOrder(end, |start|, |pendingWritten|, |pagesRead| - 1, last);
  }

  lemma OrderOfRun(start: seq<Request>, headRead: seq<Request>, end: seq<Request>, at: nat, last: State)
    requires AskedOnly(start, headRead, ReadHead) && headRead <= end && SettlesInOrder(end, |headRead|, at, last)
    ensures RunsInOrder(end, |start|, at, last)
  {
    assert forall i :: 0 <= i < |headRead| ==> end[i] == headRead[i];
  }

  /** What a settled run leaves: a decision over the pages read on the status, or a failure that says what went
      wrong. */
  ghost predicate Settled(s: Server, result: Result<Decision, Failed>, moments: seq<nat>, before: seq<State>)
    reads s
  {
    match result
    case Ok(decision) =>
      && s.status == Some(if decision == Passed then Success else Failure) && |s.applied| > |before|
      && decision == DecisionOf(s.head, PagesAt(s.written, moments))
    case Err(CommentsUnread(_)) => |s.applied| > |before| ==> s.status != Some(Success)
    case _ => true
  }

  /** The state a run writes last. */
  ghost function LastWritten(s: Server, result: Result<Decision, Failed>, moments: seq<nat>): State {
    if result.Err? && result.error.CommentsUnread? then Failure
    else if DecisionOf(s.head, PagesAt(s.written, moments)) == Passed then Success else Failure
  }

  /** The pages a run decided over were all read, the last by attempt `at`, unless reading them failed. */
  ghost predicate Grounded(s: Server, result: Result<Decision, Failed>, moments: seq<nat>, from: nat, at: nat)
    reads s
  {
    && ReadPages(s, moments, from)
    && (!(result.Err? && result.error.CommentsUnread?) ==> ReadAll(s, moments, from, at))
  }

  lemma StillRead(asked: seq<Request>, more: seq<Request>, moments: seq<nat>, from: nat)
    requires PagesAsked(asked, moments, from) && asked <= more
    ensures PagesAsked(more, moments, from)
  {}

  /** The state a read decision, or the failure to read one, is written as. */
  function Final(read: Result<Decision, Unread>): State { if read.Err? then Failure else StateOf(read.value) }

  /** The last write of a run. */
  method Conclude(s: Server, read: Result<Decision, Unread>) returns (result: Result<Decision, Failed>)
    requires s.Valid()
    modifies s
    ensures s.Valid() && old(s.sent) < s.sent && AskedOnly(old(s.asked), s.asked, WriteStatus(Final(read)))
    ensures StatusFollows(old(s.status), old(s.applied), s)
    ensures WroteOnly(old(s.applied), s.applied, Final(read), SomeApplied(s, old(s.sent), s.sent))
    ensures s.network(s.sent - 1).Answered? ==> |s.applied| > |old(s.applied)|
    ensures result == if read.Err? then Err(CommentsUnread(read.error))
                      else if s.network(s.sent - 1).Answered? then Ok(read.value) else Err(StatusUnwritten)
  {
    var ok := Write(s, Final(read));
    result := if read.Err? then Err(CommentsUnread(read.error))
              else if ok then Ok(read.value) else Err(StatusUnwritten);
  }

  /** The run once the head is known. */
  method Settle(s: Server) returns (result: Result<Decision, Failed>, ghost at: nat, ghost moments: seq<nat>)
    requires s.Valid()
    modifies s
    ensures s.Valid() && old(s.asked) < s.asked && result != Err(NoHead)
    ensures old(s.sent) <= at < s.sent && s.asked[at].ReadPage?
    ensures StatusFollows(old(s.status), old(s.applied), s)
    ensures Grounded(s, result, moments, old(s.sent), at)
    ensures SuccessIsEarned(s, moments, old(s.status), old(s.applied))
    ensures Settled(s, result, moments, old(s.applied))
    ensures SettlesInOrder(s.asked, |old(s.asked)|, at, LastWritten(s, result, moments))
    ensures AllAnswered(s, old(s.sent), s.sent) && Growing(s.written) && |s.written(s.sent)| < 5000 ==>
              result.Ok?
  {
    var pending := Write(s, Pending);
    ghost var b := s.asked;
    var read;
    read, moments := ReadDecision(s);
    ghost var c := s.asked;
    at := s.sent - 1;
    result := Conclude(s, read);
    OrderOfSettling(old(s.asked), b, c, s.asked, Final(read));
    StillRead(c, s.asked, moments, old(s.sent));
    assert Growing(s.written) ==> |s.written(at)| <= |s.written(s.sent)|;
  }

  /** Success on the head means that Codex had passed it when some attempt was made. */
  ghost predicate Sound(s: Server)
    reads s
  {
    s.status == Some(Success) ==> exists k :: 0 <= k < s.sent && DecisionOf(s.head, s.written(k)) == Passed
  }

  /** Pages that stand make an earned success a sound one. */
  lemma EarnedIsSound(s: Server, moments: seq<nat>, from: nat, was: Option<State>, before: seq<State>)
    requires s.Valid() && ReadPages(s, moments, from) && Standing(s.written, moments)
    requires SuccessIsEarned(s, moments, was, before)
    requires was == Some(Success) ==> exists k :: 0 <= k < s.sent && DecisionOf(s.head, s.written(k)) == Passed
    ensures Sound(s)
  {
    if Complete(s.written, moments) {
      PagingIsExact(s.written, moments);
      assert moments[|moments| - 1] < s.sent;
    }
  }

  /**
   * One run of the recorder; the pages are read at `moments`, the last by attempt `at`. Its verdict is the decision
   * over what was read, and success is never left on the head for any other reason. What was read is the conversation
   * as it was at `at` exactly when its pages stood till then; so while they do, run after run and whatever fails, a
   * head that Codex never passed never carries success.
   */
  method Record(s: Server) returns (result: Result<Decision, Failed>, ghost at: nat, ghost moments: seq<nat>)
    requires s.Valid()
    modifies s
    ensures s.Valid() && old(s.sent) < s.sent
    ensures StatusFollows(old(s.status), old(s.applied), s)
    ensures result == Err(NoHead) ==> s.applied == old(s.applied) && moments == []
    ensures result != Err(NoHead) ==>
              && old(s.sent) <= at < s.sent && s.asked[at].ReadPage?
              && RunsInOrder(s.asked, |old(s.asked)|, at, LastWritten(s, result, moments))
              && Grounded(s, result, moments, old(s.sent), at)
    ensures SuccessIsEarned(s, moments, old(s.status), old(s.applied))
    ensures Settled(s, result, moments, old(s.applied))
    ensures Growing(s.written) ==> Standing(s.written, moments)
    ensures Standing(s.written, moments) && old(Sound(s)) ==> Sound(s)
    ensures AllAnswered(s, old(s.sent), s.sent) && IsCommit(s.head) && Growing(s.written) ==>
              (|s.written(s.sent)| < 5000 ==> result.Ok?)
  {
    var answered, readable := Call(s, ReadHead);
    if !readable || !IsCommit(s.head) {
      result, at, moments := Err(NoHead), 0, [];
    } else {
      ghost var known, a := s.sent, s.asked;
      result, at, moments := Settle(s);
      OrderOfRun(old(s.asked), a, s.asked, at, LastWritten(s, result, moments));
      assert AllAnswered(s, old(s.sent), s.sent) ==> AllAnswered(s, known, s.sent);
      if Growing(s.written) { GrowingStands(s.written, moments); }
      if Standing(s.written, moments) && old(Sound(s)) {
        EarnedIsSound(s, moments, known, old(s.status), old(s.applied));
      }
    }
  }
}
