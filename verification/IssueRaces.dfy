/**
 * Concurrent requests for a code. Issuing one is two statements of a transaction at the default isolation level: the
 * first supersedes the live challenges its own snapshot shows, locking them, and the second inserts the new one, which
 * nobody sees before the transaction commits. A transaction that is refused changes nothing.
 */
module IssueRaces {
  import opened Texts
  import opened OneTimeCodes

  /** A transaction between its statements: the request, and the challenges there were when it began. */
  datatype Open = Open(issue: Step, seen: set<Id>)

  datatype Event =
    /** The first statement of a request, numbered to tell it from others. */
    | Sweep(number: nat, issue: Step)
    /** The second statement and the commit of the request with this number. */
    | Land(number: nat)
    /** A whole call that nothing interleaves. */
    | Whole(step: Step)

  datatype Moment = Moment(tables: Tables, open: map<nat, Open>)

  const START := Moment(EMPTY, map[])

  /** The challenges of the request's account that it saw and that are still live, superseded. */
  function SupersededSeen(challenges: map<Id, Challenge>, o: Open): map<Id, Challenge>
    requires o.issue.Issue?
  {
    map i | i in challenges ::
      if i in o.seen && challenges[i].account == o.issue.account && challenges[i].Live()
      then challenges[i].(superseded := Some(o.issue.created)) else challenges[i]
  }

  predicate Lands(t: Tables, o: Open)
    requires o.issue.Issue?
  {
    o.issue.expires > o.issue.created && o.issue.id !in t.challenges
  }

  function Fresh(issue: Step): Challenge
    requires issue.Issue?
  {
    Challenge(issue.account, issue.created, issue.expires, 0, None, None)
  }

  /** What a request leaves when it commits. */
  function Landed(t: Tables, o: Open): Tables
    requires o.issue.Issue?
  {
    if Lands(t, o) then t.(challenges := SupersededSeen(t.challenges, o)[o.issue.id := Fresh(o.issue)]) else t
  }

  ghost predicate Sound(m: Moment) { forall n :: n in m.open ==> m.open[n].issue.Issue? }

  predicate Begins(m: Moment, e: Event) { e.Sweep? && e.issue.Issue? && e.number !in m.open }

  predicate Commits(m: Moment, e: Event) { e.Land? && e.number in m.open }

  function Next(m: Moment, e: Event): (after: Moment)
    requires Sound(m)
    ensures Sound(after)
  {
    if Begins(m, e) then m.(open := m.open[e.number := Open(e.issue, m.tables.challenges.Keys)])
    else if Commits(m, e) then Moment(Landed(m.tables, m.open[e.number]), m.open - {e.number})
    else if e.Whole? then m.(tables := After(m.tables, e.step))
    else m
  }

  function AtEnd(events: seq<Event>): (m: Moment)
    ensures Sound(m)
  {
    if events == [] then START else Next(AtEnd(events[..|events| - 1]), events[|events| - 1])
  }

  // ------------------------------------------------------------- one request

  /** A live challenge of the request's account that its first statement did not see. */
  predicate IsRival(t: Tables, o: Open, i: Id)
    requires o.issue.Issue?
  {
    i in t.challenges && i !in o.seen && t.challenges[i].Live() && t.challenges[i].account == o.issue.account
  }

  ghost predicate Rivalled(t: Tables, o: Open)
    requires o.issue.Issue?
  {
    exists i :: IsRival(t, o, i)
  }

  /** A request commits what the one-step call does exactly unless a rival was issued in between and is live. */
  lemma LandsAsOneStepExactly(t: Tables, o: Open)
    requires o.issue.Issue? && Lands(t, o)
    ensures Landed(t, o) == After(t, o.issue) <==> !Rivalled(t, o)
  {
    var split, whole := Landed(t, o).challenges, After(t, o.issue).challenges;
    if i :| IsRival(t, o, i) {
      assert split[i].Live() && !whole[i].Live();
    } else {
      forall i | i in t.challenges ensures split[i] == whole[i] { assert !IsRival(t, o, i); }
      assert split.Keys == whole.Keys;
      assert split == whole;
    }
  }

  lemma RefusedAsOneStep(t: Tables, o: Open)
    requires o.issue.Issue? && !Lands(t, o)
    ensures Landed(t, o) == After(t, o.issue) == t
  {}

  /** From tables with one live challenge an account, a commit leaves one exactly unless it is rivalled. */
  lemma LandKeepsOneLiveExactly(t: Tables, o: Open)
    requires o.issue.Issue? && OneLivePerAccount(t) && Lands(t, o)
    ensures OneLivePerAccount(Landed(t, o)) <==> !Rivalled(t, o)
  {
    var later := Landed(t, o);
    if Rivalled(t, o) {
      var i :| IsRival(t, o, i);
      assert Rivals(later.challenges[i], later.challenges[o.issue.id]);
    } else {
      LandsAsOneStepExactly(t, o);
      StepKeepsOneLive(t, o.issue);
    }
  }

  // --------------------------------------------------------------- whole runs

  /** The request that commits at `n` is rivalled then. */
  ghost predicate RivalledAt(events: seq<Event>, n: nat)
    requires n < |events|
  {
    var m := AtEnd(events[..n]);
    && Commits(m, events[n])
    && Lands(m.tables, m.open[events[n].number]) && Rivalled(m.tables, m.open[events[n].number])
  }

  ghost predicate OneLiveAt(events: seq<Event>, n: nat)
    requires n <= |events|
  {
    OneLivePerAccount(AtEnd(events[..n]).tables)
  }

  ghost predicate AlwaysOneLive(events: seq<Event>) { forall n :: 0 <= n <= |events| ==> OneLiveAt(events, n) }

  ghost predicate NeverRivalled(events: seq<Event>) { forall n :: 0 <= n < |events| ==> !RivalledAt(events, n) }

  lemma NextKeepsOneLiveExactly(m: Moment, e: Event)
    requires Sound(m) && OneLivePerAccount(m.tables)
    ensures OneLivePerAccount(Next(m, e).tables) <==>
            !(Commits(m, e) && Lands(m.tables, m.open[e.number]) && Rivalled(m.tables, m.open[e.number]))
  {
    if Commits(m, e) {
      var o := m.open[e.number];
      if Lands(m.tables, o) { LandKeepsOneLiveExactly(m.tables, o); } else { RefusedAsOneStep(m.tables, o); }
    } else if e.Whole? {
      StepKeepsOneLive(m.tables, e.step);
    }
  }

  /** Main result: an interleaving keeps one live challenge an account throughout exactly when no request commits while
      a challenge issued since its first statement is live. */
  lemma {:induction false} OneLiveExactly(events: seq<Event>)
    ensures AlwaysOneLive(events) <==> NeverRivalled(events)
  {
    if events == [] {
      assert OneLivePerAccount(START.tables) && events[..0] == [];
    } else {
      var init := events[..|events| - 1];
      OneLiveExactly(init);
      AlwaysOneMore(events);
      RivalledOneMore(events);
      if AlwaysOneLive(init) { LastKeepsExactly(events); }
    }
  }

  lemma AlwaysOneMore(events: seq<Event>)
    requires events != []
    ensures AlwaysOneLive(events) <==> AlwaysOneLive(events[..|events| - 1]) && OneLiveAt(events, |events|)
  {
    var init := events[..|events| - 1];
    forall n | 0 <= n <= |init| ensures OneLiveAt(init, n) == OneLiveAt(events, n) { assert init[..n] == events[..n]; }
  }

  lemma RivalledOneMore(events: seq<Event>)
    requires events != []
    ensures NeverRivalled(events) <==> NeverRivalled(events[..|events| - 1]) && !RivalledAt(events, |events| - 1)
  {
    var init := events[..|events| - 1];
    forall n | 0 <= n < |init| ensures RivalledAt(init, n) == RivalledAt(events, n) {
      assert init[..n] == events[..n] && init[n] == events[n];
    }
  }

  lemma LastKeepsExactly(events: seq<Event>)
    requires events != [] && AlwaysOneLive(events[..|events| - 1])
    ensures RivalledAt(events, |events| - 1) <==> !OneLiveAt(events, |events|)
  {
    var init := events[..|events| - 1];
    assert init[..|init|] == init && events[..|events|] == events;
    assert OneLiveAt(init, |init|);
    NextKeepsOneLiveExactly(AtEnd(init), events[|events| - 1]);
  }

  // ------------------------------------------------- requests that are kept apart

  ghost predicate OpenFor(m: Moment, account: Id)
    requires Sound(m)
  {
    exists n :: n in m.open && m.open[n].issue.account == account
  }

  /** The request for a code begins, split or whole, for an account that has none open. */
  ghost predicate Apart(m: Moment, e: Event)
    requires Sound(m)
  {
    && (Begins(m, e) ==> !OpenFor(m, e.issue.account))
    && (e.Whole? && e.step.Issue? ==> !OpenFor(m, e.step.account))
  }

  ghost predicate AllApart(events: seq<Event>) {
    forall n :: 0 <= n < |events| ==> Apart(AtEnd(events[..n]), events[n])
  }

  /** Each open request has seen every live challenge of its account, and is alone for it. */
  ghost predicate Undisturbed(m: Moment)
    requires Sound(m)
  {
    && (forall n :: n in m.open ==> !Rivalled(m.tables, m.open[n]))
    && forall n, k :: n in m.open && k in m.open && m.open[n].issue.account == m.open[k].issue.account ==> n == k
  }

  /** The whole call an event makes, if it makes one: a request is made when it commits. */
  function CallOf(m: Moment, e: Event): seq<Step>
    requires Sound(m)
  {
    if Commits(m, e) then [m.open[e.number].issue] else if e.Whole? then [e.step] else []
  }

  function Calls(events: seq<Event>): seq<Step> {
    if events == [] then []
    else Calls(events[..|events| - 1]) + CallOf(AtEnd(events[..|events| - 1]), events[|events| - 1])
  }

  /** A call adds live challenges only to the account of a request. */
  lemma OnlyRequestsAdd(t: Tables, step: Step, i: Id)
    requires i in After(t, step).challenges && After(t, step).challenges[i].Live()
    ensures var account := After(t, step).challenges[i].account;
            || (i in t.challenges && t.challenges[i].Live() && t.challenges[i].account == account)
            || (step.Issue? && step.account == account)
  {}

  /** So an open request is not rivalled by a call that is no request for its account. */
  lemma StaysUnrivalled(t: Tables, step: Step, o: Open)
    requires o.issue.Issue? && !Rivalled(t, o) && !(step.Issue? && step.account == o.issue.account)
    ensures !Rivalled(After(t, step), o)
  {
    var later := After(t, step).challenges;
    forall i | i in later && i !in o.seen && later[i].Live() ensures later[i].account != o.issue.account {
      OnlyRequestsAdd(t, step, i);
      assert !IsRival(t, o, i);
    }
  }

  lemma BeginStaysUndisturbed(m: Moment, e: Event)
    requires Sound(m) && Undisturbed(m) && Apart(m, e) && Begins(m, e)
    ensures Undisturbed(Next(m, e)) && Next(m, e).tables == m.tables
  {}

  lemma CommitStaysUndisturbed(m: Moment, e: Event)
    requires Sound(m) && Undisturbed(m) && Commits(m, e)
    ensures Undisturbed(Next(m, e)) && Next(m, e).tables == After(m.tables, m.open[e.number].issue)
  {
    var o := m.open[e.number];
    if Lands(m.tables, o) { LandsAsOneStepExactly(m.tables, o); } else { RefusedAsOneStep(m.tables, o); }
    forall n | n in Next(m, e).open ensures !Rivalled(Next(m, e).tables, m.open[n]) {
      StaysUnrivalled(m.tables, o.issue, m.open[n]);
    }
  }

  lemma WholeStaysUndisturbed(m: Moment, e: Event)
    requires Sound(m) && Undisturbed(m) && Apart(m, e) && e.Whole?
    ensures Undisturbed(Next(m, e)) && Next(m, e).tables == After(m.tables, e.step)
  {
    forall n | n in m.open ensures !Rivalled(Next(m, e).tables, m.open[n]) {
      StaysUnrivalled(m.tables, e.step, m.open[n]);
    }
  }

  lemma NextIsSerial(m: Moment, e: Event, steps: seq<Step>)
    requires Sound(m) && Undisturbed(m) && Apart(m, e) && m.tables == AfterAll(EMPTY, steps)
    ensures Undisturbed(Next(m, e)) && Next(m, e).tables == AfterAll(EMPTY, steps + CallOf(m, e))
  {
    if Commits(m, e) {
      CommitStaysUndisturbed(m, e);
      OneMoreCall(EMPTY, steps, m.open[e.number].issue);
    } else if e.Whole? {
      WholeStaysUndisturbed(m, e);
      OneMoreCall(EMPTY, steps, e.step);
    } else {
      assert steps + [] == steps;
      if Begins(m, e) { BeginStaysUndisturbed(m, e); }
    }
  }

  lemma OneMoreCall(t: Tables, steps: seq<Step>, step: Step)
    ensures AfterAll(t, steps + [step]) == After(AfterAll(t, steps), step)
  {
    assert (steps + [step])[..|steps|] == steps;
  }

  lemma ApartBefore(events: seq<Event>)
    requires events != [] && AllApart(events)
    ensures AllApart(events[..|events| - 1]) && Apart(AtEnd(events[..|events| - 1]), events[|events| - 1])
  {
    var init := events[..|events| - 1];
    forall n | 0 <= n < |init| ensures Apart(AtEnd(init[..n]), init[n]) { assert init[..n] == events[..n]; }
  }

  /** Main result: when requests for one account do not overlap, a run leaves what whole calls do, each made when it
      commits; so everything that holds over every run of whole calls holds of it. */
  lemma {:induction false} ApartIsSerial(events: seq<Event>)
    requires AllApart(events)
    ensures AtEnd(events).tables == AfterAll(EMPTY, Calls(events)) && Undisturbed(AtEnd(events))
  {
    if events != [] {
      var init := events[..|events| - 1];
      ApartBefore(events);
      ApartIsSerial(init);
      NextIsSerial(AtEnd(init), events[|events| - 1], Calls(init));
    }
  }

  // ------------------------------------------------------------- the race itself

  /** Two requests, each sweeping before the other commits. */
  function Race(a: Step, b: Step): seq<Event> { [Sweep(0, a), Sweep(1, b), Land(0), Land(1)] }

  lemma AtEndSnoc(events: seq<Event>, e: Event)
    ensures AtEnd(events + [e]) == Next(AtEnd(events), e)
  {
    assert (events + [e])[..|events|] == events;
  }

  lemma RaceUnfolds(a: Step, b: Step)
    ensures AtEnd(Race(a, b)) == Next(Next(Next(Next(START, Sweep(0, a)), Sweep(1, b)), Land(0)), Land(1))
  {
    AtEndSnoc([], Sweep(0, a));
    AtEndSnoc([] + [Sweep(0, a)], Sweep(1, b));
    AtEndSnoc([] + [Sweep(0, a)] + [Sweep(1, b)], Land(0));
    AtEndSnoc([] + [Sweep(0, a)] + [Sweep(1, b)] + [Land(0)], Land(1));
    assert Race(a, b) == [] + [Sweep(0, a)] + [Sweep(1, b)] + [Land(0)] + [Land(1)];
  }

  lemma BothSweep(a: Step, b: Step)
    requires a.Issue? && b.Issue?
    ensures Next(Next(START, Sweep(0, a)), Sweep(1, b)) == Moment(EMPTY, map[0 := Open(a, {}), 1 := Open(b, {})])
  {
    assert EMPTY.challenges.Keys == {};
  }

  /** A request that saw nothing only adds its challenge. */
  lemma LandUnseeing(t: Tables, issue: Step)
    requires issue.Issue? && Lands(t, Open(issue, {}))
    ensures Landed(t, Open(issue, {})) == t.(challenges := t.challenges[issue.id := Fresh(issue)])
  {
    assert SupersededSeen(t.challenges, Open(issue, {})) == t.challenges;
  }

  lemma BothLand(a: Step, b: Step, m: Moment)
    requires a.Issue? && b.Issue? && a.id != b.id && a.expires > a.created && b.expires > b.created
    requires m == Moment(EMPTY, map[0 := Open(a, {}), 1 := Open(b, {})])
    ensures Next(Next(m, Land(0)), Land(1)).tables == Tables(map[a.id := Fresh(a), b.id := Fresh(b)], map[])
  {
    LandUnseeing(EMPTY, a);
    LandUnseeing(Next(m, Land(0)).tables, b);
  }

  /** Two live challenges that no session uses are both accepted, one after the other. */
  lemma BothAreAccepted(t: Tables, first: Step, second: Step)
    requires first.Consume? && second.Consume? && first.id != second.id && first.session != second.session
    requires CanConsume(t, first) && CanConsume(t, second) && t.sessions == map[]
    ensures Answered(t, first) == Consumed && Answered(After(t, first), second) == Consumed
  {}

  /** The race can be lost: with nothing issued before, both codes are live afterwards, and each is accepted although
      the other was requested as well. */
  lemma BothCodesAreAccepted(account: Id, limit: nat)
    requires limit > 0
    ensures var t := AtEnd(Race(Issue(0, account, 0, 10), Issue(1, account, 0, 10))).tables;
            var first, second := Consume(0, 1, limit, 0), Consume(1, 1, limit, 1);
            && !OneLivePerAccount(t)
            && Answered(t, first) == Consumed && Answered(After(t, first), second) == Consumed
  {
    var a, b := Issue(0, account, 0, 10), Issue(1, account, 0, 10);
    RaceUnfolds(a, b);
    BothSweep(a, b);
    BothLand(a, b, Moment(EMPTY, map[0 := Open(a, {}), 1 := Open(b, {})]));
    var t := Tables(map[0 := Fresh(a), 1 := Fresh(b)], map[]);
    assert Rivals(t.challenges[0], t.challenges[1]);
    BothAreAccepted(t, Consume(0, 1, limit, 0), Consume(1, 1, limit, 1));
  }
}
