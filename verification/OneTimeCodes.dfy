/** One-time-code challenges and the sessions they create, each operation one transaction over the two tables. */
module OneTimeCodes {
  import opened Texts

  type Id = nat
  type Instant = int

  datatype Challenge = Challenge(
    account: Id,
    created: Instant,
    expires: Instant,
    attempts: nat,
    consumed: Option<Instant>,
    superseded: Option<Instant>)
  {
    predicate Live() { consumed.None? && superseded.None? }
  }

  /** The two tables. Each session is filed with the challenge it was created for, which the table itself does not
      record. */
  datatype Tables = Tables(challenges: map<Id, Challenge>, sessions: map<Id, Id>)

  datatype Step =
    | Issue(id: Id, account: Id, created: Instant, expires: Instant)
    | Attempt(id: Id, now: Instant)
    | Consume(id: Id, now: Instant, maxAttempts: nat, session: Id)

  /** What a call returns; `Raised` is a database error, after which the transaction is rolled back. */
  datatype Answer = Issued | Counted(attempts: nat) | NotLive | Consumed | Raised

  // ------------------------------------------------------------------- the steps

  /** Every live challenge of an account superseded at one instant. */
  function Superseded(challenges: map<Id, Challenge>, account: Id, at: Instant): map<Id, Challenge> {
    map id | id in challenges ::
      if challenges[id].account == account && challenges[id].Live() then challenges[id].(superseded := Some(at))
      else challenges[id]
  }

  predicate CanAttempt(t: Tables, id: Id, now: Instant) {
    id in t.challenges && t.challenges[id].Live() && t.challenges[id].expires > now
  }

  predicate CanConsume(t: Tables, step: Step)
    requires step.Consume?
  {
    CanAttempt(t, step.id, step.now) && t.challenges[step.id].attempts < step.maxAttempts
  }

  function Answered(t: Tables, step: Step): Answer {
    match step
    case Issue(id, _, created, expires) => if expires > created && id !in t.challenges then Issued else Raised
    case Attempt(id, now) => if CanAttempt(t, id, now) then Counted(t.challenges[id].attempts + 1) else NotLive
    case Consume(_, _, _, session) =>
      if !CanConsume(t, step) then NotLive else if session in t.sessions then Raised else Consumed
  }

  function After(t: Tables, step: Step): Tables {
    match Answered(t, step)
    case Issued =>
      t.(challenges := Superseded(t.challenges, step.account, step.created)[
           step.id := Challenge(step.account, step.created, step.expires, 0, None, None)])
    case Counted(n) => t.(challenges := t.challenges[step.id := t.challenges[step.id].(attempts := n)])
    case Consumed =>
      Tables(t.challenges[step.id := t.challenges[step.id].(consumed := Some(step.now))],
             t.sessions[step.session := step.id])
    case _ => t
  }

  function AfterAll(t: Tables, steps: seq<Step>): Tables {
    if steps == [] then t else After(AfterAll(t, steps[..|steps| - 1]), steps[|steps| - 1])
  }

  const EMPTY := Tables(map[], map[])

  // ------------------------------------------------------------------ the store

  class Store {
    var challenges: map<Id, Challenge>
    var sessions: map<Id, Id>

    function Holds(): Tables
      reads this
    {
      Tables(challenges, sessions)
    }

    constructor ()
      ensures Holds() == EMPTY
    {
      challenges, sessions := map[], map[];
    }

    method IssueChallenge(id: Id, account: Id, created: Instant, expires: Instant) returns (answer: Answer)
      modifies this
      ensures answer == Answered(old(Holds()), Issue(id, account, created, expires))
      ensures Holds() == After(old(Holds()), Issue(id, account, created, expires))
    {
      var before := challenges;
      challenges := Superseded(challenges, account, created);
      if expires <= created || id in challenges {
        challenges := before;
        answer := Raised;
      } else {
        challenges := challenges[id := Challenge(account, created, expires, 0, None, None)];
        answer := Issued;
      }
    }

    method RecordAttempt(id: Id, now: Instant) returns (answer: Answer)
      modifies this`challenges
      ensures answer == Answered(old(Holds()), Attempt(id, now))
      ensures Holds() == After(old(Holds()), Attempt(id, now))
    {
      if id in challenges && challenges[id].consumed.None? && challenges[id].superseded.None?
          && challenges[id].expires > now {
        var counted := challenges[id].(attempts := challenges[id].attempts + 1);
        challenges := challenges[id := counted];
        answer := Counted(counted.attempts);
      } else {
        answer := NotLive;
      }
    }

    method ConsumeAndCreateSession(id: Id, now: Instant, maxAttempts: nat, session: Id) returns (answer: Answer)
      modifies this
      ensures answer == Answered(old(Holds()), Consume(id, now, maxAttempts, session))
      ensures Holds() == After(old(Holds()), Consume(id, now, maxAttempts, session))
    {
      var found := id in challenges && challenges[id].consumed.None? && challenges[id].superseded.None?
                   && challenges[id].expires > now && challenges[id].attempts < maxAttempts;
      if !found {
        answer := NotLive;
      } else {
        var before := challenges;
        challenges := challenges[id := challenges[id].(consumed := Some(now))];
        if session in sessions {
          challenges := before;
          answer := Raised;
        } else {
          sessions := sessions[session := id];
          answer := Consumed;
        }
      }
    }
  }

  // ------------------------------------------------------------------ over runs

  predicate Rivals(c: Challenge, d: Challenge) { c.Live() && d.Live() && c.account == d.account }

  ghost predicate OneLivePerAccount(t: Tables) {
    forall i, j :: i in t.challenges && j in t.challenges && Rivals(t.challenges[i], t.challenges[j]) ==> i == j
  }

  ghost predicate EndsOnce(t: Tables) {
    forall i :: i in t.challenges ==> t.challenges[i].consumed.None? || t.challenges[i].superseded.None?
  }

  /** The sessions and the consumed challenges stand one to one. */
  ghost predicate SessionPerConsumed(t: Tables) {
    && (forall s :: s in t.sessions ==> t.sessions[s] in t.challenges && t.challenges[t.sessions[s]].consumed.Some?)
    && (forall s, r :: s in t.sessions && r in t.sessions && t.sessions[s] == t.sessions[r] ==> s == r)
    && (forall i :: i in t.challenges && t.challenges[i].consumed.Some? ==> i in t.sessions.Values)
  }

  ghost predicate Kept(t: Tables) { OneLivePerAccount(t) && EndsOnce(t) && SessionPerConsumed(t) }

  lemma NewSession(sessions: map<Id, Id>, session: Id, id: Id)
    requires session !in sessions
    ensures sessions[session := id].Values == sessions.Values + {id}
  {
    var more := sessions[session := id];
    assert more[session] == id;
    forall v | v in sessions.Values ensures v in more.Values {
      var k :| k in sessions && sessions[k] == v;
      assert more[k] == v;
    }
  }

  lemma StepKeepsOneLive(t: Tables, step: Step)
    requires OneLivePerAccount(t)
    ensures OneLivePerAccount(After(t, step))
  {
    var later := After(t, step).challenges;
    forall i, j | i in later && j in later && Rivals(later[i], later[j]) ensures i == j {
      if i in t.challenges && j in t.challenges { assert Rivals(t.challenges[i], t.challenges[j]); }
    }
  }

  lemma StepEndsOnce(t: Tables, step: Step)
    requires EndsOnce(t)
    ensures EndsOnce(After(t, step))
  {}

  lemma StepKeepsSessions(t: Tables, step: Step)
    requires SessionPerConsumed(t)
    ensures SessionPerConsumed(After(t, step))
  {
    if Answered(t, step).Consumed? {
      NewSession(t.sessions, step.session, step.id);
      var later := After(t, step);
      forall s, r | s in later.sessions && r in later.sessions && later.sessions[s] == later.sessions[r]
        ensures s == r
      {
        assert s != step.session ==> t.challenges[t.sessions[s]].consumed.Some?;
        assert r != step.session ==> t.challenges[t.sessions[r]].consumed.Some?;
      }
    }
  }

  lemma {:induction false} RunsKeep(t: Tables, steps: seq<Step>)
    requires Kept(t)
    ensures Kept(AfterAll(t, steps))
  {
    if steps != [] {
      RunsKeep(t, steps[..|steps| - 1]);
      StepKeepsOneLive(AfterAll(t, steps[..|steps| - 1]), steps[|steps| - 1]);
      StepEndsOnce(AfterAll(t, steps[..|steps| - 1]), steps[|steps| - 1]);
      StepKeepsSessions(AfterAll(t, steps[..|steps| - 1]), steps[|steps| - 1]);
    }
  }

  /** Whatever calls are made, in whatever order: one live code an account, no code both used and replaced, one session
      a used code. */
  lemma EveryRunIsKept(steps: seq<Step>)
    ensures OneLivePerAccount(AfterAll(EMPTY, steps))
    ensures EndsOnce(AfterAll(EMPTY, steps))
    ensures SessionPerConsumed(AfterAll(EMPTY, steps))
  {
    RunsKeep(EMPTY, steps);
  }

  /** How a challenge may change: never its identity, its count only upwards, each mark set once, and nothing once it
      is not live. */
  ghost predicate Follows(before: Challenge, after: Challenge) {
    && after.account == before.account && after.created == before.created && after.expires == before.expires
    && after.attempts >= before.attempts
    && (before.consumed.Some? ==> after.consumed == before.consumed)
    && (before.superseded.Some? ==> after.superseded == before.superseded)
    && (!before.Live() ==> after == before)
  }

  ghost predicate AllFollow(t: Tables, later: Tables) {
    && (forall i :: i in t.challenges ==> i in later.challenges && Follows(t.challenges[i], later.challenges[i]))
    && (forall s :: s in t.sessions ==> s in later.sessions && later.sessions[s] == t.sessions[s])
  }

  lemma IssueFollows(t: Tables, step: Step)
    requires step.Issue?
    ensures AllFollow(t, After(t, step))
  {
    if Answered(t, step).Issued? {
      var later := After(t, step).challenges;
      forall i | i in t.challenges ensures i in later && Follows(t.challenges[i], later[i]) {
        assert later[i] == Superseded(t.challenges, step.account, step.created)[i];
      }
    }
  }

  lemma StepFollows(t: Tables, step: Step)
    ensures AllFollow(t, After(t, step))
  {
    match step
    case Issue(_, _, _, _) => IssueFollows(t, step);
    case Attempt(_, _) => assert AllFollow(t, After(t, step));
    case Consume(_, _, _, _) => assert AllFollow(t, After(t, step));
  }

  lemma FollowsTwice(t: Tables, mid: Tables, later: Tables)
    requires AllFollow(t, mid) && AllFollow(mid, later)
    ensures AllFollow(t, later)
  {
    forall i | i in t.challenges ensures i in later.challenges && Follows(t.challenges[i], later.challenges[i]) {
      assert Follows(t.challenges[i], mid.challenges[i]) && Follows(mid.challenges[i], later.challenges[i]);
    }
  }

  /** No run meets a row guard of migration 0011, and a challenge that is used or replaced never changes again. */
  lemma {:induction false} NothingTurnsBack(t: Tables, steps: seq<Step>)
    ensures AllFollow(t, AfterAll(t, steps))
  {
    if steps != [] {
      var before := AfterAll(t, steps[..|steps| - 1]);
      NothingTurnsBack(t, steps[..|steps| - 1]);
      StepFollows(before, steps[|steps| - 1]);
      FollowsTwice(t, before, AfterAll(t, steps));
    }
  }

  /** A code is accepted once: its attempt count is below the limit it was accepted under, for good, and no other call
      accepts it. */
  lemma AcceptedOnce(t: Tables, step: Step, rest: seq<Step>, again: Step)
    requires step.Consume? && Answered(t, step).Consumed?
    requires again.Consume? && again.id == step.id
    ensures var later := AfterAll(After(t, step), rest);
            && step.id in later.challenges
            && later.challenges[step.id].consumed == Some(step.now)
            && later.challenges[step.id].attempts < step.maxAttempts
            && Answered(later, again) == NotLive
  {
    NothingTurnsBack(After(t, step), rest);
    assert !After(t, step).challenges[step.id].Live();
  }

  /** A newer code ends every older one: no call made after it accepts or counts an attempt at one of them. */
  lemma NewerCodeEndsOlder(t: Tables, issue: Step, rest: seq<Step>, older: Id, later: Step)
    requires issue.Issue? && Answered(t, issue).Issued?
    requires older in t.challenges && t.challenges[older].account == issue.account
    requires (later.Attempt? || later.Consume?) && later.id == older
    ensures Answered(AfterAll(After(t, issue), rest), later) == NotLive
  {
    NothingTurnsBack(After(t, issue), rest);
    assert !After(t, issue).challenges[older].Live();
  }

  /** The attempts at a challenge that some steps were answered with a count. */
  function CountedFor(t: Tables, steps: seq<Step>, id: Id): nat {
    if steps == [] then 0
    else
      var step := steps[|steps| - 1];
      CountedFor(t, steps[..|steps| - 1], id)
      + if step.Attempt? && step.id == id && Answered(AfterAll(t, steps[..|steps| - 1]), step).Counted? then 1 else 0
  }

  /** No attempt is lost: the count is what it was and the attempts answered since. */
  lemma {:induction false} AttemptsAreCounted(t: Tables, steps: seq<Step>, id: Id)
    requires id in t.challenges
    ensures id in AfterAll(t, steps).challenges
    ensures AfterAll(t, steps).challenges[id].attempts == t.challenges[id].attempts + CountedFor(t, steps, id)
  {
    if steps != [] {
      AttemptsAreCounted(t, steps[..|steps| - 1], id);
    }
  }

  // --------------------------------------------------- each call, field by field

  /** A code is accepted exactly when it is filed, unused, not replaced, unexpired and tried fewer times than allowed,
      and its session is new; if only the session is not, the call fails, and in every other case it is refused. */
  lemma ConsumedExactly(t: Tables, id: Id, now: Instant, maxAttempts: nat, session: Id)
    ensures var standing := && id in t.challenges
                            && t.challenges[id].consumed == None && t.challenges[id].superseded == None
                            && now < t.challenges[id].expires && t.challenges[id].attempts < maxAttempts;
            var answer := Answered(t, Consume(id, now, maxAttempts, session));
            && (answer == Consumed <==> standing && session !in t.sessions)
            && (answer == Raised <==> standing && session in t.sessions)
            && (answer == NotLive <==> !standing)
  {}

  /** An attempt is counted exactly when the code is filed, unused, not replaced and unexpired. */
  lemma CountedExactly(t: Tables, id: Id, now: Instant)
    ensures var standing := && id in t.challenges
                            && t.challenges[id].consumed == None && t.challenges[id].superseded == None
                            && now < t.challenges[id].expires;
            Answered(t, Attempt(id, now)) == if standing then Counted(t.challenges[id].attempts + 1) else NotLive
  {}

  /** A call that is not answered by what it asks for changes nothing. */
  lemma RefusedLeavesAll(t: Tables, step: Step)
    requires Answered(t, step) == NotLive || Answered(t, step) == Raised
    ensures After(t, step) == t
  {}

  /** A new code is filed as asked, unused and untried; of the others, exactly the unused and not yet replaced ones of
      its account are replaced, at its instant. */
  lemma IssueLeaves(t: Tables, id: Id, account: Id, created: Instant, expires: Instant)
    ensures Answered(t, Issue(id, account, created, expires)) == Issued <==> created < expires && id !in t.challenges
    ensures Answered(t, Issue(id, account, created, expires)) == Issued ==>
              var later := After(t, Issue(id, account, created, expires));
              && later.sessions == t.sessions && later.challenges.Keys == t.challenges.Keys + {id}
              && later.challenges[id] == Challenge(account, created, expires, 0, None, None)
              && forall i :: i in t.challenges ==>
                   var before := t.challenges[i];
                   if before.account == account && before.consumed == None && before.superseded == None
                   then later.challenges[i] == before.(superseded := Some(created)) else later.challenges[i] == before
  {
    var later := After(t, Issue(id, account, created, expires));
    if Answered(t, Issue(id, account, created, expires)) == Issued {
      assert later.challenges.Keys == t.challenges.Keys + {id};
    }
  }

  /** A counted attempt changes one count, and an accepted code one mark and one session. */
  lemma CallLeaves(t: Tables, step: Step)
    requires Answered(t, step).Counted? || Answered(t, step).Consumed?
    ensures After(t, step).challenges.Keys == t.challenges.Keys
    ensures forall i :: i in t.challenges && i != step.id ==> After(t, step).challenges[i] == t.challenges[i]
    ensures step.Attempt? ==>
              && After(t, step).sessions == t.sessions
              && After(t, step).challenges[step.id]
                 == t.challenges[step.id].(attempts := t.challenges[step.id].attempts + 1)
    ensures step.Consume? ==>
              && After(t, step).sessions == t.sessions[step.session := step.id]
              && After(t, step).challenges[step.id] == t.challenges[step.id].(consumed := Some(step.now))
  {}

  // ------------------------------------------------------------------ expiry

  /** Every code expires after it was created, and every used one was used before that. */
  ghost predicate InTime(t: Tables) {
    forall i :: i in t.challenges ==>
      && t.challenges[i].created < t.challenges[i].expires
      && (t.challenges[i].consumed.Some? ==> t.challenges[i].consumed.value < t.challenges[i].expires)
  }

  lemma StepStaysInTime(t: Tables, step: Step)
    requires InTime(t)
    ensures InTime(After(t, step))
  {
    match step
    case Issue(id, account, created, expires) =>
      if Answered(t, step) == Issued { IssueLeaves(t, id, account, created, expires); }
    case Attempt(id, now) =>
      CountedExactly(t, id, now);
      if Answered(t, step).Counted? { CallLeaves(t, step); }
    case Consume(id, now, maxAttempts, session) =>
      ConsumedExactly(t, id, now, maxAttempts, session);
      if Answered(t, step).Consumed? { CallLeaves(t, step); }
  }

  lemma {:induction false} RunsStayInTime(t: Tables, steps: seq<Step>)
    requires InTime(t)
    ensures InTime(AfterAll(t, steps))
  {
    if steps != [] {
      RunsStayInTime(t, steps[..|steps| - 1]);
      StepStaysInTime(AfterAll(t, steps[..|steps| - 1]), steps[|steps| - 1]);
    }
  }

  /** Main result: over every run, a used code was used before it expired. */
  lemma UsedBeforeExpiry(steps: seq<Step>)
    ensures InTime(AfterAll(EMPTY, steps))
  {
    RunsStayInTime(EMPTY, steps);
  }

  /** Main result: from its expiry on, whatever is called in between, no call accepts a code or counts an attempt at it,
      and none changes its use or its count. */
  lemma ExpiredForGood(t: Tables, rest: seq<Step>, later: Step)
    requires (later.Attempt? || later.Consume?) && later.id in t.challenges
    requires t.challenges[later.id].expires <= later.now
    ensures Answered(AfterAll(t, rest), later) == NotLive
    ensures After(AfterAll(t, rest), later) == AfterAll(t, rest)
  {
    NothingTurnsBack(t, rest);
    assert Follows(t.challenges[later.id], AfterAll(t, rest).challenges[later.id]);
  }
}
