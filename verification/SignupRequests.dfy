/** Reader sign-up requests, each operation one transaction over one table under its constraints. */
module SignupRequests {
  import opened Texts

  type Id = nat
  type Instant = int

  datatype Choice = Approved | Denied

  datatype Ruling = Ruling(at: Instant, choice: Choice, judge: Id, account: Option<Id>)

  datatype Request = Request(
    address: Id,
    requested: Instant,
    expires: Instant,
    attempts: nat,
    verified: Option<Instant>,
    decided: Option<Ruling>,
    superseded: Option<Instant>)
  {
    /** The rows the unique index of open addresses covers. */
    predicate Open() { decided.None? && superseded.None? }

    /** Open, unverified and past its expiry at an instant. */
    predicate Lapsed(at: Instant) { Open() && verified.None? && expires <= at }
  }

  type Table = map<Id, Request>

  datatype Step =
    | Insert(id: Id, address: Id, requested: Instant, expires: Instant)
    | Attempt(id: Id)
    | Verify(id: Id, at: Instant)
    | Decide(id: Id, ruling: Ruling)

  /** What a call returns; `Raised` is an error thrown to the caller, whose transaction is then rolled back. */
  datatype Answer = Inserted | OpenExists | Found(request: Request) | Unknown | Yes | No | Raised

  // ------------------------------------------------------------------- the steps

  function Superseded(t: Table, address: Id, at: Instant): Table {
    map id | id in t :: if t[id].address == address && t[id].Lapsed(at) then t[id].(superseded := Some(at)) else t[id]
  }

  predicate HasOpen(t: Table, address: Id) {
    exists id :: id in t && t[id].address == address && t[id].Open()
  }

  function Fresh(step: Step): Request
    requires step.Insert?
  {
    Request(step.address, step.requested, step.expires, 0, None, None, None)
  }

  function Answered(t: Table, step: Step): Answer {
    match step
    case Insert(id, address, requested, expires) =>
      if expires <= requested then Raised
      else if id in t || HasOpen(Superseded(t, address, requested), address) then OpenExists
      else Inserted
    case Attempt(id) =>
      if id in t && t[id].superseded.None? then Found(t[id].(attempts := t[id].attempts + 1)) else Unknown
    case Verify(id, _) =>
      if id in t && t[id].verified.None? && t[id].Open() then Yes else No
    case Decide(id, ruling) =>
      if ruling.choice.Denied? && ruling.account.Some? then Raised
      else if id in t && t[id].verified.Some? && t[id].decided.None? then Yes
      else No
  }

  function After(t: Table, step: Step): Table {
    match Answered(t, step)
    case Inserted => Superseded(t, step.address, step.requested)[step.id := Fresh(step)]
    case Found(request) => t[step.id := request]
    case Yes =>
      if step.Verify? then t[step.id := t[step.id].(verified := Some(step.at))]
      else t[step.id := t[step.id].(decided := Some(step.ruling))]
    case _ => t
  }

  function AfterAll(t: Table, steps: seq<Step>): Table {
    if steps == [] then t else After(AfterAll(t, steps[..|steps| - 1]), steps[|steps| - 1])
  }

  // ------------------------------------------------------------------- the store

  class Store {
    var requests: Table

    constructor ()
      ensures requests == map[]
    {
      requests := map[];
    }

    method InsertRequest(id: Id, address: Id, requested: Instant, expires: Instant) returns (answer: Answer)
      modifies this
      ensures answer == Answered(old(requests), Insert(id, address, requested, expires))
      ensures requests == After(old(requests), Insert(id, address, requested, expires))
    {
      var before := requests;
      requests := Superseded(requests, address, requested);
      if expires <= requested {
        requests := before;
        answer := Raised;
      } else if id in requests || HasOpen(requests, address) {
        requests := before;
        answer := OpenExists;
      } else {
        requests := requests[id := Request(address, requested, expires, 0, None, None, None)];
        answer := Inserted;
      }
    }

    method RecordAttempt(id: Id) returns (answer: Answer)
      modifies this
      ensures answer == Answered(old(requests), Attempt(id))
      ensures requests == After(old(requests), Attempt(id))
    {
      if id in requests && requests[id].superseded.None? {
        requests := requests[id := requests[id].(attempts := requests[id].attempts + 1)];
        answer := Found(requests[id]);
      } else {
        answer := Unknown;
      }
    }

    method VerifyRequest(id: Id, at: Instant) returns (answer: Answer)
      modifies this
      ensures answer == Answered(old(requests), Verify(id, at))
      ensures requests == After(old(requests), Verify(id, at))
    {
      if id in requests && requests[id].verified.None? && requests[id].decided.None? && requests[id].superseded.None? {
        requests := requests[id := requests[id].(verified := Some(at))];
        answer := Yes;
      } else {
        answer := No;
      }
    }

    method DecideRequest(id: Id, ruling: Ruling) returns (answer: Answer)
      modifies this
      ensures answer == Answered(old(requests), Decide(id, ruling))
      ensures requests == After(old(requests), Decide(id, ruling))
    {
      if ruling.choice.Denied? && ruling.account.Some? {
        answer := Raised;
      } else if id in requests && requests[id].verified.Some? && requests[id].decided.None? {
        requests := requests[id := requests[id].(decided := Some(ruling))];
        answer := Yes;
      } else {
        answer := No;
      }
    }
  }

  // ---------------------------------------------------------- the database's rules

  /** The row checks of migrations 0017 and 0019. */
  ghost predicate Checked(r: Request) {
    && r.expires > r.requested
    && (r.decided.Some? ==> r.verified.Some?)
    && (r.decided.Some? && r.decided.value.account.Some? ==> r.decided.value.choice.Approved?)
    && (r.superseded.Some? ==> r.verified.None? && r.decided.None? && r.superseded.value >= r.expires)
  }

  /** How a row may change: never its identity, its count only upwards, each mark set once, nothing once superseded. */
  ghost predicate Follows(before: Request, after: Request) {
    && after.address == before.address && after.requested == before.requested && after.expires == before.expires
    && after.attempts >= before.attempts
    && (before.verified.Some? ==> after.verified == before.verified)
    && (before.decided.Some? ==> after.decided == before.decided)
    && (before.superseded.Some? ==> after == before)
  }

  /** The guard of migration 0019 on one update of a row. */
  ghost predicate Guarded(before: Request, after: Request) {
    && Follows(before, after)
    && (before.superseded.None? && after.superseded.Some? ==>
          && before.verified.None? && before.decided.None? && after.superseded.value >= before.expires
          && after == before.(superseded := after.superseded))
  }

  predicate Rivals(r: Request, s: Request) { r.Open() && s.Open() && r.address == s.address }

  ghost predicate OneOpenPerAddress(t: Table) {
    forall i, j :: i in t && j in t && Rivals(t[i], t[j]) ==> i == j
  }

  ghost predicate Kept(t: Table) {
    OneOpenPerAddress(t) && forall id :: id in t ==> Checked(t[id])
  }

  ghost predicate AllGuarded(t: Table, later: Table) {
    forall id :: id in t ==> id in later && Guarded(t[id], later[id])
  }

  ghost predicate AllFollow(t: Table, later: Table) {
    forall id :: id in t ==> id in later && Follows(t[id], later[id])
  }

  lemma InsertKeeps(t: Table, step: Step)
    requires Kept(t) && step.Insert?
    ensures Kept(After(t, step)) && AllGuarded(t, After(t, step))
  {
    if Answered(t, step).Inserted? {
      var swept, later := Superseded(t, step.address, step.requested), After(t, step);
      forall i, j | i in later && j in later && Rivals(later[i], later[j]) ensures i == j {
        if i != step.id && j != step.id { assert Rivals(t[i], t[j]); }
      }
    }
  }

  /** A guarded update of one row that opens nothing keeps the table. */
  lemma UpdateKeeps(t: Table, id: Id, row: Request)
    requires Kept(t) && id in t && Guarded(t[id], row) && Checked(row) && (row.Open() ==> t[id].Open())
    ensures Kept(t[id := row]) && AllGuarded(t, t[id := row])
  {
    var later := t[id := row];
    forall i, j | i in later && j in later && Rivals(later[i], later[j]) ensures i == j {
      assert Rivals(t[i], t[j]);
    }
  }

  lemma AttemptKeeps(t: Table, step: Step)
    requires Kept(t) && step.Attempt?
    ensures Kept(After(t, step)) && AllGuarded(t, After(t, step))
  {
    if Answered(t, step).Found? { UpdateKeeps(t, step.id, Answered(t, step).request); }
  }

  lemma VerifyKeeps(t: Table, step: Step)
    requires Kept(t) && step.Verify?
    ensures Kept(After(t, step)) && AllGuarded(t, After(t, step))
  {
    if Answered(t, step).Yes? { UpdateKeeps(t, step.id, t[step.id].(verified := Some(step.at))); }
  }

  lemma DecideKeeps(t: Table, step: Step)
    requires Kept(t) && step.Decide?
    ensures Kept(After(t, step)) && AllGuarded(t, After(t, step))
  {
    if Answered(t, step).Yes? { UpdateKeeps(t, step.id, t[step.id].(decided := Some(step.ruling))); }
  }

  lemma StepKeeps(t: Table, step: Step)
    requires Kept(t)
    ensures Kept(After(t, step)) && AllGuarded(t, After(t, step))
  {
    match step
    case Insert(_, _, _, _) => InsertKeeps(t, step);
    case Attempt(_) => AttemptKeeps(t, step);
    case Verify(_, _) => VerifyKeeps(t, step);
    case Decide(_, _) => DecideKeeps(t, step);
  }

  /** Whatever is asked, in whatever order, the checks and the unique index hold, and every mark is set once. */
  lemma {:induction false} RunsKeep(t: Table, steps: seq<Step>)
    requires Kept(t)
    ensures Kept(AfterAll(t, steps))
    ensures AllFollow(t, AfterAll(t, steps))
  {
    if steps != [] {
      RunsKeep(t, steps[..|steps| - 1]);
      StepKeeps(AfterAll(t, steps[..|steps| - 1]), steps[|steps| - 1]);
    }
  }

  /**
   * Over every run from an empty table no stored row breaks a check or the unique index, and no
   * update meets the row guard: the operations' own conditions keep what those state. A superseded
   * request was never verified nor decided, a decided one was verified, and an address has at
   * most one open request.
   */
  lemma EveryRunIsKept(steps: seq<Step>, next: Step)
    ensures Kept(AfterAll(map[], steps))
    ensures AllGuarded(AfterAll(map[], steps), After(AfterAll(map[], steps), next))
  {
    RunsKeep(map[], steps);
    StepKeeps(AfterAll(map[], steps), next);
  }

  /** An open request of the address that the new one cannot supersede. */
  ghost predicate Blocks(r: Request, address: Id, requested: Instant) {
    r.address == address && r.Open() && (r.verified.Some? || r.expires > requested)
  }

  /** `open_exists` is answered exactly when the identifier is taken, or the address has an open request that is
      verified or unexpired: an expired code never blocks its address, and a repeated identifier is reported as if one
      did. */
  lemma OpenExistsExactly(t: Table, step: Step)
    requires step.Insert? && step.expires > step.requested
    ensures Answered(t, step).OpenExists? <==>
            step.id in t || exists id :: id in t && Blocks(t[id], step.address, step.requested)
    ensures !Answered(t, step).OpenExists? ==> Answered(t, step).Inserted?
  {
    var swept := Superseded(t, step.address, step.requested);
    if HasOpen(swept, step.address) {
      var id :| id in swept && swept[id].address == step.address && swept[id].Open();
      assert id in t && Blocks(t[id], step.address, step.requested);
    }
    if id :| id in t && Blocks(t[id], step.address, step.requested) {
      assert id in swept && swept[id].address == step.address && swept[id].Open();
    }
  }

  /** So `open_exists` can be answered when no request at all is open: a repeated identifier is enough. */
  lemma RepeatedIdentifierIsOpenExists(id: Id, ruling: Ruling)
    requires ruling.choice.Approved?
    ensures var t := map[id := Request(0, 0, 10, 0, Some(1), Some(ruling), None)];
            Kept(t) && Answered(t, Insert(id, 1, 20, 30)).OpenExists? && !HasOpen(t, 0) && !HasOpen(t, 1)
  {
    var t := map[id := Request(0, 0, 10, 0, Some(1), Some(ruling), None)];
    assert forall i :: i in t ==> !t[i].Open();
  }

  /** A verified request waits for its decision whatever else is asked for: only a decision on it closes it. */
  lemma {:induction false} VerifiedWaits(t: Table, steps: seq<Step>, id: Id)
    requires Kept(t) && id in t && t[id].verified.Some? && t[id].Open()
    requires forall i :: 0 <= i < |steps| ==> !(steps[i].Decide? && steps[i].id == id)
    ensures id in AfterAll(t, steps) && AfterAll(t, steps)[id].Open()
    ensures AfterAll(t, steps)[id].verified == t[id].verified
  {
    if steps != [] {
      var fewer := steps[..|steps| - 1];
      VerifiedWaits(t, fewer, id);
      assert !(steps[|steps| - 1].Decide? && steps[|steps| - 1].id == id);
    }
  }

  /** A request is verified at most once and decided at most once over a run. */
  lemma AnsweredOnce(t: Table, step: Step, rest: seq<Step>, again: Step)
    requires Kept(t) && Answered(t, step).Yes?
    requires again.id == step.id && ((again.Verify? && step.Verify?) || (again.Decide? && step.Decide?))
    ensures !Answered(AfterAll(After(t, step), rest), again).Yes?
  {
    StepKeeps(t, step);
    RunsKeep(After(t, step), rest);
    assert Follows(After(t, step)[step.id], AfterAll(After(t, step), rest)[step.id]);
  }

  // --------------------------------------------------- each call, field by field

  /** An attempt is counted exactly on a request that is filed and not superseded, verified and decided ones included,
      and changes its count alone. */
  lemma AttemptExactly(t: Table, id: Id)
    ensures var answer, later := Answered(t, Attempt(id)), After(t, Attempt(id));
            if id in t && t[id].superseded == None then
              && later == t[id := t[id].(attempts := t[id].attempts + 1)]
              && answer == Found(later[id])
            else answer == Unknown && later == t
  {}

  /** A request is verified exactly when it is neither verified, nor decided, nor superseded, and at that instant. */
  lemma VerifyExactly(t: Table, id: Id, at: Instant)
    ensures var answer, later := Answered(t, Verify(id, at)), After(t, Verify(id, at));
            if id in t && t[id].verified == None && t[id].decided == None && t[id].superseded == None
            then answer == Yes && later == t[id := t[id].(verified := Some(at))]
            else answer == No && later == t
  {}

  /** A denial that names an account fails; else a request is decided exactly when it is verified and undecided. */
  lemma DecideExactly(t: Table, id: Id, ruling: Ruling)
    ensures var answer, later := Answered(t, Decide(id, ruling)), After(t, Decide(id, ruling));
            if ruling.choice == Denied && ruling.account != None then answer == Raised && later == t
            else if id in t && t[id].verified != None && t[id].decided == None
            then answer == Yes && later == t[id := t[id].(decided := Some(ruling))]
            else answer == No && later == t
  {}

  /** A new request is filed as asked; of the others, exactly the open, unverified ones of its address that have expired
      by its instant are superseded, at that instant. A call that is turned away or fails changes nothing. */
  lemma InsertLeaves(t: Table, id: Id, address: Id, requested: Instant, expires: Instant)
    ensures var answer, later := Answered(t, Insert(id, address, requested, expires)),
                                 After(t, Insert(id, address, requested, expires));
            && (answer == Raised <==> expires <= requested)
            && (answer != Inserted ==> later == t)
            && (answer == Inserted ==>
                  && later.Keys == t.Keys + {id} && id !in t
                  && later[id] == Request(address, requested, expires, 0, None, None, None)
                  && forall i :: i in t ==>
                       if t[i].address == address && t[i].verified == None && t[i].decided == None
                          && t[i].superseded == None && t[i].expires <= requested
                       then later[i] == t[i].(superseded := Some(requested)) else later[i] == t[i])
  {}

  /** The attempts at a request that some steps were answered with it. */
  function CountedFor(t: Table, steps: seq<Step>, id: Id): nat {
    if steps == [] then 0
    else
      var step := steps[|steps| - 1];
      CountedFor(t, steps[..|steps| - 1], id)
      + if step.Attempt? && step.id == id && Answered(AfterAll(t, steps[..|steps| - 1]), step).Found? then 1 else 0
  }

  /** No attempt is lost: the count is what it was and the attempts answered since. */
  lemma {:induction false} AttemptsAreCounted(t: Table, steps: seq<Step>, id: Id)
    requires id in t
    ensures id in AfterAll(t, steps) && AfterAll(t, steps)[id].attempts == t[id].attempts + CountedFor(t, steps, id)
  {
    if steps != [] {
      AttemptsAreCounted(t, steps[..|steps| - 1], id);
      StepCounts(AfterAll(t, steps[..|steps| - 1]), steps[|steps| - 1], id);
    }
  }

  lemma StepCounts(t: Table, step: Step, id: Id)
    requires id in t
    ensures id in After(t, step)
    ensures After(t, step)[id].attempts
         == t[id].attempts + if step.Attempt? && step.id == id && Answered(t, step).Found? then 1 else 0
  {
    match step
    case Insert(i, address, requested, expires) => InsertLeaves(t, i, address, requested, expires);
    case Attempt(i) => AttemptExactly(t, i);
    case Verify(i, at) => VerifyExactly(t, i, at);
    case Decide(i, ruling) => DecideExactly(t, i, ruling);
  }

  /** What was verified or ruled stays so over any run. */
  lemma RulingStands(t: Table, step: Step, rest: seq<Step>)
    requires Kept(t) && Answered(t, step).Yes?
    ensures var later := AfterAll(After(t, step), rest);
            && step.id in later
            && (step.Verify? ==> later[step.id].verified == Some(step.at))
            && (step.Decide? ==> later[step.id].decided == Some(step.ruling))
  {
    StepKeeps(t, step);
    RunsKeep(After(t, step), rest);
    assert Follows(After(t, step)[step.id], AfterAll(After(t, step), rest)[step.id]);
  }
}
