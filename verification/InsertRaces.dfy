/**
 * Concurrent sign-ups. Recording a request is two statements of a transaction at the default isolation level: the first
 * supersedes the lapsed requests its own snapshot shows, the second inserts the new one, waiting for whoever else is
 * inserting for the address, and the unique index of open addresses turns it away when one is open.
 */
module InsertRaces {
  import opened Texts
  import opened SignupRequests

  /** A transaction between its statements: the request, and the requests there were when it began. */
  datatype Pending = Pending(insert: Step, seen: set<Id>)

  datatype Event = Sweep(number: nat, insert: Step) | Land(number: nat) | Whole(step: Step)

  datatype Moment = Moment(table: Table, pending: map<nat, Pending>)

  /** The lapsed requests of the address that the first statement saw, superseded if they still are. */
  function SupersededSeen(t: Table, p: Pending): Table
    requires p.insert.Insert?
  {
    map id | id in t ::
      if id in p.seen && t[id].address == p.insert.address && t[id].Lapsed(p.insert.requested)
      then t[id].(superseded := Some(p.insert.requested)) else t[id]
  }

  function LandedAnswer(t: Table, p: Pending): Answer
    requires p.insert.Insert?
  {
    if p.insert.expires <= p.insert.requested then Raised
    else if p.insert.id in t || HasOpen(SupersededSeen(t, p), p.insert.address) then OpenExists
    else Inserted
  }

  /** What the transaction leaves; turned away, it leaves nothing. */
  function Landed(t: Table, p: Pending): Table
    requires p.insert.Insert?
  {
    if LandedAnswer(t, p).Inserted? then SupersededSeen(t, p)[p.insert.id := Fresh(p.insert)] else t
  }

  /** A lapsed request of the address that the first statement did not see. */
  ghost predicate LapsedUnseen(t: Table, p: Pending)
    requires p.insert.Insert?
  {
    exists id :: id in t && id !in p.seen && t[id].address == p.insert.address && t[id].Lapsed(p.insert.requested)
  }

  /** The checks, the unique index and the row guard hold whatever was interleaved. */
  lemma LandKeeps(t: Table, p: Pending)
    requires Kept(t) && p.insert.Insert?
    ensures Kept(Landed(t, p)) && AllGuarded(t, Landed(t, p))
  {
    if LandedAnswer(t, p).Inserted? {
      var swept, later := SupersededSeen(t, p), Landed(t, p);
      forall i, j | i in later && j in later && Rivals(later[i], later[j]) ensures i == j {
        if i != p.insert.id && j != p.insert.id { assert Rivals(t[i], t[j]); }
      }
    }
  }

  lemma SweptAlike(t: Table, p: Pending)
    requires p.insert.Insert? && !LapsedUnseen(t, p)
    ensures SupersededSeen(t, p) == Superseded(t, p.insert.address, p.insert.requested)
  {
    var seen, all := SupersededSeen(t, p), Superseded(t, p.insert.address, p.insert.requested);
    forall id | id in t ensures seen[id] == all[id] {}
  }

  /** A lapsed request that was not seen is open after the sweep; being the only open one, it alone turns the new one
      away. */
  lemma UnseenTurnsAway(t: Table, p: Pending)
    requires Kept(t) && p.insert.Insert? && LapsedUnseen(t, p)
    ensures HasOpen(SupersededSeen(t, p), p.insert.address)
    ensures !HasOpen(Superseded(t, p.insert.address, p.insert.requested), p.insert.address)
  {
    var id :| id in t && id !in p.seen && t[id].address == p.insert.address && t[id].Lapsed(p.insert.requested);
    var seen, all := SupersededSeen(t, p), Superseded(t, p.insert.address, p.insert.requested);
    assert id in seen && seen[id] == t[id];
    forall i | i in all && all[i].address == p.insert.address ensures !all[i].Open() {
      assert t[i].Open() ==> Rivals(t[i], t[id]);
    }
  }

  /** Main result: the two statements answer and leave what one step does exactly unless a request that lapsed was
      inserted between them; the call is then turned away where one step would not be. */
  lemma LandsAsOneStepExactly(t: Table, p: Pending)
    requires Kept(t) && p.insert.Insert? && p.insert.expires > p.insert.requested && p.insert.id !in t
    ensures LandedAnswer(t, p) == Answered(t, p.insert) && Landed(t, p) == After(t, p.insert) <==> !LapsedUnseen(t, p)
    ensures LapsedUnseen(t, p) ==> LandedAnswer(t, p) == OpenExists && Answered(t, p.insert) == Inserted
  {
    if LapsedUnseen(t, p) { UnseenTurnsAway(t, p); } else { SweptAlike(t, p); }
  }

  // --------------------------------------------------------------- whole runs

  ghost predicate Sound(m: Moment) { forall n :: n in m.pending ==> m.pending[n].insert.Insert? }

  function Next(m: Moment, e: Event): (after: Moment)
    requires Sound(m)
    ensures Sound(after)
  {
    match e
    case Sweep(number, insert) =>
      if insert.Insert? && number !in m.pending then m.(pending := m.pending[number := Pending(insert, m.table.Keys)])
      else m
    case Land(number) =>
      if number in m.pending then Moment(Landed(m.table, m.pending[number]), m.pending - {number}) else m
    case Whole(step) => m.(table := After(m.table, step))
  }

  function AtEnd(events: seq<Event>): (m: Moment)
    ensures Sound(m)
  {
    if events == [] then Moment(map[], map[]) else Next(AtEnd(events[..|events| - 1]), events[|events| - 1])
  }

  lemma NextKeeps(m: Moment, e: Event)
    requires Sound(m) && Kept(m.table)
    ensures Kept(Next(m, e).table) && AllGuarded(m.table, Next(m, e).table)
  {
    match e
    case Sweep(_, _) =>
    case Land(number) => if number in m.pending { LandKeeps(m.table, m.pending[number]); }
    case Whole(step) => StepKeeps(m.table, step);
  }

  lemma {:induction false} AtEndIsKept(events: seq<Event>)
    ensures Kept(AtEnd(events).table)
  {
    if events != [] {
      var before := AtEnd(events[..|events| - 1]);
      AtEndIsKept(events[..|events| - 1]);
      NextKeeps(before, events[|events| - 1]);
      assert AtEnd(events) == Next(before, events[|events| - 1]);
    }
  }

  /** Over every interleaving no stored row breaks a check or the unique index, and no update meets the row guard. */
  lemma EveryInterleavingIsKept(events: seq<Event>, next: Event)
    ensures Kept(AtEnd(events).table)
    ensures AllGuarded(AtEnd(events).table, Next(AtEnd(events), next).table)
  {
    AtEndIsKept(events);
    NextKeeps(AtEnd(events), next);
  }

  /** A request begins, and one that has expired by then is recorded before it commits. */
  function Race(address: Id): seq<Event> { [Sweep(0, Insert(0, address, 20, 30)), Whole(Insert(1, address, 0, 10))] }

  lemma RaceLeaves(address: Id)
    ensures AtEnd(Race(address)) == Moment(map[1 := Request(address, 0, 10, 0, None, None, None)],
                                           map[0 := Pending(Insert(0, address, 20, 30), {})])
  {
    var events, empty := Race(address), Moment(map[], map[]);
    assert events[..1] == [events[0]] && events[..1][..0] == [];
    assert AtEnd(events[..1]) == Next(empty, events[0]);
    assert empty.table.Keys == {};
    assert Superseded(empty.table, address, 0) == map[];
  }

  /** The race can be lost: the expired code blocks its address. */
  lemma ExpiredCodeBlocks(address: Id)
    ensures var m := AtEnd(Race(address));
            && 0 in m.pending && LandedAnswer(m.table, m.pending[0]) == OpenExists
            && forall id :: id in m.table ==> m.table[id].verified.None? && m.table[id].expires <= 20
  {
    RaceLeaves(address);
    var t := AtEnd(Race(address)).table;
    var swept := SupersededSeen(t, AtEnd(Race(address)).pending[0]);
    assert 1 in swept && swept[1].address == address && swept[1].Open();
  }
}
