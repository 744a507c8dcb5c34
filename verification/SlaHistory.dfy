/** The monitor over time: handlers of all tenants change the database between polls, and
    the alert table still tells each ticket's clock. */
module SlaHistory {
  import opened Wrappers
  import opened Tenants
  import opened SlaClock
  import opened SlaAlerts
  import opened SlaMonitor
  import opened TicketStore

  /** What happens: a handler runs, or the monitor makes a pass over the tickets it fetched. */
  datatype Event = Handle(op: Op) | Poll(closed: int, fetched: seq<int>, now: int)

  datatype World = World(store: Store, log: seq<Check>)

  /** A poll is a pass of `Monitor.CheckSlaBreach`, which may stop at a ticket it cannot check;
      one whose lookup or fetch the database could not have answered so changes nothing. */
  function Next(w: World, e: Event): World {
    match e
    case Handle(op) => w.(store := Apply(w.store, op))
    case Poll(closed, fetched, now) =>
      if IsFetched(w.store, closed, fetched) then w.(log := AfterPass(w.store, w.log, fetched, now)) else w
  }

  function Play(w: World, events: seq<Event>): World
    decreases |events|
  {
    if events == [] then w else Play(Next(w, events[0]), events[1..])
  }

  const ORIGIN := World(EMPTY, [])

  // ---------- every history ----------

  predicate Positive(w: World) {
    && (forall a | a in w.store.slas :: w.store.slas[a].response > 0 && w.store.slas[a].resolution > 0)
    && PositiveBudgets(w.log)
  }

  lemma {:induction false} ChecksComeFromStore(s: Store, visited: seq<int>, now: int)
    requires forall i | i in visited :: HasSla(s, i)
    ensures forall c | c in ChecksOf(s, visited, now) ::
              c.ticket in visited && c.now == now && HasSla(s, c.ticket) && c == CheckOf(s, c.ticket, c.kind, now)
  {
    if visited == [] {
    } else {
      var init, last := visited[..|visited| - 1], visited[|visited| - 1];
      assert last in visited && forall i | i in init :: i in visited;
      ChecksComeFromStore(s, init, now);
    }
  }

  lemma AddedRowsLeaveSlas(s: Store, ctx: Org, ps: seq<NewPriority>, sts: seq<NewStatus>)
    ensures Kept(AddPriorities(s, ctx, ps)).slas == s.slas
    ensures AddStatuses(s, ctx, sts).slas == s.slas
    decreases |ps| + |sts|
  {
    if ps == [] && sts == [] {
    } else {
      if ps != [] && MayAddPriority(s, ctx, ps[0]) {
        AddedRowsLeaveSlas(WithPriority(s, ctx, ps[0]), ctx, ps[1..], []);
      }
      if sts != [] {
        AddedRowsLeaveSlas(AddStatus(s, ctx, sts[0]), ctx, [], sts[1..]);
      }
    }
  }

  // Whatever its guards overlook, no handler gives an SLA an empty budget.
  lemma StepKeepsPositive(w: World, e: Event)
    requires Positive(w)
    ensures Positive(Next(w, e))
  {
    match e
    case Poll(closed, fetched, now) =>
      ChecksComeFromStore(w.store, fetched[..Reached(w.store, fetched, now)], now);
    case Handle(op) =>
      match op {
        case CreatePriorities(ctx, ps) => AddedRowsLeaveSlas(w.store, ctx, ps, []);
        case CreateStatuses(ctx, sts) => AddedRowsLeaveSlas(w.store, ctx, [], sts);
        case _ =>
      }
  }

  lemma {:induction false} PlayKeepsPositive(w: World, events: seq<Event>)
    requires Positive(w)
    ensures Positive(Play(w, events))
    decreases |events|
  {
    hide Positive, Next;
    if events == [] {
    } else {
      StepKeepsPositive(w, events[0]);
      PlayKeepsPositive(Next(w, events[0]), events[1..]);
    }
  }

  /** From the empty database, for every interleaving of handlers with polls, even one whose
      edits break the references: a clock has a breach row exactly when some poll checked it at
      or after the due time it then had, a 75 row exactly when one checked it from three
      quarters up to nine tenths of the budget it then had, and no 90 row; and its rows have
      rising levels exactly when it never warned late. */
  lemma HistoryTellsTheClock(events: seq<Event>, ticket: int, kind: AlertType)
    ensures var log := Play(ORIGIN, events).log;
            && (Alerted(Table(log), ticket, kind, Warning100) <==>
                exists c | c in log :: OfClock(c, ticket, kind) && Breached(c))
            && (Alerted(Table(log), ticket, kind, Warning75) <==>
                exists c | c in log :: OfClock(c, ticket, kind) && Warned(c))
            && !Alerted(Table(log), ticket, kind, Warning90)
            && (LevelsRise(Table(log), ticket, kind) <==> !WarnsLate(log, ticket, kind))
  {
    PlayKeepsPositive(ORIGIN, events);
    var log := Play(ORIGIN, events).log;
    TableTellsTheClock(log, ticket, kind);
    LevelsRiseUnlessWarnedLate(log, ticket, kind);
  }

  // ---------- ordinary histories: no pass stops ----------

  lemma SoundPassReachesAll(s: Store, closed: int, fetched: seq<int>, now: int)
    requires Inv(s) && IsFetched(s, closed, fetched)
    ensures Reached(s, fetched, now) == |fetched|
  {
    var n := Reached(s, fetched, now);
    if n < |fetched| {
      assert fetched[n] in fetched;
      SoundStoreCanCheck(s, closed, fetched[n], now);
    }
  }

  lemma {:induction false} PlayKeepsInv(w: World, events: seq<Event>)
    requires Inv(w.store) && forall e | e in events && e.Handle? :: Ordinary(e.op)
    ensures Inv(Play(w, events).store)
    decreases |events|
  {
    hide Inv, Apply;
    if events == [] {
    } else {
      assert events[0] in events;
      if events[0].Handle? {
        assert Harmless(w.store, events[0].op);
        StepKeepsInv(w.store, events[0].op);
      }
      PlayKeepsInv(Next(w, events[0]), events[1..]);
    }
  }

  /** After every history of ordinary handlers and polls, the next pass checks every ticket it
      fetches. */
  lemma OrdinaryHistoryChecksAll(events: seq<Event>, closed: int, fetched: seq<int>, now: int)
    requires forall e | e in events && e.Handle? :: Ordinary(e.op)
    requires IsFetched(Play(ORIGIN, events).store, closed, fetched)
    ensures var w := Play(ORIGIN, events);
            && (forall i | i in fetched :: CanCheck(w.store, i, now))
            && Next(w, Poll(closed, fetched, now)).log == w.log + ChecksOf(w.store, fetched, now)
  {
    PlayKeepsInv(ORIGIN, events);
    SoundPassReachesAll(Play(ORIGIN, events).store, closed, fetched, now);
    assert fetched[..|fetched|] == fetched;
  }

  // ---------- quiet histories: levels only rise ----------

  /** The handlers under which an SLA's clock is not reset: no SLA changes its budgets or
      its priority, and no ticket is given another priority or a bare SLA. Creating,
      confirming, closing and deleting tickets, registering, renaming and deleting SLAs, and
      everything about priorities and statuses are allowed. */
  predicate Quiet(op: Op) {
    && (op.EditSla? ==>
          op.slaEdit.response == None && op.slaEdit.resolution == None && op.slaEdit.priority == None)
    && (op.EditTicket? ==> op.edit.priority == None && op.edit.sla == None)
  }

  predicate IsLive(s: Store, i: int) {
    i in s.tickets && s.tickets[i].live
  }

  /** While a ticket lives, the checks made of it used the clocks it still has. */
  predicate FromLiveTickets(s: Store, log: seq<Check>) {
    forall c | c in log :: c.ticket in s.tickets &&
      (s.tickets[c.ticket].live ==> HasSla(s, c.ticket) && c == CheckOf(s, c.ticket, c.kind, c.now))
  }

  predicate Good(w: World) {
    Inv(w.store) && Steady(w.log) && FromLiveTickets(w.store, w.log)
  }

  /** The monitor's clock does not go back: each poll comes no earlier than those before it. */
  predicate InOrder(log: seq<Check>, events: seq<Event>) {
    && (forall e, c | e in events && e.Poll? && c in log :: c.now <= e.now)
    && (forall i, j | 0 <= i < j < |events| && events[i].Poll? && events[j].Poll? :: events[i].now <= events[j].now)
  }

  // A quiet step leaves an SLA row that stays with its budgets.
  lemma QuietKeepsBudgets(s: Store, op: Op, a: int)
    requires Quiet(op) && a in s.slas && a in Apply(s, op).slas
    ensures Apply(s, op).slas[a].response == s.slas[a].response
    ensures Apply(s, op).slas[a].resolution == s.slas[a].resolution
  {
    match op
    case CreatePriorities(ctx, ps) => AddedRowsLeaveSlas(s, ctx, ps, []);
    case CreateStatuses(ctx, sts) => AddedRowsLeaveSlas(s, ctx, [], sts);
    case _ =>
  }

  // A quiet step leaves a ticket its SLA, or takes it away with the SLA's row.
  lemma QuietKeepsSla(s: Store, op: Op, i: int)
    requires Quiet(op) && i in s.tickets && i in Apply(s, op).tickets
    ensures Apply(s, op).tickets[i].sla in {s.tickets[i].sla, None} || (op.CreateTicket? && op.id == i)
    ensures op.CreateTicket? ==> Apply(s, op).tickets[i] == s.tickets[i]
  {
    match op
    case CreatePriorities(ctx, ps) => AddedRowsLeaveTickets(s, ctx, ps, []);
    case CreateStatuses(ctx, sts) => AddedRowsLeaveTickets(s, ctx, [], sts);
    case _ =>
  }

  lemma QuietKeepsClocks(s: Store, op: Op, i: int)
    requires Inv(s) && Quiet(op) && HasSla(s, i) && IsLive(Apply(s, op), i)
    ensures HasSla(Apply(s, op), i)
    ensures forall kind, now :: CheckOf(Apply(s, op), i, kind, now) == CheckOf(s, i, kind, now)
  {
    var s' := Apply(s, op);
    LiveTicketKeepsItsSla(s, op, i);
    OnlyConfirmationOpens(s, op, i);
    QuietKeepsBudgets(s, op, s.tickets[i].sla.value);
  }

  // The invariant after the step leaves the ticket no choice but the SLA it had.
  lemma LiveTicketKeepsItsSla(s: Store, op: Op, i: int)
    requires Inv(s) && Quiet(op) && i in s.tickets && IsLive(Apply(s, op), i)
    ensures Apply(s, op).tickets[i].sla == s.tickets[i].sla
    ensures s.tickets[i].sla.Some? && s.tickets[i].sla.value in Apply(s, op).slas
  {
    hide Apply;
    StepKeepsInv(s, op);
    assert Harmless(s, op);
    assert References(Apply(s, op), Apply(s, op).tickets[i]);
    QuietKeepsSla(s, op, i);
  }

  lemma QuietStepKeepsGood(w: World, op: Op)
    requires Good(w) && Quiet(op)
    ensures Good(Next(w, Handle(op)))
  {
    hide Apply, Inv, Steady;
    var s, s' := w.store, Apply(w.store, op);
    assert Harmless(s, op);
    StepKeepsInv(s, op);
    forall c | c in w.log
      ensures c.ticket in s'.tickets
      ensures s'.tickets[c.ticket].live ==> HasSla(s', c.ticket) && c == CheckOf(s', c.ticket, c.kind, c.now)
    {
      OnlyConfirmationOpens(s, op, c.ticket);
      if s'.tickets[c.ticket].live {
        QuietKeepsClocks(s, op, c.ticket);
      }
    }
  }

  // A later check of the same clock, of a ticket that lives, has the same budget.
  lemma PassStaysSteady(log: seq<Check>, more: seq<Check>, now: int)
    requires Steady(log) && (forall c | c in log :: c.now <= now)
    requires forall d | d in more :: d.now == now && d.budget > 0
    requires forall c, d | c in log + more && d in more && SameClock(c, d) ::
               c.budget == d.budget && c.openedAt == d.openedAt
    ensures Steady(log + more)
  {
    var all := log + more;
    forall k | 0 <= k < |all|
      ensures all[k].budget > 0 && all[k].now <= now
      ensures k >= |log| ==> all[k] in more && all[k].now == now
      ensures k < |log| ==> all[k] == log[k]
    {
      if k < |log| {
        assert all[k] == log[k] && log[k] in log;
      } else {
        assert all[k] == more[k - |log|];
      }
    }
    assert forall k | 0 <= k < |all| :: all[k] in all;
  }

  lemma PollKeepsGood(w: World, closed: int, fetched: seq<int>, now: int)
    requires Good(w) && forall c | c in w.log :: c.now <= now
    ensures Good(Next(w, Poll(closed, fetched, now)))
    ensures forall c | c in Next(w, Poll(closed, fetched, now)).log :: c.now <= now
  {
    if IsFetched(w.store, closed, fetched) {
      var s, visited := w.store, fetched[..Reached(w.store, fetched, now)];
      var more := ChecksOf(s, visited, now);
      ChecksComeFromStore(s, visited, now);
      forall d | d in more
        ensures d.budget > 0 && IsLive(s, d.ticket)
      {
        assert d.ticket in fetched;
        SoundStoreCanCheck(s, closed, d.ticket, now);
      }
      PassStaysSteady(w.log, more, now);
    }
  }

  lemma {:induction false} PlayKeepsGood(w: World, events: seq<Event>)
    requires Good(w) && InOrder(w.log, events)
    requires forall e | e in events && e.Handle? :: Quiet(e.op)
    ensures Good(Play(w, events))
    decreases |events|
  {
    hide Good, Quiet;
    if events == [] {
    } else {
      assert events[0] in events;
      match events[0] {
        case Handle(op) => QuietStepKeepsGood(w, op);
        case Poll(closed, fetched, now) => PollKeepsGood(w, closed, fetched, now);
      }
      PlayKeepsGood(Next(w, events[0]), events[1..]);
    }
  }

  /** From the empty database, whatever quiet handlers run between whatever polls, the rows of
      every clock have strictly increasing levels. */
  lemma QuietHistoryOnlyRises(events: seq<Event>, ticket: int, kind: AlertType)
    requires InOrder([], events) && forall e | e in events && e.Handle? :: Quiet(e.op)
    ensures LevelsRise(Table(Play(ORIGIN, events).log), ticket, kind)
  {
    PlayKeepsGood(ORIGIN, events);
    LevelsIncrease(Play(ORIGIN, events).log, ticket, kind);
  }

  // ---------- a late warning, concretely ----------

  function Handles(ops: seq<Op>): seq<Event> {
    if ops == [] then [] else [Handle(ops[0])] + Handles(ops[1..])
  }

  lemma {:induction false} PlayHandles(w: World, ops: seq<Op>, rest: seq<Event>)
    ensures Play(w, Handles(ops) + rest) == Play(w.(store := Run(w.store, ops)), rest)
    decreases |ops|
  {
    hide Apply;
    if ops == [] {
      assert Handles(ops) + rest == rest;
    } else {
      var events := Handles(ops) + rest;
      assert events[0] == Handle(ops[0]) && events[1..] == Handles(ops[1..]) + rest;
      PlayHandles(Next(w, events[0]), ops[1..], rest);
    }
  }

  // Statuses, and the confirmation of the ticket at time 100; its SLA's response budget is 60.
  const OPENING: seq<Op> := SETUP + CLOSING[..2]

  const LENGTHEN := EditSla(Some(1), 1, SlaEdit(None, Some(100), None, None), true)

  /** A poll at the due time, a longer response budget, and a poll in the warning range of that
      budget: the 75 row comes after the 100 row. */
  const LATE: seq<Event> := [Poll(3, [1], 160), Handle(LENGTHEN), Poll(3, [1], 180)]

  lemma OpeningRuns()
    ensures var s := Run(EMPTY, OPENING);
            && IsClosedRow(s, 3)
            && s.tickets == map[1 := Ticket(Some(1), "title", "token", true, Some(100), Some(1), Some(2), Some(1))]
            && s.slas == map[1 := Sla(Some(1), 1, "fast", 60, 600)]
  {
    SetUpRuns();
    RunAppend(EMPTY, SETUP, CLOSING[..2]);
    var s0 := Run(EMPTY, SETUP);
    FirstStatusesCreated(s0);
    var s1 := Apply(s0, CLOSING[0]);
    assert CLOSING[..2][1..] == [CLOSING[1]] && [CLOSING[1]][1..] == [];
    assert Run(s0, CLOSING[..2]) == Run(s1, [CLOSING[1]]) == Apply(s1, CLOSING[1]);
  }

  lemma {:induction false} RunAppend(s: Store, a: seq<Op>, b: seq<Op>)
    ensures Run(s, a + b) == Run(Run(s, a), b)
    decreases |a|
  {
    hide Apply;
    if a == [] {
      assert a + b == b;
    } else {
      assert (a + b)[0] == a[0] && (a + b)[1..] == a[1..] + b;
      RunAppend(Apply(s, a[0]), a[1..], b);
    }
  }

  // A pass over the one ticket.
  lemma OneTicketPass(s: Store, log: seq<Check>, now: int, response: int)
    requires IsClosedRow(s, 3) && response > 0
    requires s.tickets == map[1 := Ticket(Some(1), "title", "token", true, Some(100), Some(1), Some(2), Some(1))]
    requires s.slas == map[1 := Sla(Some(1), 1, "fast", response, 600)]
    ensures Next(World(s, log), Poll(3, [1], now)) ==
            World(s, log + [Check(1, Response, response, 100, now)] + [Check(1, Resolution, 600, 100, now)])
  {
    assert HasSla(s, 1);
    ResponseAgreesWithResolution(response, 100, now);
    ResponseAgreesWithResolution(600, 100, now);
    assert CanCheck(s, 1, now);
    ReachedIsUnique(s, [1], now, 1);
    assert [1][..1] == [1] && [1][..0] == [];
    assert ChecksOf(s, [1], now) ==
           [] + [Check(1, Response, response, 100, now), Check(1, Resolution, 600, 100, now)];
  }

  lemma LateLog(s: Store)
    requires IsClosedRow(s, 3)
    requires s.tickets == map[1 := Ticket(Some(1), "title", "token", true, Some(100), Some(1), Some(2), Some(1))]
    requires s.slas == map[1 := Sla(Some(1), 1, "fast", 60, 600)]
    ensures Play(World(s, []), LATE).log == [
              Check(1, Response, 60, 100, 160), Check(1, Resolution, 600, 100, 160),
              Check(1, Response, 100, 100, 180), Check(1, Resolution, 600, 100, 180)]
  {
    var longer := Apply(s, LENGTHEN);
    assert longer.slas == map[1 := Sla(Some(1), 1, "fast", 100, 600)];
    OneTicketPass(s, [], 160, 60);
    var log := [] + [Check(1, Response, 60, 100, 160)] + [Check(1, Resolution, 600, 100, 160)];
    OneTicketPass(longer, log, 180, 100);
    assert Next(World(s, log), Handle(LENGTHEN)) == World(longer, log);
    hide IsClosedRow, Next;
    assert LATE[1..] == [Handle(LENGTHEN), Poll(3, [1], 180)];
    assert LATE[1..][1..] == [Poll(3, [1], 180)] && LATE[1..][1..][1..] == [];
    assert Play(World(longer, log), [Poll(3, [1], 180)]) == Next(World(longer, log), Poll(3, [1], 180));
    assert Play(World(s, log), LATE[1..]) == Play(World(longer, log), LATE[1..][1..]);
  }

  lemma LateChecksCallFor(c1: Check, c2: Check, c3: Check, c4: Check)
    requires c1 == Check(1, Response, 60, 100, 160) && c2 == Check(1, Resolution, 600, 100, 160)
    requires c3 == Check(1, Response, 100, 100, 180) && c4 == Check(1, Resolution, 600, 100, 180)
    ensures Due(c1) == Some(Warning100) && Due(c2) == None && Due(c3) == Some(Warning75) && Due(c4) == None
  {
    hide Due;
    DueThresholds(c1);
    DueThresholds(c2);
    DueThresholds(c3);
    DueThresholds(c4);
  }

  lemma NoSuchRow(breach: Alert)
    requires breach.level == Warning100
    ensures Table([]) == []
    ensures !Alerted([], 1, Response, Warning100) && !Alerted([breach], 1, Response, Warning75)
  {
  }

  lemma LateTable()
    ensures Table([
              Check(1, Response, 60, 100, 160), Check(1, Resolution, 600, 100, 160),
              Check(1, Response, 100, 100, 180), Check(1, Resolution, 600, 100, 180)]) ==
            [Alert(1, Response, Warning100, 160), Alert(1, Response, Warning75, 180)]
  {
    hide Table, Due, Alerted;
    var c1, c2 := Check(1, Response, 60, 100, 160), Check(1, Resolution, 600, 100, 160);
    var c3, c4 := Check(1, Response, 100, 100, 180), Check(1, Resolution, 600, 100, 180);
    var breach, warning := Alert(1, Response, Warning100, 160), Alert(1, Response, Warning75, 180);
    LateChecksCallFor(c1, c2, c3, c4);
    NoSuchRow(breach);
    assert Table([c1]) == [breach] by {
      TableAppend([], c1);
      assert [] + [c1] == [c1];
    }
    assert Table([c1, c2]) == [breach] by {
      TableAppend([c1], c2);
      assert [c1] + [c2] == [c1, c2];
    }
    assert Table([c1, c2, c3]) == [breach, warning] by {
      TableAppend([c1, c2], c3);
      assert [c1, c2] + [c3] == [c1, c2, c3];
    }
    assert [c1, c2, c3] + [c4] == [c1, c2, c3, c4];
    TableAppend([c1, c2, c3], c4);
  }

  lemma LongerBudgetWarnsAfterBreach()
    ensures var log := Play(ORIGIN, Handles(OPENING) + LATE).log;
            && Table(log) == [Alert(1, Response, Warning100, 160), Alert(1, Response, Warning75, 180)]
            && WarnsLate(log, 1, Response)
  {
    OpeningRuns();
    PlayHandles(ORIGIN, OPENING, LATE);
    LateLog(Run(EMPTY, OPENING));
    LateTable();
    hide Play, Run, Table;
    var log := Play(ORIGIN, Handles(OPENING) + LATE).log;
    assert OfClock(log[2], 1, Response) && Warned(log[2]);
    assert OfClock(log[0], 1, Response) && Breached(log[0]);
  }
}
