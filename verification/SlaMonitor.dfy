/** The polling pass of src/tasks/sla_task.py and the notifier it drives. */
module SlaMonitor {
  import opened Wrappers
  import opened IdSets
  import opened SlaClock
  import opened SlaAlerts
  import opened TicketStore
  import opened TicketDesk

  /** A status row the "closed" lookup may return: any organization's, picked by the database. */
  predicate IsClosedRow(s: Store, c: int) {
    c in s.statuses && s.statuses[c].category == Closed && s.statuses[c].org != None
  }

  /** The tickets a pass visits. Only the one chosen closed row is left out: a ticket in any
      other closed status is still polled, and a NULL status is never polled. */
  predicate Polled(s: Store, closed: int, i: int) {
    && i in s.tickets && s.tickets[i].live && s.tickets[i].openedAt.Some?
    && s.tickets[i].status.Some? && s.tickets[i].status.value != closed
  }

  predicate HasSla(s: Store, i: int) {
    && i in s.tickets && s.tickets[i].openedAt.Some?
    && s.tickets[i].sla.Some? && s.tickets[i].sla.value in s.slas
  }

  predicate CanCheck(s: Store, i: int, now: int) {
    && HasSla(s, i)
    && PercentageOf(CheckOf(s, i, Response, now)).Success?
    && PercentageOf(CheckOf(s, i, Resolution, now)).Success?
  }

  function CheckOf(s: Store, i: int, kind: AlertType, now: int): Check
    requires HasSla(s, i)
  {
    var a := s.slas[s.tickets[i].sla.value];
    Check(i, kind, if kind == Response then a.response else a.resolution, s.tickets[i].openedAt.value, now)
  }

  /** The checks a pass makes: both clocks of each visited ticket, response first. */
  function ChecksOf(s: Store, visited: seq<int>, now: int): (cs: seq<Check>)
    requires forall i | i in visited :: HasSla(s, i)
    ensures |cs| == 2 * |visited|
  {
    if visited == [] then []
    else
      var i := visited[|visited| - 1];
      assert i in visited;
      ChecksOf(s, visited[..|visited| - 1], now) + [CheckOf(s, i, Response, now), CheckOf(s, i, Resolution, now)]
  }

  /** What a check records of a ticket: the SLA's budget of its own kind, the ticket's opening
      time, and the time of the poll; a pass checks the response clock first. */
  lemma ChecksReadTheStore(s: Store, i: int, now: int)
    requires HasSla(s, i)
    ensures var sla := s.slas[s.tickets[i].sla.value];
            var openedAt := s.tickets[i].openedAt.value;
            ChecksOf(s, [i], now) ==
            [Check(i, Response, sla.response, openedAt, now), Check(i, Resolution, sla.resolution, openedAt, now)]
  {
    assert [i][..0] == [];
  }

  lemma ChecksInOrder(s: Store, visited: seq<int>, i: int, now: int)
    requires forall j | j in visited + [i] :: HasSla(s, j)
    ensures forall j | j in visited :: HasSla(s, j)
    ensures HasSla(s, i)
    ensures ChecksOf(s, visited + [i], now) == ChecksOf(s, visited, now) + ChecksOf(s, [i], now)
  {
    assert forall j | j in visited :: j in visited + [i];
    assert i in visited + [i] && (visited + [i])[..|visited|] == visited && [i][..0] == [];
  }

  datatype Outcome =
    | NoTickets
    | NoClosedStatus
    | Stopped(closed: int, fetched: seq<int>)       // the early return, or an exception
    | Finished(closed: int, fetched: seq<int>)

  /** What a pass with this closed row fetches, in some order, each ticket once. */
  predicate IsFetched(s: Store, closed: int, fetched: seq<int>) {
    && IsClosedRow(s, closed)
    && (forall i | i in fetched :: Polled(s, closed, i))
    && (forall i | i in s.tickets && Polled(s, closed, i) :: i in fetched)
    && (forall j, k | 0 <= j < k < |fetched| :: fetched[j] != fetched[k])
  }

  /** How many tickets the pass gets through: those before the first that cannot be checked. */
  function Reached(s: Store, fetched: seq<int>, now: int): (n: nat)
    ensures n <= |fetched| && forall i | i in fetched[..n] :: CanCheck(s, i, now)
    ensures n < |fetched| ==> !CanCheck(s, fetched[n], now)
  {
    if fetched == [] || !CanCheck(s, fetched[0], now) then 0
    else
      var n := Reached(s, fetched[1..], now);
      assert fetched[..n + 1] == [fetched[0]] + fetched[1..][..n];
      n + 1
  }

  /** The history of checks after a pass. */
  function AfterPass(s: Store, log: seq<Check>, fetched: seq<int>, now: int): seq<Check> {
    log + ChecksOf(s, fetched[..Reached(s, fetched, now)], now)
  }

  lemma ReachedIsUnique(s: Store, fetched: seq<int>, now: int, n: nat)
    requires n <= |fetched| && forall i | i in fetched[..n] :: CanCheck(s, i, now)
    requires n < |fetched| ==> !CanCheck(s, fetched[n], now)
    ensures Reached(s, fetched, now) == n
  {
    forall m: nat, k: nat | k < m <= |fetched|
      ensures fetched[k] in fetched[..m]
    {
      assert fetched[..m][k] == fetched[k];
    }
  }

  /** From a store the ticket operations keep sound, no visit can fail. */
  lemma SoundStoreCanCheck(s: Store, closed: int, i: int, now: int)
    requires Inv(s) && Polled(s, closed, i)
    ensures CanCheck(s, i, now)
    ensures CheckOf(s, i, Response, now).budget > 0 && CheckOf(s, i, Resolution, now).budget > 0
  {
    var t := s.tickets[i];
    assert References(s, t);
    var a := s.slas[t.sla.value];
    assert SlaSound(s, a);
    ResponseAgreesWithResolution(a.response, t.openedAt.value, now);
    ResponseAgreesWithResolution(a.resolution, t.openedAt.value, now);
  }

  /** A live opened ticket in a closed status: what the pass means to leave out. */
  predicate ClosedTicket(s: Store, i: int) {
    && i in s.tickets && s.tickets[i].live && s.tickets[i].openedAt.Some?
    && s.tickets[i].status.Some? && s.tickets[i].status.value in s.statuses
    && s.statuses[s.tickets[i].status.value].category == Closed
  }

  /** Closed tickets are sure to be left out, whichever closed row the database returns, exactly
      when there are none or only one closed row has an organization and none of
      them has a row without one. */
  lemma ClosedTicketsAreSurelySkipped(s: Store, c0: int)
    requires IsClosedRow(s, c0)
    ensures (forall c, i | IsClosedRow(s, c) && ClosedTicket(s, i) :: !Polled(s, c, i)) <==>
            || (forall i :: !ClosedTicket(s, i))
            || (&& (forall c | IsClosedRow(s, c) :: c == c0)
                && (forall i | ClosedTicket(s, i) :: s.statuses[s.tickets[i].status.value].org != None))
  {
    assert forall i, c :: ClosedTicket(s, i) ==> (Polled(s, c, i) <==> s.tickets[i].status.value != c);
    if i0 :| ClosedTicket(s, i0) {
      if forall c, i | IsClosedRow(s, c) && ClosedTicket(s, i) :: !Polled(s, c, i) {
        assert forall c | IsClosedRow(s, c) :: !Polled(s, c, i0);
        assert forall i | ClosedTicket(s, i) :: !Polled(s, c0, i);
      } else {
        var c, i :| IsClosedRow(s, c) && ClosedTicket(s, i) && Polled(s, c, i);
        assert IsClosedRow(s, s.tickets[i].status.value) || s.statuses[s.tickets[i].status.value].org == None;
      }
    }
  }

  // Two organizations with a closed status each, and a confirmed ticket of the first that
  // has been closed.
  const CLOSING: seq<Op> := [
    CreateStatuses(Some(1), [NewStatus(2, "open", Open), NewStatus(3, "closed", Closed)]),
    ConfirmTicket(Some(1), 1, "token", 100, 2),
    EditTicket(Some(1), 1, TicketEdit(None, None, Some(3), None), true, true, 0),
    CreateStatuses(Some(2), [NewStatus(4, "closed", Closed)])]

  // The two statuses the first organization creates.
  lemma FirstStatusesCreated(s: Store)
    requires s.statuses == map[1 := Status(Some(1), "pending", Pending)]
    ensures Apply(s, CLOSING[0]) ==
            s.(statuses := s.statuses[2 := Status(Some(1), "open", Open)][3 := Status(Some(1), "closed", Closed)])
  {
    var open, closed := NewStatus(2, "open", Open), NewStatus(3, "closed", Closed);
    var s1 := AddStatus(s, Some(1), open);
    assert s1.statuses == s.statuses[2 := Status(Some(1), "open", Open)];
    assert [open, closed][1..] == [closed];
    assert AddStatuses(s, Some(1), [open, closed]) == AddStatuses(s1, Some(1), [closed]);
    assert AddStatuses(s1, Some(1), [closed]) == AddStatus(s1, Some(1), closed);
  }

  lemma LastStatusCreated(s: Store)
    requires 4 !in s.statuses && forall i | i in s.statuses :: s.statuses[i].org == Some(1)
    ensures Apply(s, CLOSING[3]) == s.(statuses := s.statuses[4 := Status(Some(2), "closed", Closed)])
  {
    var closed := NewStatus(4, "closed", Closed);
    assert AddStatuses(s, Some(2), [closed]) == AddStatus(s, Some(2), closed);
  }

  lemma RunFour(s: Store, a: Op, b: Op, c: Op, d: Op)
    ensures Run(s, [a, b, c, d]) == Apply(Apply(Apply(Apply(s, a), b), c), d)
  {
    hide Apply;
    var s1 := Apply(s, a);
    var s2 := Apply(s1, b);
    var s3 := Apply(s2, c);
    assert [a, b, c, d][1..] == [b, c, d] && [b, c, d][1..] == [c, d] && [c, d][1..] == [d];
    assert Run(s3, [d]) == Apply(s3, d);
    assert Run(s2, [c, d]) == Run(s3, [d]);
    assert Run(s1, [b, c, d]) == Run(s2, [c, d]);
  }

  /** A closed ticket is polled when the lookup returns another organization's closed row. */
  lemma ClosedTicketIsStillPolled()
    ensures var s := Run(Run(EMPTY, SETUP), CLOSING);
            && 1 in s.tickets && s.tickets[1].status == Some(3) && IsStatusOf(s, Some(1), Closed, 3)
            && IsClosedRow(s, 3) && !Polled(s, 3, 1)
            && IsClosedRow(s, 4) && Polled(s, 4, 1)
  {
    hide Run, AddStatuses;
    SetUpRuns();
    var s0 := Run(EMPTY, SETUP);
    FirstStatusesCreated(s0);
    var s1 := Apply(s0, CLOSING[0]);
    var s2 := Apply(s1, CLOSING[1]);
    assert s2.tickets[1].openedAt == Some(100) && s2.statuses == s1.statuses;
    var s3 := Apply(s2, CLOSING[2]);
    assert s3.tickets[1].status == Some(3) && s3.tickets[1].openedAt == Some(100) && s3.statuses == s1.statuses;
    LastStatusCreated(s3);
    RunFour(s0, CLOSING[0], CLOSING[1], CLOSING[2], CLOSING[3]);
  }

  class Monitor {
    var alerts: seq<Alert>
    var broadcasts: seq<(int, AlertType, Level)>
    ghost var log: seq<Check>   // every check made so far

    /** The table is what the history of checks calls for, with one broadcast per row. */
    ghost predicate Valid()
      reads this
    {
      && alerts == Table(log)
      && |broadcasts| == |alerts|
      && forall k | 0 <= k < |alerts| :: broadcasts[k] == (alerts[k].ticket, alerts[k].kind, alerts[k].level)
    }

    constructor ()
      ensures Valid() && log == [] && alerts == []
    {
      alerts, broadcasts, log := [], [], [];
    }

    method HandleWarning(ticket: int, kind: AlertType, level: Level, now: int)
      modifies this`alerts, this`broadcasts
      ensures alerts == old(alerts) +
                        if Alerted(old(alerts), ticket, kind, level) then [] else [Alert(ticket, kind, level, now)]
      ensures broadcasts == old(broadcasts) +
                            if Alerted(old(alerts), ticket, kind, level) then [] else [(ticket, kind, level)]
    {
      if exists a | a in alerts :: a.ticket == ticket && a.kind == kind && a.level == level {
        return;
      }
      broadcasts := broadcasts + [(ticket, kind, level)];
      alerts := alerts + [Alert(ticket, kind, level, now)];
    }

    method CheckBreach(ghost c: Check, ticket: int, kind: AlertType, percentage: int, now: int)
      requires Valid() && c.ticket == ticket && c.kind == kind && c.now == now
      requires PercentageOf(c) == Success(percentage)
      modifies this
      ensures Valid() && log == old(log) + [c]
    {
      TableAppend(log, c);
      log := log + [c];
      if percentage < Code(Warning75) {
        return;
      }
      var level := LevelOf(percentage);
      if level.value == Warning75 {
        HandleWarning(ticket, kind, Warning75, now);
      } else if level.value == Warning100 {
        HandleWarning(ticket, kind, Warning100, now);
      }
    }

    // The loop over the fetched tickets.
    method Visit(desk: Desk, ids: seq<int>, now: int) returns (done: nat)
      requires Valid() && forall i | i in ids :: i in desk.tickets
      modifies this
      ensures Valid() && done <= |ids|
      ensures forall i | i in ids[..done] :: HasSla(desk.State(), i) && CanCheck(desk.State(), i, now)
      ensures done < |ids| ==> !CanCheck(desk.State(), ids[done], now)
      ensures log == old(log) + ChecksOf(desk.State(), ids[..done], now)
    {
      done := 0;
      while done < |ids|
        invariant done <= |ids| && Valid()
        invariant forall i | i in ids[..done] :: HasSla(desk.State(), i) && CanCheck(desk.State(), i, now)
        invariant log == old(log) + ChecksOf(desk.State(), ids[..done], now)
      {
        var i := ids[done];
        assert i in ids;
        var t := desk.tickets[i];
        if t.openedAt.None? || t.sla.None? || t.sla.value !in desk.slas {
          return;
        }
        var a := desk.slas[t.sla.value];
        var response := ResponsePercentage(a.response, t.openedAt.value, now);
        if response.Failure? {
          return;
        }
        var resolution := ResolutionPercentage(a.resolution, t.openedAt.value, now);
        if resolution.Failure? {
          return;
        }
        ghost var s := desk.State();
        CheckBreach(CheckOf(s, i, Response, now), i, Response, response.value, now);
        CheckBreach(CheckOf(s, i, Resolution, now), i, Resolution, resolution.value, now);
        assert ids[..done + 1][..done] == ids[..done];
        done := done + 1;
      }
    }

    /** One poll. From a sound store with a closed row it visits exactly the live opened
        tickets outside the chosen closed row, each once, and finishes. */
    method CheckSlaBreach(desk: Desk, now: int) returns (outcome: Outcome)
      requires Valid()
      modifies this
      ensures Valid()
      ensures outcome.NoTickets? <==> forall i | i in desk.tickets :: !desk.tickets[i].live
      ensures outcome.NoClosedStatus? <==>
              (exists i | i in desk.tickets :: desk.tickets[i].live) && forall c :: !IsClosedRow(desk.State(), c)
      ensures outcome.Stopped? || outcome.Finished? ==>
                && IsFetched(desk.State(), outcome.closed, outcome.fetched)
                && log == AfterPass(desk.State(), old(log), outcome.fetched, now)
      ensures outcome.Stopped? || outcome.Finished? ==>
                && (forall i :: i in outcome.fetched <==>
                      && i in desk.tickets && desk.tickets[i].live && desk.tickets[i].openedAt.Some?
                      && desk.tickets[i].status.Some? && desk.tickets[i].status != Some(outcome.closed))
                && outcome.closed in desk.statuses && desk.statuses[outcome.closed].category == Closed
                && desk.statuses[outcome.closed].org != None
      ensures outcome.Stopped? ==> exists i | i in outcome.fetched :: !CanCheck(desk.State(), i, now)
      ensures outcome.Finished? ==>
                && (forall i | i in outcome.fetched :: CanCheck(desk.State(), i, now))
                && log == old(log) + ChecksOf(desk.State(), outcome.fetched, now)
      ensures Inv(desk.State()) ==> !outcome.Stopped?
      ensures outcome.NoTickets? || outcome.NoClosedStatus? ==> log == old(log)
    {
      var s := desk.State();
      var all := set i | i in s.tickets && s.tickets[i].live;
      if all == {} {
        assert forall i | i in s.tickets :: s.tickets[i].live ==> i in all;
        return NoTickets;
      }
      Inhabited(all);
      if !exists c | c in s.statuses :: s.statuses[c].category == Closed && s.statuses[c].org != None {
        return NoClosedStatus;
      }
      var closed :| closed in s.statuses && s.statuses[closed].category == Closed && s.statuses[closed].org != None;
      assert IsClosedRow(s, closed);
      var ids := Fetch(s, closed);
      var done := Visit(desk, ids, now);
      ReachedIsUnique(s, ids, now, done);
      assert IsFetched(s, closed, ids);
      if done < |ids| {
        if Inv(s) {
          SoundStoreCanCheck(s, closed, ids[done], now);
        }
        assert ids[done] in ids;
        return Stopped(closed, ids);
      }
      assert ids[..done] == ids;
      return Finished(closed, ids);
    }
  }

  // The second query, in whatever order the database returns its rows.
  method Fetch(s: Store, closed: int) returns (ids: seq<int>)
    ensures forall i :: i in ids <==> Polled(s, closed, i)
    ensures forall j, k | 0 <= j < k < |ids| :: ids[j] != ids[k]
  {
    ids := [];
    var left := set i | i in s.tickets && Polled(s, closed, i);
    while left != {}
      invariant forall i :: Polled(s, closed, i) <==> i in left || i in ids
      invariant forall j, k | 0 <= j < k < |ids| :: ids[j] != ids[k]
      invariant forall i | i in left :: i !in ids
      decreases |left|
    {
      Inhabited(left);
      var i :| i in left;
      ids := ids + [i];
      left := left - {i};
    }
  }
}
