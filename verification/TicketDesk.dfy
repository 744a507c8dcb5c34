/** The handlers of the ticket services, over the tables they read and write. Each one is
    proved to be one step of TicketStore, with the database's choices handed back, and to
    keep the invariant on references exactly when that step does. */
module TicketDesk {
  import opened Wrappers
  import opened Tenants
  import opened TicketStore
  import Text

  predicate HasStatusNamed(statuses: map<int, Status>, ctx: Org, name: string) {
    exists i | i in statuses :: statuses[i].org == ctx && statuses[i].name == name
  }

  // An edited field: the payload's value when there is one, else what it was.
  predicate Became<T(==)>(now: T, given: Option<T>, before: T) {
    if given.Some? then now == given.value else now == before
  }

  /** What creating the first `k` statuses of a list means, in terms of the rows alone: every
      name is there, each new row is the list's first of its name, which was not there, and
      every row that was there stays. */
  predicate NamesCreated(before: map<int, Status>, now: map<int, Status>, ctx: Org, sts: seq<NewStatus>, k: nat)
    requires k <= |sts|
  {
    && (forall j | 0 <= j < k :: HasStatusNamed(now, ctx, sts[j].name))
    && (forall i | i in before :: i in now && now[i] == before[i])
    && (forall i | i in now && i !in before :: exists j | 0 <= j < k ::
          && sts[j].id == i && now[i] == Status(ctx, sts[j].name, sts[j].category)
          && !HasStatusNamed(before, ctx, sts[j].name)
          && forall earlier | 0 <= earlier < j :: sts[earlier].name != sts[j].name)
  }

  /** What creating the first `k` priorities of a list means: their rows are there as given,
      each unlike every other of the organization in name (whatever the case) and in level,
      no other row is new, and every row that was there stays. */
  predicate RowsCreated(
    before: map<int, Priority>, now: map<int, Priority>, ctx: Org, ps: seq<NewPriority>, k: nat)
    requires k <= |ps|
  {
    && (forall j | 0 <= j < k :: ps[j].id in now && now[ps[j].id] == Priority(ctx, ps[j].name, ps[j].level))
    && (forall i | i in before :: i in now && now[i] == before[i])
    && (forall i | i in now && i !in before :: exists j | 0 <= j < k :: ps[j].id == i)
    && (forall i, j | i in now && 0 <= j < k && ps[j].id != i && now[i].org == ctx ::
          && Text.Lower(now[i].name) != Text.Lower(ps[j].name)
          && (ctx != None ==> now[i].level != ps[j].level))
  }

  /** Another priority of the organization has the name in some case or, when the organization
      is given, the level. */
  predicate Clashes(rows: map<int, Priority>, ctx: Org, name: string, level: int) {
    exists i | i in rows :: rows[i].org == ctx
      && (Text.Lower(rows[i].name) == Text.Lower(name) || (ctx != None && rows[i].level == level))
  }

  lemma SlotFreeBut(s: Store, ctx: Org, p: int, id: int)
    ensures SlaSlotFree(s, ctx, p, {id}) <==>
            (ctx == None || forall i | i in s.slas && i != id :: s.slas[i].org != ctx || s.slas[i].priority != p)
  {
  }

  lemma MayAddUnlessClash(s: Store, ctx: Org, p: NewPriority)
    requires p.id !in s.priorities
    ensures MayAddPriority(s, ctx, p) <==> !Clashes(s.priorities, ctx, p.name, p.level)
  {
    if i :| i in s.priorities && s.priorities[i].org == ctx && Text.Lower(s.priorities[i].name) == Text.Lower(p.name) {
      assert Clashes(s.priorities, ctx, p.name, p.level);
    }
  }

  lemma OneMoreRowCreated(
    before: map<int, Priority>, now: map<int, Priority>, ctx: Org, ps: seq<NewPriority>, k: nat)
    requires k < |ps| && RowsCreated(before, now, ctx, ps, k) && ps[k].id !in now
    requires !Clashes(now, ctx, ps[k].name, ps[k].level)
    ensures RowsCreated(before, now[ps[k].id := Priority(ctx, ps[k].name, ps[k].level)], ctx, ps, k + 1)
  {
  }

  lemma CreatingPrioritiesKeepsInv(s: Store, ctx: Org, ps: seq<NewPriority>)
    ensures Apply(s, Op.CreatePriorities(ctx, ps)) == Kept(AddPriorities(s, ctx, ps))
    ensures Inv(s) ==> Inv(Kept(AddPriorities(s, ctx, ps)))
  {
    if Inv(s) {
      AddPrioritiesKeepsInv(s, ctx, ps);
    }
  }

  lemma CreatingStatusesKeepsInv(s: Store, ctx: Org, sts: seq<NewStatus>)
    ensures Apply(s, Op.CreateStatuses(ctx, sts)) == AddStatuses(s, ctx, sts)
    ensures Inv(s) ==> Inv(AddStatuses(s, ctx, sts))
  {
    if Inv(s) {
      AddStatusesKeepsInv(s, ctx, sts);
    }
  }

  lemma NothingCreated(s: Store, ctx: Org, sts: seq<NewStatus>, ps: seq<NewPriority>)
    ensures NamesCreated(s.statuses, s.statuses, ctx, sts, 0)
    ensures RowsCreated(s.priorities, s.priorities, ctx, ps, 0)
  {
  }

  lemma OneMoreNameCreated(before: map<int, Status>, now: map<int, Status>, ctx: Org, sts: seq<NewStatus>, k: nat)
    requires k < |sts| && NamesCreated(before, now, ctx, sts, k) && sts[k].id !in now
    ensures var n := sts[k];
            NamesCreated(
              before,
              if HasStatusNamed(now, ctx, n.name) then now else now[n.id := Status(ctx, n.name, n.category)],
              ctx, sts, k + 1)
  {
    var n := sts[k];
    if !HasStatusNamed(now, ctx, n.name) {
      var after := now[n.id := Status(ctx, n.name, n.category)];
      assert after[n.id].name == n.name;
      forall j | 0 <= j < k
        ensures HasStatusNamed(after, ctx, sts[j].name)
      {
        assert HasStatusNamed(now, ctx, sts[j].name);
        var i :| i in now && now[i].org == ctx && now[i].name == sts[j].name;
        assert i in after && after[i] == now[i];
      }
      assert !HasStatusNamed(before, ctx, n.name);
    }
  }

  class Desk {
    var priorities: map<int, Priority>
    var statuses: map<int, Status>
    var slas: map<int, Sla>
    var tickets: map<int, Ticket>

    function State(): Store
      reads this
    {
      Store(priorities, statuses, slas, tickets)
    }

    constructor ()
      ensures State() == EMPTY && Inv(State())
    {
      priorities, statuses, slas, tickets := map[], map[], map[], map[];
    }

    // Whatever the state, what the steps of TicketStore keep.
    lemma StepsKeepInv()
      ensures Inv(State()) ==> forall op: Op :: Inv(Apply(State(), op)) <==> Harmless(State(), op)
    {
      if Inv(State()) {
        EveryStepKeepsInv(State());
      }
    }

    // ---------- find_one, filter and the validator ----------

    method FindStatus(ctx: Org, c: Category) returns (r: Option<int>)
      ensures r.Some? ==> r.value in statuses && statuses[r.value].org == ctx && statuses[r.value].category == c
      ensures r.None? ==> forall i | i in statuses :: statuses[i].org != ctx || statuses[i].category != c
    {
      if i :| i in statuses && statuses[i].org == ctx && statuses[i].category == c {
        return Some(i);
      }
      return None;
    }

    method FindSla(ctx: Org, priority: int) returns (r: Option<int>)
      ensures r.Some? ==> r.value in slas && slas[r.value].org == ctx && slas[r.value].priority == priority
      ensures r.None? ==> forall i | i in slas :: slas[i].org != ctx || slas[i].priority != priority
    {
      if i :| i in slas && slas[i].org == ctx && slas[i].priority == priority {
        return Some(i);
      }
      return None;
    }

    method TicketsWithPriority(ctx: Org, p: int) returns (found: set<int>)
      ensures found != {} <==> PriorityInUse(State(), ctx, p)
      ensures found != {} <==>
              exists i | i in tickets :: tickets[i].live && tickets[i].org == ctx && tickets[i].priority == Some(p)
    {
      found := set i | i in tickets && tickets[i].live && tickets[i].org == ctx && tickets[i].priority == Some(p);
      assert forall i :: i in found <==> i in tickets && SeesTicket(State(), ctx, i) && tickets[i].priority == Some(p);
      if forall i :: i !in found {
        assert found == {};
      }
    }

    method TicketsWithStatus(ctx: Org, st: int) returns (found: set<int>)
      ensures found != {} <==> StatusInUse(State(), ctx, st)
      ensures found != {} <==>
              exists i | i in tickets :: tickets[i].live && tickets[i].org == ctx && tickets[i].status == Some(st)
    {
      found := set i | i in tickets && tickets[i].live && tickets[i].org == ctx && tickets[i].status == Some(st);
      assert forall i :: i in found <==> i in tickets && SeesTicket(State(), ctx, i) && tickets[i].status == Some(st);
      if forall i :: i !in found {
        assert found == {};
      }
    }

    // ---------- tickets ----------

    /** Succeeds exactly when the organization has a pending status and an SLA for the
        priority, and the references are its own; the new ticket is unopened. */
    method CreateTicket(ctx: Org, priority: int, token: string, title: string, othersOk: bool, id: int)
      returns (ok: bool, status: int, sla: int)
      requires id !in tickets
      modifies this
      ensures State() == Apply(old(State()), Op.CreateTicket(ctx, id, priority, token, title, othersOk, status, sla))
      ensures Inv(old(State())) ==> Inv(State())
      ensures ok <==>
              && othersOk && priority in priorities && priorities[priority].org == ctx
              && (exists i | i in statuses :: statuses[i].org == ctx && statuses[i].category == Pending)
              && (exists i | i in slas :: slas[i].org == ctx && slas[i].priority == priority)
      ensures ok ==>
                && tickets == old(tickets)[
                     id := Ticket(ctx, title, token, true, None, Some(priority), Some(status), Some(sla))]
                && status in statuses && statuses[status].org == ctx && statuses[status].category == Pending
                && sla in slas && slas[sla].org == ctx && slas[sla].priority == priority
      ensures !ok ==> tickets == old(tickets)
      ensures priorities == old(priorities) && statuses == old(statuses) && slas == old(slas)
    {
      hide Inv;
      StepsKeepInv();
      ok, status, sla := false, 0, 0;
      var foundStatus := FindStatus(ctx, Pending);
      if foundStatus.None? {
        return;
      }
      var foundSla := FindSla(ctx, priority);
      if foundSla.None? {
        return;
      }
      status, sla := foundStatus.value, foundSla.value;
      if !(priority in priorities && priorities[priority].org == ctx) || !othersOk {
        return;
      }
      tickets := tickets[id := Ticket(ctx, title, token, true, None, Some(priority), Some(status), Some(sla))];
      ok := true;
    }

    method EditTicket(ctx: Org, id: int, edit: TicketEdit, othersOk: bool, slaTextOk: bool)
      returns (ok: bool, pick: int)
      modifies this
      ensures State() == Apply(old(State()), Op.EditTicket(ctx, id, edit, othersOk, slaTextOk, pick))
      ensures Inv(old(State())) ==>
                (Inv(State()) <==> Harmless(old(State()), Op.EditTicket(ctx, id, edit, othersOk, slaTextOk, pick)))
      ensures !ok ==> State() == old(State())
      ensures ok ==>
                && id in old(tickets) && id in tickets && tickets == old(tickets)[id := tickets[id]]
                && var was, row := old(tickets)[id], tickets[id];
                && row.org == was.org && row.token == was.token && row.live == was.live && row.openedAt == was.openedAt
                && Became(row.title, edit.title, was.title)
                && row.priority == (if edit.priority.Some? then edit.priority else was.priority)
                && row.status == (if edit.status.Some? then edit.status else was.status)
                && if edit.priority.None? then row.sla == (if edit.sla.Some? then edit.sla else was.sla)
                   else
                     && row.sla.Some? && row.sla.value in slas
                     && slas[row.sla.value].org == ctx && slas[row.sla.value].priority == edit.priority.value
      ensures priorities == old(priorities) && statuses == old(statuses) && slas == old(slas)
      ensures ok <==>
              && id in old(tickets) && old(tickets)[id].live && old(tickets)[id].org == ctx && othersOk
              && (edit.priority.Some? ==>
                    && edit.priority.value in priorities && priorities[edit.priority.value].org == ctx
                    && exists i | i in slas :: slas[i].org == ctx && slas[i].priority == edit.priority.value)
              && (edit.status.Some? ==> edit.status.value in statuses && statuses[edit.status.value].org == ctx)
              && (edit.priority.None? && edit.sla.Some? ==> slaTextOk && edit.sla.value in slas)
    {
      hide Inv, Harmless;
      StepsKeepInv();
      ok, pick := false, 0;
      if !(id in tickets && tickets[id].live && tickets[id].org == ctx) {
        return;
      }
      var data := edit;
      if data.priority.Some? {
        if !(data.priority.value in priorities && priorities[data.priority.value].org == ctx) {
          return;
        }
        var newSla := FindSla(ctx, data.priority.value);
        if newSla.None? {
          return;
        }
        pick := newSla.value;
        data := data.(sla := Some(pick));
      }
      if data.status.Some? && !(data.status.value in statuses && statuses[data.status.value].org == ctx) {
        return;
      }
      if !othersOk {
        return;
      }
      // the update: the database must take a bare sla_id's text, and its foreign key holds
      if data.sla.Some? && (data.sla.value !in slas || (edit.priority.None? && !slaTextOk)) {
        return;
      }
      var t := tickets[id];
      t := if data.title.Some? then t.(title := data.title.value) else t;
      t := if data.priority.Some? then t.(priority := data.priority) else t;
      t := if data.status.Some? then t.(status := data.status) else t;
      t := if data.sla.Some? then t.(sla := data.sla) else t;
      tickets := tickets[id := t];
      ok := true;
    }

    /** Opens the ticket at `now`, once, for whoever presents its token. */
    method ConfirmTicket(org: Org, id: int, token: string, now: int) returns (ok: bool, open: int)
      modifies this
      ensures State() == Apply(old(State()), Op.ConfirmTicket(org, id, token, now, open))
      ensures Inv(old(State())) ==> Inv(State())
      ensures !ok ==> State() == old(State())
      ensures ok ==>
                && id in old(tickets)
                && tickets == old(tickets)[id := old(tickets)[id].(status := Some(open), openedAt := Some(now))]
                && open in statuses && statuses[open].org == org && statuses[open].category == Open
      ensures priorities == old(priorities) && statuses == old(statuses) && slas == old(slas)
      ensures ok <==>
              && id in old(tickets) && old(tickets)[id].live && old(tickets)[id].org == org
              && old(tickets)[id].token == token && old(tickets)[id].openedAt == None
              && exists i | i in statuses :: statuses[i].org == org && statuses[i].category == Open
    {
      hide Inv;
      StepsKeepInv();
      ok, open := false, 0;
      if !(id in tickets && tickets[id].live && tickets[id].org == org && tickets[id].token == token) {
        return;
      }
      if tickets[id].openedAt != None {
        return;
      }
      var found := FindStatus(org, Open);
      if found.None? {
        return;
      }
      open := found.value;
      tickets := tickets[id := tickets[id].(status := Some(open), openedAt := Some(now))];
      ok := true;
    }

    method DeleteTicket(ctx: Org, id: int) returns (ok: bool)
      modifies this
      ensures State() == Apply(old(State()), Op.DeleteTicket(ctx, id))
      ensures Inv(old(State())) ==> Inv(State())
      ensures ok <==> id in old(tickets) && old(tickets)[id].live && old(tickets)[id].org == ctx
      ensures ok ==> tickets == old(tickets)[id := old(tickets)[id].(live := false)]
      ensures !ok ==> tickets == old(tickets)
      ensures priorities == old(priorities) && statuses == old(statuses) && slas == old(slas)
    {
      hide Inv;
      StepsKeepInv();
      ok := id in tickets && tickets[id].live && tickets[id].org == ctx;
      if ok {
        tickets := tickets[id := tickets[id].(live := false)];
      }
    }

    // ---------- SLAs ----------

    method RegisterSla(
      ctx: Org, priority: int, name: string, response: int, resolution: int, nameOk: bool, id: int)
      returns (ok: bool)
      requires id !in slas
      modifies this
      ensures State() == Apply(old(State()), Op.RegisterSla(ctx, id, priority, name, response, resolution, nameOk))
      ensures Inv(old(State())) ==> Inv(State())
      ensures ok <==>
              && response > 0 && resolution > 0 && nameOk
              && priority in priorities && priorities[priority].org == ctx
              && (ctx == None ||
                  forall i | i in old(slas) :: old(slas)[i].org != ctx || old(slas)[i].priority != priority)
      ensures ok ==> slas == old(slas)[id := Sla(ctx, priority, name, response, resolution)]
      ensures !ok ==> slas == old(slas)
      ensures priorities == old(priorities) && statuses == old(statuses) && tickets == old(tickets)
    {
      hide Inv;
      StepsKeepInv();
      ok := false;
      if response <= 0 || resolution <= 0 {
        return;
      }
      if !(priority in priorities && priorities[priority].org == ctx) {
        return;
      }
      if !SlaSlotFree(State(), ctx, priority, {}) || !nameOk {
        return;
      }
      slas := slas[id := Sla(ctx, priority, name, response, resolution)];
      ok := true;
    }

    method EditSla(ctx: Org, id: int, edit: SlaEdit, nameOk: bool) returns (ok: bool)
      modifies this
      ensures State() == Apply(old(State()), Op.EditSla(ctx, id, edit, nameOk))
      ensures Inv(old(State())) ==> (Inv(State()) <==> Harmless(old(State()), Op.EditSla(ctx, id, edit, nameOk)))
      ensures ok ==>
                && id in old(slas) && id in slas && slas == old(slas)[id := slas[id]]
                && var was, row := old(slas)[id], slas[id];
                && row.org == was.org
                && Became(row.name, edit.name, was.name) && Became(row.priority, edit.priority, was.priority)
                && Became(row.response, edit.response, was.response)
                && Became(row.resolution, edit.resolution, was.resolution)
      ensures priorities == old(priorities) && statuses == old(statuses) && tickets == old(tickets)
      ensures !ok ==> slas == old(slas)
      ensures ok <==>
              && id in old(slas) && old(slas)[id].org == ctx && nameOk
              && (edit.name.Some? || edit.response.Some? || edit.resolution.Some? || edit.priority.Some?)
              && (edit.response.Some? ==> edit.response.value > 0)
              && (edit.resolution.Some? ==> edit.resolution.value > 0)
              && (edit.priority.Some? ==>
                    edit.priority.value in priorities && priorities[edit.priority.value].org == ctx)
              && var p := if edit.priority.Some? then edit.priority.value else old(slas)[id].priority;
                 || ctx == None
                 || forall i | i in old(slas) && i != id :: old(slas)[i].org != ctx || old(slas)[i].priority != p
    {
      hide Inv, Harmless, SlaSlotFree;
      StepsKeepInv();
      ok := false;
      if (edit.response.Some? && edit.response.value <= 0) || (edit.resolution.Some? && edit.resolution.value <= 0) {
        return;
      }
      if !(id in slas && slas[id].org == ctx) {
        return;
      }
      if edit.name.None? && edit.response.None? && edit.resolution.None? && edit.priority.None? {
        return;
      }
      if edit.priority.Some? && !(edit.priority.value in priorities && priorities[edit.priority.value].org == ctx) {
        return;
      }
      // `update(sla_id, **data)` sets all given columns at once
      var a := EditedSla(slas[id], edit);
      SlotFreeBut(State(), ctx, a.priority, id);
      if !SlaSlotFree(State(), ctx, a.priority, {id}) || !nameOk {
        return;
      }
      slas := slas[id := a];
      ok := true;
    }

    // ON DELETE SET NULL for the tickets' `sla_id`.
    method DropSlaRows(gone: set<int>)
      modifies this
      ensures State() == RemoveSlas(old(State()), gone)
    {
      slas := slas - gone;
      var rows := tickets;
      tickets := map i | i in rows ::
        if rows[i].sla.Some? && rows[i].sla.value in gone then rows[i].(sla := None) else rows[i];
      assert forall i | i in tickets :: tickets[i] == RemoveSlas(old(State()), gone).tickets[i];
      assert tickets == RemoveSlas(old(State()), gone).tickets;
    }

    /** Refused while the tenant has a live ticket of the SLA's priority. */
    method DeleteSla(ctx: Org, id: int) returns (ok: bool)
      modifies this
      ensures State() == Apply(old(State()), Op.DeleteSla(ctx, id))
      ensures Inv(old(State())) ==> Inv(State())
      ensures ok <==>
              && id in old(slas) && old(slas)[id].org == ctx
              && forall i | i in old(tickets) && old(tickets)[i].live && old(tickets)[i].org == ctx ::
                   old(tickets)[i].priority != Some(old(slas)[id].priority)
      ensures ok ==>
                && slas == old(slas) - {id} && tickets.Keys == old(tickets).Keys
                && forall i | i in tickets :: tickets[i] ==
                     if old(tickets)[i].sla == Some(id) then old(tickets)[i].(sla := None) else old(tickets)[i]
      ensures !ok ==> State() == old(State())
      ensures priorities == old(priorities) && statuses == old(statuses)
    {
      hide Inv;
      StepsKeepInv();
      ok := false;
      if !(id in slas && slas[id].org == ctx) {
        return;
      }
      var users := TicketsWithPriority(ctx, slas[id].priority);
      if users != {} {
        return;
      }
      DropSlaRows({id});
      ok := true;
    }

    // ---------- priorities ----------

    /** Creates the rows in order up to the first conflict; those stay, and nothing else
        changes. */
    method CreatePriorities(ctx: Org, ps: seq<NewPriority>) returns (ok: bool, created: nat)
      requires forall j | 0 <= j < |ps| :: ps[j].id !in priorities
      requires forall j, k | 0 <= j < k < |ps| :: ps[j].id != ps[k].id
      modifies this
      ensures State() == Apply(old(State()), Op.CreatePriorities(ctx, ps))
      ensures Inv(old(State())) ==> Inv(State())
      ensures created <= |ps| && (ok <==> created == |ps|)
      ensures !ok ==> Clashes(priorities, ctx, ps[created].name, ps[created].level)
      ensures RowsCreated(old(priorities), priorities, ctx, ps, created)
      ensures statuses == old(statuses) && slas == old(slas) && tickets == old(tickets)
    {
      hide Apply, NameTaken, PrioritySlotFree, Inv, RowsCreated, Clashes;
      NothingCreated(State(), ctx, [], ps);
      CreatingPrioritiesKeepsInv(State(), ctx, ps);
      created := 0;
      while created < |ps|
        invariant 0 <= created <= |ps|
        invariant AddPriorities(old(State()), ctx, ps) == AddPriorities(State(), ctx, ps[created..])
        invariant forall j | created <= j < |ps| :: ps[j].id !in priorities
        invariant RowsCreated(old(priorities), priorities, ctx, ps, created)
        invariant statuses == old(statuses) && slas == old(slas) && tickets == old(tickets)
      {
        var p := ps[created];
        assert ps[created..][0] == p && ps[created..][1..] == ps[created + 1..];
        if NameTaken(State(), ctx, p.name) || !PrioritySlotFree(State(), Priority(ctx, p.name, p.level), {}) {
          MayAddUnlessClash(State(), ctx, p);
          return false, created;
        }
        MayAddUnlessClash(State(), ctx, p);
        OneMoreRowCreated(old(priorities), priorities, ctx, ps, created);
        priorities := priorities[p.id := Priority(ctx, p.name, p.level)];
        created := created + 1;
      }
      ok := true;
    }

    method EditPriority(ctx: Org, id: int, name: Option<string>, level: Option<int>) returns (ok: bool)
      modifies this
      ensures State() == Apply(old(State()), Op.EditPriority(ctx, id, name, level))
      ensures Inv(old(State())) ==> Inv(State())
      ensures ok ==>
                && id in old(priorities) && id in priorities && priorities == old(priorities)[id := priorities[id]]
                && var was, row := old(priorities)[id], priorities[id];
                && row.org == was.org && Became(row.name, name, was.name) && Became(row.level, level, was.level)
      ensures statuses == old(statuses) && slas == old(slas) && tickets == old(tickets)
      ensures !ok ==> priorities == old(priorities)
      ensures ok <==>
              && id in old(priorities) && old(priorities)[id].org == ctx
              && (ctx == None || forall i | i in old(priorities) && i != id && old(priorities)[i].org == ctx ::
                    && old(priorities)[i].name != (if name.Some? then name.value else old(priorities)[id].name)
                    && old(priorities)[i].level != (if level.Some? then level.value else old(priorities)[id].level))
    {
      hide Inv;
      StepsKeepInv();
      ok := false;
      if !(id in priorities && priorities[id].org == ctx) {
        return;
      }
      var p := priorities[id];
      p := if name.Some? then p.(name := name.value) else p;
      p := if level.Some? then p.(level := level.value) else p;
      if !PrioritySlotFree(State(), p, {id}) {
        return;
      }
      priorities := priorities[id := p];
      ok := true;
    }

    // ON DELETE CASCADE for the SLAs, SET NULL for the tickets' `priority_id`.
    method DropPriorityRow(id: int)
      modifies this
      ensures State() == RemovePriority(old(State()), id)
    {
      var orphans := set i | i in slas && slas[i].priority == id;
      assert orphans == SlasOfPriority(State(), id);
      DropSlaRows(orphans);
      ghost var t := State();
      priorities := priorities - {id};
      var rows := tickets;
      tickets := map i | i in rows :: if rows[i].priority == Some(id) then rows[i].(priority := None) else rows[i];
      assert tickets == map i | i in t.tickets :: t.tickets[i].(priority := Dropped(t.tickets[i].priority, {id}));
    }

    method DeletePriority(ctx: Org, id: int) returns (ok: bool)
      modifies this
      ensures State() == Apply(old(State()), Op.DeletePriority(ctx, id))
      ensures Inv(old(State())) ==> Inv(State())
      ensures ok <==>
              && id in old(priorities) && old(priorities)[id].org == ctx
              && forall i | i in old(tickets) && old(tickets)[i].live && old(tickets)[i].org == ctx ::
                   old(tickets)[i].priority != Some(id)
      ensures ok ==>
                && priorities == old(priorities) - {id}
                && slas == (map i | i in old(slas) && old(slas)[i].priority != id :: old(slas)[i])
                && tickets.Keys == old(tickets).Keys
                && forall i | i in tickets ::
                     var was, row := old(tickets)[i], tickets[i];
                     && row == was.(priority := row.priority, sla := row.sla)
                     && row.priority == (if was.priority == Some(id) then None else was.priority)
                     && row.sla == (if was.sla.Some? && was.sla.value in old(slas)
                                       && old(slas)[was.sla.value].priority == id then None else was.sla)
      ensures !ok ==> State() == old(State())
      ensures statuses == old(statuses)
    {
      hide Inv;
      StepsKeepInv();
      ok := false;
      if !(id in priorities && priorities[id].org == ctx) {
        return;
      }
      var users := TicketsWithPriority(ctx, id);
      if users != {} {
        return;
      }
      DropPriorityRow(id);
      ok := true;
    }

    // ---------- statuses ----------

    /** Afterwards the organization has a status of every given name; names it already has
        are skipped, and nothing else changes. */
    method CreateStatuses(ctx: Org, sts: seq<NewStatus>)
      requires forall j | 0 <= j < |sts| :: sts[j].id !in statuses
      requires forall j, k | 0 <= j < k < |sts| :: sts[j].id != sts[k].id
      modifies this
      ensures State() == Apply(old(State()), Op.CreateStatuses(ctx, sts))
      ensures Inv(old(State())) ==> Inv(State())
      ensures NamesCreated(old(statuses), statuses, ctx, sts, |sts|)
      ensures priorities == old(priorities) && slas == old(slas) && tickets == old(tickets)
    {
      hide Apply, Inv, NamesCreated;
      NothingCreated(State(), ctx, sts, []);
      CreatingStatusesKeepsInv(State(), ctx, sts);
      var k := 0;
      while k < |sts|
        invariant 0 <= k <= |sts|
        invariant AddStatuses(old(State()), ctx, sts) == AddStatuses(State(), ctx, sts[k..])
        invariant forall j | k <= j < |sts| :: sts[j].id !in statuses
        invariant NamesCreated(old(statuses), statuses, ctx, sts, k)
        invariant priorities == old(priorities) && slas == old(slas) && tickets == old(tickets)
      {
        var n := sts[k];
        assert sts[k..][0] == n && sts[k..][1..] == sts[k + 1..];
        OneMoreNameCreated(old(statuses), statuses, ctx, sts, k);
        if !exists i | i in statuses :: statuses[i].org == ctx && statuses[i].name == n.name {
          statuses := statuses[n.id := Status(ctx, n.name, n.category)];
        }
        k := k + 1;
      }
    }

    method EditStatus(ctx: Org, id: int, name: Option<string>, category: Option<Category>) returns (ok: bool)
      modifies this
      ensures State() == Apply(old(State()), Op.EditStatus(ctx, id, name, category))
      ensures Inv(old(State())) ==> Inv(State())
      ensures ok ==>
                && id in old(statuses) && id in statuses && statuses == old(statuses)[id := statuses[id]]
                && var was, row := old(statuses)[id], statuses[id];
                && row.org == was.org && Became(row.name, name, was.name)
                && Became(row.category, category, was.category)
      ensures priorities == old(priorities) && slas == old(slas) && tickets == old(tickets)
      ensures !ok ==> statuses == old(statuses)
      ensures ok <==>
              && id in old(statuses) && old(statuses)[id].org == ctx
              && (ctx == None || forall i | i in old(statuses) && i != id && old(statuses)[i].org == ctx ::
                    old(statuses)[i].name != (if name.Some? then name.value else old(statuses)[id].name))
    {
      hide Inv;
      StepsKeepInv();
      ok := false;
      if !(id in statuses && statuses[id].org == ctx) {
        return;
      }
      var st := statuses[id];
      st := if name.Some? then st.(name := name.value) else st;
      st := if category.Some? then st.(category := category.value) else st;
      if !StatusSlotFree(State(), st, {id}) {
        return;
      }
      statuses := statuses[id := st];
      ok := true;
    }

    method DeleteStatus(ctx: Org, id: int) returns (ok: bool)
      modifies this
      ensures State() == Apply(old(State()), Op.DeleteStatus(ctx, id))
      ensures Inv(old(State())) ==> Inv(State())
      ensures ok <==>
              && id in old(statuses) && old(statuses)[id].org == ctx
              && forall i | i in old(tickets) && old(tickets)[i].live && old(tickets)[i].org == ctx ::
                   old(tickets)[i].status != Some(id)
      ensures ok ==>
                && statuses == old(statuses) - {id}
                && tickets == map i | i in old(tickets) ::
                     if old(tickets)[i].status == Some(id) then old(tickets)[i].(status := None) else old(tickets)[i]
      ensures !ok ==> State() == old(State())
      ensures priorities == old(priorities) && slas == old(slas)
    {
      hide Inv;
      StepsKeepInv();
      ok := false;
      if !(id in statuses && statuses[id].org == ctx) {
        return;
      }
      var users := TicketsWithStatus(ctx, id);
      if users != {} {
        return;
      }
      statuses := statuses - {id};
      var rows := tickets;
      tickets := map i | i in rows :: if rows[i].status == Some(id) then rows[i].(status := None) else rows[i];
      assert forall i | i in tickets :: tickets[i] == RemoveStatus(old(State()), id).tickets[i];
      assert tickets == RemoveStatus(old(State()), id).tickets;
      ok := true;
    }
  }
}
