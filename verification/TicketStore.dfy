/** The ticket database as a state machine: tickets, priorities, statuses and SLAs, the
    handlers of src/modules/ticket/services as atomic steps, and what every run keeps.

    A `first()` without an ORDER BY returns any matching row, and an inserted row gets any
    unused id: both choices are parameters of the step. A step whose guards fail, or
    whose choice the database could not have made, changes nothing. */
module TicketStore {
  import opened Wrappers
  import opened Tenants
  import Text

  datatype Category = Open | Pending | Closed | Reopened

  datatype Priority = Priority(org: Org, name: string, level: int)

  datatype Status = Status(org: Org, name: string, category: Category)

  datatype Sla = Sla(org: Org, priority: int, name: string, response: int, resolution: int)

  datatype Ticket = Ticket(
    org: Org, title: string, token: string, live: bool, openedAt: Option<int>,
    priority: Option<int>, status: Option<int>, sla: Option<int>)

  datatype Store = Store(
    priorities: map<int, Priority>, statuses: map<int, Status>,
    slas: map<int, Sla>, tickets: map<int, Ticket>)

  // ---------- what find_one and the tenant validator can see ----------

  predicate SeesTicket(s: Store, ctx: Org, id: int) {
    id in s.tickets && s.tickets[id].live && s.tickets[id].org == ctx
  }

  predicate OwnsPriority(s: Store, ctx: Org, id: int) {
    id in s.priorities && s.priorities[id].org == ctx
  }

  predicate OwnsStatus(s: Store, ctx: Org, id: int) {
    id in s.statuses && s.statuses[id].org == ctx
  }

  predicate OwnsSla(s: Store, ctx: Org, id: int) {
    id in s.slas && s.slas[id].org == ctx
  }

  predicate IsStatusOf(s: Store, ctx: Org, c: Category, id: int) {
    OwnsStatus(s, ctx, id) && s.statuses[id].category == c
  }

  predicate IsSlaFor(s: Store, ctx: Org, priority: int, id: int) {
    OwnsSla(s, ctx, id) && s.slas[id].priority == priority
  }

  // ---------- the database's own duties ----------

  /** UNIQUE ignores rows whose organization is NULL. */
  predicate SlaSlotFree(s: Store, org: Org, priority: int, except: set<int>) {
    org == None || forall i | i in s.slas && i !in except :: !(s.slas[i].org == org && s.slas[i].priority == priority)
  }

  predicate PrioritySlotFree(s: Store, p: Priority, except: set<int>) {
    p.org == None ||
    forall i | i in s.priorities && i !in except ::
      s.priorities[i].org == p.org ==> s.priorities[i].name != p.name && s.priorities[i].level != p.level
  }

  predicate StatusSlotFree(s: Store, st: Status, except: set<int>) {
    st.org == None ||
    forall i | i in s.statuses && i !in except ::
      s.statuses[i].org == st.org ==> s.statuses[i].name != st.name
  }

  function Dropped(ref: Option<int>, gone: set<int>): Option<int> {
    if ref.Some? && ref.value in gone then None else ref
  }

  /** Removing SLA rows sets the tickets' `sla_id` to NULL. */
  function RemoveSlas(s: Store, gone: set<int>): Store {
    s.(slas := s.slas - gone,
       tickets := map i | i in s.tickets :: s.tickets[i].(sla := Dropped(s.tickets[i].sla, gone)))
  }

  function SlasOfPriority(s: Store, p: int): set<int> {
    set i | i in s.slas && s.slas[i].priority == p
  }

  /** Removing a priority cascades to its SLAs and sets the tickets' references to NULL. */
  function RemovePriority(s: Store, p: int): Store {
    var t := RemoveSlas(s, SlasOfPriority(s, p));
    t.(priorities := t.priorities - {p},
       tickets := map i | i in t.tickets :: t.tickets[i].(priority := Dropped(t.tickets[i].priority, {p})))
  }

  function RemoveStatus(s: Store, st: int): Store {
    s.(statuses := s.statuses - {st},
       tickets := map i | i in s.tickets :: s.tickets[i].(status := Dropped(s.tickets[i].status, {st})))
  }

  // ---------- steps ----------

  datatype TicketEdit = TicketEdit(
    title: Option<string>, priority: Option<int>, status: Option<int>, sla: Option<int>)

  datatype SlaEdit = SlaEdit(
    name: Option<string>, response: Option<int>, resolution: Option<int>, priority: Option<int>)

  datatype NewPriority = NewPriority(id: int, name: string, level: int)

  datatype NewStatus = NewStatus(id: int, name: string, category: Category)

  /** `othersOk`: the department belongs to the tenant and the database accepts the
      customer and assignee references. `slaTextOk`: the database takes the payload's
      `sla_id`, which is text, for its integer column. `nameOk`: the database takes the
      SLA's name, which one of its schemas makes unique over all tenants. `status`, `sla`,
      `pick`, `open` and the new ids are the database's choices. */
  datatype Op =
    | CreateTicket(
        ctx: Org, id: int, priority: int, token: string, title: string, othersOk: bool, status: int, sla: int)
    | EditTicket(ctx: Org, ticket: int, edit: TicketEdit, othersOk: bool, slaTextOk: bool, pick: int)
    | ConfirmTicket(org: Org, ticket: int, given: string, now: int, open: int)
    | DeleteTicket(ctx: Org, ticket: int)
    | RegisterSla(ctx: Org, newId: int, forPriority: int, name: string, response: int, resolution: int, nameOk: bool)
    | EditSla(ctx: Org, target: int, slaEdit: SlaEdit, nameOk: bool)
    | DeleteSla(ctx: Org, target: int)
    | CreatePriorities(ctx: Org, priorities: seq<NewPriority>)
    | EditPriority(ctx: Org, target: int, newName: Option<string>, newLevel: Option<int>)
    | DeletePriority(ctx: Org, target: int)
    | CreateStatuses(ctx: Org, statuses: seq<NewStatus>)
    | EditStatus(ctx: Org, target: int, newName: Option<string>, newCategory: Option<Category>)
    | DeleteStatus(ctx: Org, target: int)

  function OrElse<T>(given: Option<T>, current: T): T {
    if given.Some? then given.value else current
  }

  predicate MayCreateTicket(s: Store, op: Op)
    requires op.CreateTicket?
  {
    && IsStatusOf(s, op.ctx, Pending, op.status) && IsSlaFor(s, op.ctx, op.priority, op.sla)
    && OwnsPriority(s, op.ctx, op.priority) && op.othersOk && op.id !in s.tickets
  }

  predicate MayEditTicket(s: Store, op: Op)
    requires op.EditTicket?
  {
    var e := op.edit;
    && SeesTicket(s, op.ctx, op.ticket) && op.othersOk
    && (e.priority.Some? ==>
          OwnsPriority(s, op.ctx, e.priority.value) && IsSlaFor(s, op.ctx, e.priority.value, op.pick))
    && (e.status.Some? ==> OwnsStatus(s, op.ctx, e.status.value))
    && (e.priority.None? && e.sla.Some? ==> op.slaTextOk && e.sla.value in s.slas)
  }

  /** The row after an edit. A new priority brings its own SLA and overrides a bare one. */
  function Edited(t: Ticket, e: TicketEdit, pick: int): Ticket {
    t.(title := OrElse(e.title, t.title),
       priority := if e.priority.Some? then e.priority else t.priority,
       status := if e.status.Some? then e.status else t.status,
       sla := if e.priority.Some? then Some(pick) else if e.sla.Some? then e.sla else t.sla)
  }

  predicate MayConfirm(s: Store, op: Op)
    requires op.ConfirmTicket?
  {
    && SeesTicket(s, op.org, op.ticket) && s.tickets[op.ticket].token == op.given
    && s.tickets[op.ticket].openedAt == None && IsStatusOf(s, op.org, Open, op.open)
  }

  predicate BudgetOk(b: Option<int>) {
    b.Some? ==> b.value > 0
  }

  predicate MayRegisterSla(s: Store, op: Op)
    requires op.RegisterSla?
  {
    && op.response > 0 && op.resolution > 0 && OwnsPriority(s, op.ctx, op.forPriority)
    && op.newId !in s.slas && SlaSlotFree(s, op.ctx, op.forPriority, {}) && op.nameOk
  }

  predicate MayEditPriority(s: Store, op: Op)
    requires op.EditPriority?
  {
    OwnsPriority(s, op.ctx, op.target) && PrioritySlotFree(s, EditedPriority(s.priorities[op.target], op), {op.target})
  }

  function EditedPriority(p: Priority, op: Op): Priority
    requires op.EditPriority?
  {
    Priority(p.org, OrElse(op.newName, p.name), OrElse(op.newLevel, p.level))
  }

  predicate MayEditStatus(s: Store, op: Op)
    requires op.EditStatus?
  {
    OwnsStatus(s, op.ctx, op.target) && StatusSlotFree(s, EditedStatus(s.statuses[op.target], op), {op.target})
  }

  function EditedStatus(st: Status, op: Op): Status
    requires op.EditStatus?
  {
    Status(st.org, OrElse(op.newName, st.name), OrElse(op.newCategory, st.category))
  }

  predicate MayEditSla(s: Store, op: Op)
    requires op.EditSla?
  {
    var e := op.slaEdit;
    && OwnsSla(s, op.ctx, op.target) && e != SlaEdit(None, None, None, None)
    && BudgetOk(e.response) && BudgetOk(e.resolution)
    && (e.priority.Some? ==> OwnsPriority(s, op.ctx, e.priority.value))
    && SlaSlotFree(s, op.ctx, OrElse(e.priority, s.slas[op.target].priority), {op.target}) && op.nameOk
  }

  function EditedSla(a: Sla, e: SlaEdit): Sla {
    a.(priority := OrElse(e.priority, a.priority), name := OrElse(e.name, a.name),
       response := OrElse(e.response, a.response), resolution := OrElse(e.resolution, a.resolution))
  }

  predicate PriorityInUse(s: Store, ctx: Org, p: int) {
    exists i | i in s.tickets :: SeesTicket(s, ctx, i) && s.tickets[i].priority == Some(p)
  }

  predicate StatusInUse(s: Store, ctx: Org, st: int) {
    exists i | i in s.tickets :: SeesTicket(s, ctx, i) && s.tickets[i].status == Some(st)
  }

  predicate NameTaken(s: Store, ctx: Org, name: string) {
    exists i | i in s.priorities :: s.priorities[i].org == ctx && Text.Lower(s.priorities[i].name) == Text.Lower(name)
  }

  /** Rows are created one at a time; the first conflict ends the call, keeping the rest. */
  function AddPriorities(s: Store, ctx: Org, ps: seq<NewPriority>): Result<Store, Store>
    decreases |ps|
  {
    if ps == [] then Success(s)
    else if !MayAddPriority(s, ctx, ps[0]) then Failure(s)
    else AddPriorities(WithPriority(s, ctx, ps[0]), ctx, ps[1..])
  }

  function Kept(r: Result<Store, Store>): Store {
    match r
    case Success(s) => s
    case Failure(s) => s
  }

  function WithPriority(s: Store, ctx: Org, p: NewPriority): Store {
    s.(priorities := s.priorities[p.id := Priority(ctx, p.name, p.level)])
  }

  predicate MayAddPriority(s: Store, ctx: Org, p: NewPriority) {
    && !NameTaken(s, ctx, p.name) && p.id !in s.priorities
    && PrioritySlotFree(s, Priority(ctx, p.name, p.level), {})
  }

  /** A status whose name the organization already has is skipped, not refused. */
  function AddStatuses(s: Store, ctx: Org, sts: seq<NewStatus>): Store
    decreases |sts|
  {
    if sts == [] then s else AddStatuses(AddStatus(s, ctx, sts[0]), ctx, sts[1..])
  }

  function AddStatus(s: Store, ctx: Org, n: NewStatus): Store {
    if n.id in s.statuses || exists i | i in s.statuses :: s.statuses[i].org == ctx && s.statuses[i].name == n.name
    then s
    else s.(statuses := s.statuses[n.id := Status(ctx, n.name, n.category)])
  }

  function Apply(s: Store, op: Op): Store {
    match op
    case CreateTicket(ctx, id, priority, token, title, _, status, sla) =>
      if !MayCreateTicket(s, op) then s
      else
        var t := Ticket(ctx, title, token, true, None, Some(priority), Some(status), Some(sla));
        s.(tickets := s.tickets[id := t])
    case EditTicket(_, id, e, _, _, pick) =>
      if !MayEditTicket(s, op) then s
      else s.(tickets := s.tickets[id := Edited(s.tickets[id], e, pick)])
    case ConfirmTicket(_, id, _, now, open) =>
      if !MayConfirm(s, op) then s
      else s.(tickets := s.tickets[id := s.tickets[id].(status := Some(open), openedAt := Some(now))])
    case DeleteTicket(ctx, id) =>
      if !SeesTicket(s, ctx, id) then s
      else s.(tickets := s.tickets[id := s.tickets[id].(live := false)])
    case RegisterSla(ctx, id, p, name, response, resolution, _) =>
      if !MayRegisterSla(s, op) then s
      else s.(slas := s.slas[id := Sla(ctx, p, name, response, resolution)])
    case EditSla(_, id, e, _) =>
      if !MayEditSla(s, op) then s else s.(slas := s.slas[id := EditedSla(s.slas[id], e)])
    case DeleteSla(ctx, id) =>
      if !OwnsSla(s, ctx, id) || PriorityInUse(s, ctx, s.slas[id].priority) then s else RemoveSlas(s, {id})
    case CreatePriorities(ctx, ps) => Kept(AddPriorities(s, ctx, ps))
    case EditPriority(_, id, _, _) =>
      if !MayEditPriority(s, op) then s
      else s.(priorities := s.priorities[id := EditedPriority(s.priorities[id], op)])
    case DeletePriority(ctx, id) =>
      if !OwnsPriority(s, ctx, id) || PriorityInUse(s, ctx, id) then s else RemovePriority(s, id)
    case CreateStatuses(ctx, sts) => AddStatuses(s, ctx, sts)
    case EditStatus(_, id, _, _) =>
      if !MayEditStatus(s, op) then s
      else s.(statuses := s.statuses[id := EditedStatus(s.statuses[id], op)])
    case DeleteStatus(ctx, id) =>
      if !OwnsStatus(s, ctx, id) || StatusInUse(s, ctx, id) then s else RemoveStatus(s, id)
  }

  function Run(s: Store, ops: seq<Op>): Store
    decreases |ops|
  {
    if ops == [] then s else Run(Apply(s, ops[0]), ops[1..])
  }

  // ---------- the invariant ----------

  /** An SLA has positive budgets and a priority of its own organization. */
  predicate SlaSound(s: Store, a: Sla) {
    && a.response > 0 && a.resolution > 0
    && a.priority in s.priorities && s.priorities[a.priority].org == a.org
  }

  /** No reference dangles; this the database guarantees for deleted tickets too. */
  predicate NothingDangles(s: Store, t: Ticket) {
    && (t.priority.Some? ==> t.priority.value in s.priorities)
    && (t.status.Some? ==> t.status.value in s.statuses)
    && (t.sla.Some? ==> t.sla.value in s.slas)
  }

  /** A live ticket's status, priority and SLA exist and are its own organization's, and
      the SLA is the one for that priority. */
  predicate References(s: Store, t: Ticket) {
    && t.priority.Some? && OwnsPriority(s, t.org, t.priority.value)
    && t.status.Some? && OwnsStatus(s, t.org, t.status.value)
    && t.sla.Some? && IsSlaFor(s, t.org, t.priority.value, t.sla.value)
  }

  predicate OneSlaPerPriority(s: Store) {
    forall i, j | i in s.slas && j in s.slas ::
      s.slas[i].org == s.slas[j].org && s.slas[i].org != None && s.slas[i].priority == s.slas[j].priority ==> i == j
  }

  predicate Inv(s: Store) {
    && (forall i | i in s.slas :: SlaSound(s, s.slas[i]))
    && (forall i | i in s.tickets :: NothingDangles(s, s.tickets[i]))
    && (forall i | i in s.tickets && s.tickets[i].live :: References(s, s.tickets[i]))
    && OneSlaPerPriority(s)
  }

  const EMPTY := Store(map[], map[], map[], map[])

  // ---------- which steps keep it ----------

  predicate SlaInUse(s: Store, a: int) {
    exists i | i in s.tickets :: s.tickets[i].live && s.tickets[i].sla == Some(a)
  }

  /** The two edits the guards overlook: moving an SLA that live tickets use to another
      priority, and giving a ticket an SLA that is not its organization's for its priority. */
  predicate Harmless(s: Store, op: Op) {
    && (op.EditSla? && MayEditSla(s, op) ==>
          || OrElse(op.slaEdit.priority, s.slas[op.target].priority) == s.slas[op.target].priority
          || !SlaInUse(s, op.target))
    && (op.EditTicket? && MayEditTicket(s, op) && op.edit.priority.None? && op.edit.sla.Some? ==>
          var t := s.tickets[op.ticket];
          s.slas[op.edit.sla.value].org == t.org && Some(s.slas[op.edit.sla.value].priority) == t.priority)
  }

  lemma AddPrioritiesKeepsInv(s: Store, ctx: Org, ps: seq<NewPriority>)
    requires Inv(s)
    ensures Inv(Kept(AddPriorities(s, ctx, ps)))
    decreases |ps|
  {
    if ps == [] || !MayAddPriority(s, ctx, ps[0]) {
    } else {
      var s' := WithPriority(s, ctx, ps[0]);
      assert Inv(s');
      AddPrioritiesKeepsInv(s', ctx, ps[1..]);
    }
  }

  lemma AddStatusesKeepsInv(s: Store, ctx: Org, sts: seq<NewStatus>)
    requires Inv(s)
    ensures Inv(AddStatuses(s, ctx, sts))
    decreases |sts|
  {
    if sts == [] {
    } else {
      assert Inv(AddStatus(s, ctx, sts[0]));
      AddStatusesKeepsInv(AddStatus(s, ctx, sts[0]), ctx, sts[1..]);
    }
  }

  /** The guard looks for live tickets of the SLA's *priority*; by the invariant those
      include every live ticket that uses the SLA. */
  lemma DeleteSlaKeepsInv(s: Store, ctx: Org, id: int)
    requires Inv(s)
    ensures Inv(Apply(s, DeleteSla(ctx, id)))
  {
    var s' := Apply(s, DeleteSla(ctx, id));
    if OwnsSla(s, ctx, id) && !PriorityInUse(s, ctx, s.slas[id].priority) {
      forall i | i in s.tickets && s.tickets[i].live
        ensures References(s', s'.tickets[i])
      {
        assert References(s, s.tickets[i]);
        assert !(SeesTicket(s, ctx, i) && s.tickets[i].priority == Some(s.slas[id].priority));
      }
    }
  }

  /** Deleting a priority takes its SLAs with it; no live ticket used either. */
  lemma DeletePriorityKeepsInv(s: Store, ctx: Org, id: int)
    requires Inv(s)
    ensures Inv(Apply(s, DeletePriority(ctx, id)))
  {
    var s' := Apply(s, DeletePriority(ctx, id));
    if OwnsPriority(s, ctx, id) && !PriorityInUse(s, ctx, id) {
      forall i | i in s.tickets && s.tickets[i].live
        ensures References(s', s'.tickets[i])
      {
        assert References(s, s.tickets[i]);
        assert !(SeesTicket(s, ctx, i) && s.tickets[i].priority == Some(id));
      }
      forall i | i in s'.slas
        ensures SlaSound(s', s'.slas[i])
      {
        assert SlaSound(s, s.slas[i]) && i !in SlasOfPriority(s, id);
      }
    }
  }

  lemma DeleteStatusKeepsInv(s: Store, ctx: Org, id: int)
    requires Inv(s)
    ensures Inv(Apply(s, DeleteStatus(ctx, id)))
  {
    var s' := Apply(s, DeleteStatus(ctx, id));
    if OwnsStatus(s, ctx, id) && !StatusInUse(s, ctx, id) {
      forall i | i in s.tickets && s.tickets[i].live
        ensures References(s', s'.tickets[i])
      {
        assert References(s, s.tickets[i]);
        assert !(SeesTicket(s, ctx, i) && s.tickets[i].status == Some(id));
      }
    }
  }

  /** Moving an SLA's priority keeps the invariant exactly when no live ticket uses it. */
  lemma EditSlaKeepsInv(s: Store, op: Op)
    requires Inv(s) && op.EditSla?
    ensures Inv(Apply(s, op)) <==> Harmless(s, op)
  {
    var s' := Apply(s, op);
    if MayEditSla(s, op) {
      if Harmless(s, op) {
        forall i | i in s.tickets && s.tickets[i].live
          ensures References(s', s'.tickets[i])
        {
          assert References(s, s.tickets[i]);
        }
      } else {
        var i :| i in s.tickets && s.tickets[i].live && s.tickets[i].sla == Some(op.target);
        assert References(s, s.tickets[i]) && !References(s', s'.tickets[i]);
      }
    }
  }

  lemma EditTicketKeepsInv(s: Store, op: Op)
    requires Inv(s) && op.EditTicket?
    ensures Inv(Apply(s, op)) <==> Harmless(s, op)
  {
    var s' := Apply(s, op);
    if MayEditTicket(s, op) {
      assert References(s, s.tickets[op.ticket]);
      assert References(s', s'.tickets[op.ticket]) <==> Harmless(s, op);
      forall i | i in s.tickets && i != op.ticket
        ensures NothingDangles(s', s'.tickets[i]) && (s.tickets[i].live ==> References(s', s'.tickets[i]))
      {
        assert NothingDangles(s, s.tickets[i]);
      }
    }
  }

  lemma TicketStepsKeepInv(s: Store, op: Op)
    requires Inv(s) && (op.CreateTicket? || op.ConfirmTicket? || op.DeleteTicket?)
    ensures Inv(Apply(s, op))
  {
  }

  lemma RegistrationsKeepInv(s: Store, op: Op)
    requires Inv(s) && (op.RegisterSla? || op.EditPriority? || op.EditStatus?)
    ensures Inv(Apply(s, op))
  {
  }

  /** Every step keeps the invariant, except exactly the harmful cases of the two edits. */
  lemma StepKeepsInv(s: Store, op: Op)
    requires Inv(s)
    ensures Inv(Apply(s, op)) <==> Harmless(s, op)
  {
    hide Inv;
    match op
    case EditTicket(_, _, _, _, _, _) => EditTicketKeepsInv(s, op);
    case EditSla(_, _, _, _) => EditSlaKeepsInv(s, op);
    case DeleteSla(ctx, id) => DeleteSlaKeepsInv(s, ctx, id);
    case DeletePriority(ctx, id) => DeletePriorityKeepsInv(s, ctx, id);
    case DeleteStatus(ctx, id) => DeleteStatusKeepsInv(s, ctx, id);
    case CreatePriorities(ctx, ps) => AddPrioritiesKeepsInv(s, ctx, ps);
    case CreateStatuses(ctx, sts) => AddStatusesKeepsInv(s, ctx, sts);
    case RegisterSla(_, _, _, _, _, _, _) => RegistrationsKeepInv(s, op);
    case EditPriority(_, _, _, _) => RegistrationsKeepInv(s, op);
    case EditStatus(_, _, _, _) => RegistrationsKeepInv(s, op);
    case _ => TicketStepsKeepInv(s, op);
  }

  lemma EveryStepKeepsInv(s: Store)
    requires Inv(s)
    ensures forall op: Op :: Inv(Apply(s, op)) <==> Harmless(s, op)
  {
    hide Inv, Apply, Harmless;
    forall op: Op
      ensures Inv(Apply(s, op)) <==> Harmless(s, op)
    {
      StepKeepsInv(s, op);
    }
  }

  predicate HarmlessRun(s: Store, ops: seq<Op>)
    decreases |ops|
  {
    ops == [] || (Harmless(s, ops[0]) && HarmlessRun(Apply(s, ops[0]), ops[1..]))
  }

  /** Whatever the interleaving of tenants and handlers, as long as each of the two edits
      is harmless where it happens. */
  lemma {:induction false} RunKeepsInv(s: Store, ops: seq<Op>)
    requires Inv(s) && HarmlessRun(s, ops)
    ensures Inv(Run(s, ops))
    decreases |ops|
  {
    if ops == [] {
    } else {
      StepKeepsInv(s, ops[0]);
      RunKeepsInv(Apply(s, ops[0]), ops[1..]);
    }
  }

  /** A run with no SLA moved and no bare `sla_id` is harmless throughout. */
  predicate Ordinary(op: Op) {
    && (op.EditSla? ==> op.slaEdit.priority == None)
    && (op.EditTicket? ==> op.edit.priority.Some? || op.edit.sla == None)
  }

  /** From the empty database: every live ticket's status, priority and SLA are there, are its
      organization's, and the SLA is the priority's. */
  lemma {:induction false} OrdinaryRunKeepsReferences(ops: seq<Op>)
    requires forall op | op in ops :: Ordinary(op)
    ensures var s := Run(EMPTY, ops);
            && Inv(s)
            && forall i | i in s.tickets && s.tickets[i].live ::
                 var t := s.tickets[i];
                 && t.status.Some? && t.status.value in s.statuses && s.statuses[t.status.value].org == t.org
                 && t.priority.Some? && t.priority.value in s.priorities
                 && s.priorities[t.priority.value].org == t.org
                 && t.sla.Some? && t.sla.value in s.slas && s.slas[t.sla.value].org == t.org
                 && s.slas[t.sla.value].priority == t.priority.value
                 && s.slas[t.sla.value].response > 0 && s.slas[t.sla.value].resolution > 0
  {
    OrdinaryIsHarmless(EMPTY, ops);
    RunKeepsInv(EMPTY, ops);
  }

  lemma {:induction false} OrdinaryIsHarmless(s: Store, ops: seq<Op>)
    requires forall op | op in ops :: Ordinary(op)
    ensures HarmlessRun(s, ops)
    decreases |ops|
  {
    if ops == [] {
    } else {
      assert Ordinary(ops[0]);
      OrdinaryIsHarmless(Apply(s, ops[0]), ops[1..]);
    }
  }

  // ---------- opened_at is write-once ----------

  /** What one step may do to a ticket row that exists: it stays, with its organization
      and token; once deleted it stays deleted; once opened it keeps that time. */
  predicate Continues(a: Ticket, b: Ticket) {
    && b.org == a.org && b.token == a.token
    && (b.live ==> a.live)
    && (a.openedAt.Some? ==> b.openedAt == a.openedAt)
  }

  predicate AllContinue(s: Store, s': Store) {
    forall i | i in s.tickets :: i in s'.tickets && Continues(s.tickets[i], s'.tickets[i])
  }

  lemma AddedRowsLeaveTickets(s: Store, ctx: Org, ps: seq<NewPriority>, sts: seq<NewStatus>)
    ensures Kept(AddPriorities(s, ctx, ps)).tickets == s.tickets
    ensures AddStatuses(s, ctx, sts).tickets == s.tickets
    decreases |ps| + |sts|
  {
    if ps == [] && sts == [] {
    } else {
      if ps != [] && MayAddPriority(s, ctx, ps[0]) {
        AddedRowsLeaveTickets(WithPriority(s, ctx, ps[0]), ctx, ps[1..], []);
      }
      if sts != [] {
        AddedRowsLeaveTickets(AddStatus(s, ctx, sts[0]), ctx, [], sts[1..]);
      }
    }
  }

  /** Only a confirmation that presents the ticket's own token opens it. */
  lemma OnlyConfirmationOpens(s: Store, op: Op, i: int)
    requires i in s.tickets
    ensures AllContinue(s, Apply(s, op))
    ensures Apply(s, op).tickets[i].openedAt != s.tickets[i].openedAt ==>
              && op.ConfirmTicket? && op.ticket == i && op.given == s.tickets[i].token
              && op.org == s.tickets[i].org && s.tickets[i].live
              && s.tickets[i].openedAt == None
              && Apply(s, op).tickets[i].openedAt == Some(op.now)
              && Apply(s, op).tickets[i].status == Some(op.open) && IsStatusOf(s, op.org, Open, op.open)
  {
    if !op.ConfirmTicket? {
      OtherStepsOpenNothing(s, op);
    }
  }

  lemma OtherStepsOpenNothing(s: Store, op: Op)
    requires !op.ConfirmTicket?
    ensures AllContinue(s, Apply(s, op))
    ensures forall i | i in s.tickets :: Apply(s, op).tickets[i].openedAt == s.tickets[i].openedAt
  {
    hide PrioritySlotFree, StatusSlotFree, SlaSlotFree, PriorityInUse, StatusInUse;
    hide MayEditSla, MayEditPriority, MayEditStatus, MayRegisterSla;
    match op
    case CreatePriorities(ctx, ps) => AddedRowsLeaveTickets(s, ctx, ps, []);
    case CreateStatuses(ctx, sts) => AddedRowsLeaveTickets(s, ctx, [], sts);
    case _ =>
  }

  lemma {:induction false} RunContinues(s: Store, ops: seq<Op>)
    ensures AllContinue(s, Run(s, ops))
    decreases |ops|
  {
    if ops == [] {
    } else {
      if i :| i in s.tickets {
        OnlyConfirmationOpens(s, ops[0], i);
      }
      RunContinues(Apply(s, ops[0]), ops[1..]);
    }
  }

  /** Once a ticket is opened, whatever happens in between, confirming it again fails and
      changes nothing. */
  lemma SecondConfirmationChangesNothing(s: Store, ops: seq<Op>, again: Op)
    requires again.ConfirmTicket?
    requires again.ticket in s.tickets && s.tickets[again.ticket].openedAt.Some?
    ensures Apply(Run(s, ops), again) == Run(s, ops)
    ensures again.ticket in Run(s, ops).tickets
    ensures Run(s, ops).tickets[again.ticket].openedAt == s.tickets[again.ticket].openedAt
  {
    RunContinues(s, ops);
  }

  // ---------- the overlooked edit, concretely ----------

  const SETUP: seq<Op> := [
    CreateStatuses(Some(1), [NewStatus(1, "pending", Pending)]),
    CreatePriorities(Some(1), [NewPriority(1, "high", 1), NewPriority(2, "low", 2)]),
    RegisterSla(Some(1), 1, 1, "fast", 60, 600, true),
    CreateTicket(Some(1), 1, 1, "token", "title", true, 1, 1)]

  const MOVE := EditSla(Some(1), 1, SlaEdit(None, None, None, Some(2)), true)

  lemma SetUpRuns()
    ensures var s := Run(EMPTY, SETUP);
            && s.priorities == map[1 := Priority(Some(1), "high", 1), 2 := Priority(Some(1), "low", 2)]
            && s.statuses == map[1 := Status(Some(1), "pending", Pending)]
            && s.slas == map[1 := Sla(Some(1), 1, "fast", 60, 600)]
            && s.tickets == map[1 := Ticket(Some(1), "title", "token", true, None, Some(1), Some(1), Some(1))]
  {
    var s1 := Apply(EMPTY, SETUP[0]);
    assert s1 == AddStatus(EMPTY, Some(1), NewStatus(1, "pending", Pending));
    var s2 := Apply(s1, SETUP[1]);
    var half := s1.(priorities := s1.priorities[1 := Priority(Some(1), "high", 1)]);
    assert s2 == Kept(AddPriorities(half, Some(1), [NewPriority(2, "low", 2)]));
    assert Text.Lower("high")[0] == 'h' && Text.Lower("low")[0] == 'l';
    assert s2.priorities == half.priorities[2 := Priority(Some(1), "low", 2)];
    var s3 := Apply(s2, SETUP[2]);
    var s4 := Apply(s3, SETUP[3]);
    assert SETUP[1..][1..][1..][1..] == [];
    assert Run(EMPTY, SETUP) == Run(s1, SETUP[1..]) == Run(s2, SETUP[1..][1..])
        == Run(s3, SETUP[1..][1..][1..]) == s4;
  }

  /** The failing trace: the SLA is moved to the other priority, and then the deletion
      guard, which asks for tickets of the *new* priority, lets the SLA go while a live
      ticket still uses it. */
  lemma MovedSlaCanBeDeletedUnderItsTicket()
    ensures var s := Run(EMPTY, SETUP);
            && Inv(s) && !Harmless(s, MOVE)
            && var s' := Apply(Apply(s, MOVE), DeleteSla(Some(1), 1));
            && 1 in s'.tickets && s'.tickets[1].live && s'.tickets[1].sla == None
  {
    SetUpRuns();
    OrdinaryRunKeepsReferences(SETUP);
    var s := Run(EMPTY, SETUP);
    assert MayEditSla(s, MOVE);
    assert s.tickets[1].sla == Some(1);
    assert !PriorityInUse(Apply(s, MOVE), Some(1), 2);
  }

  /** The other overlooked edit: a ticket of one priority is given the SLA of another. If the
      database refuses the payload's text for its integer column, as its asyncpg driver
      does, the whole edit fails and nothing changes. */
  lemma BareSlaEditDependsOnTheDriver(accepted: bool)
    ensures var s := Apply(Run(EMPTY, SETUP), RegisterSla(Some(1), 2, 2, "slow", 120, 1200, true));
            var edit := EditTicket(Some(1), 1, TicketEdit(None, None, None, Some(2)), true, accepted, 0);
            && Inv(s)
            && (Harmless(s, edit) <==> !accepted)
            && if accepted then !Inv(Apply(s, edit)) && 1 in s.tickets && Apply(s, edit).tickets[1].sla == Some(2)
               else Apply(s, edit) == s
  {
    SetUpRuns();
    OrdinaryRunKeepsReferences(SETUP);
    var s0 := Run(EMPTY, SETUP);
    var second := RegisterSla(Some(1), 2, 2, "slow", 120, 1200, true);
    StepKeepsInv(s0, second);
    assert MayRegisterSla(s0, second);
    var s := Apply(s0, second);
    StepKeepsInv(s, EditTicket(Some(1), 1, TicketEdit(None, None, None, Some(2)), true, accepted, 0));
    assert s.tickets[1].priority == Some(1) && s.slas[2].priority == 2;
  }
}
