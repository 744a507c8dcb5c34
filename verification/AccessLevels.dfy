/** Team access levels: the bulk update loop of src/modules/team/router.py, the upsert in
    src/modules/organizations/router.py, and the soft delete that removes a level. */
module AccessLevels {
  import opened Wrappers
  import opened Tenants
  import opened Text

  datatype Row = Row(org: Org, member: int, team: int, level: string, live: bool)

  datatype Member = Member(org: Org, team: Option<int>)

  datatype Store = Store(rows: map<int, Row>, members: map<int, Member>, teams: set<int>)

  const LEAD := "LEAD"
  const MEMBER := "Member"
  const LEVEL_LENGTH := 20   // the column's; the database refuses a longer text

  predicate IsRow(s: Store, i: int, org: Org, member: int, team: int) {
    i in s.rows && s.rows[i].live && s.rows[i].org == org && s.rows[i].member == member && s.rows[i].team == team
  }

  predicate IsLead(s: Store, i: int, org: Org, team: int) {
    i in s.rows && s.rows[i].live && s.rows[i].org == org && s.rows[i].team == team && s.rows[i].level == LEAD
  }

  predicate Sees(s: Store, ctx: Org, member: int) {
    member in s.members && s.members[member].org == ctx
  }

  /** In each organization: one live row per member and team, one live lead per team. */
  predicate Inv(s: Store) {
    && (forall i, j | i in s.rows && j in s.rows && i != j ::
          s.rows[i].live && s.rows[j].live && s.rows[i].org == s.rows[j].org && s.rows[i].team == s.rows[j].team ==>
            s.rows[i].member != s.rows[j].member && !(s.rows[i].level == LEAD && s.rows[j].level == LEAD))
  }

  // ---------- one member of a bulk update ----------

  /** `id`: the key a new row would get. */
  datatype Item = Item(member: int, level: string, id: int)

  predicate AnotherLeads(s: Store, ctx: Org, team: int, member: int) {
    exists i | i in s.rows :: IsLead(s, i, ctx, team) && s.rows[i].member != member
  }

  predicate HasRow(s: Store, ctx: Org, member: int, team: int) {
    exists i | i in s.rows :: IsRow(s, i, ctx, member, team)
  }

  predicate Accepted(s: Store, ctx: Org, team: int, it: Item) {
    && Sees(s, ctx, it.member)
    && (Upper(it.level) == LEAD ==> !AnotherLeads(s, ctx, team, it.member))
    && (HasRow(s, ctx, it.member, team) || (it.id !in s.rows && team in s.teams))
    && |Upper(it.level)| <= LEVEL_LENGTH
  }

  /** Change the member's live rows for the team to `level`, or create one. */
  function Upsert(s: Store, ctx: Org, member: int, team: int, level: string, id: int): Store {
    if HasRow(s, ctx, member, team) then
      s.(rows := map i | i in s.rows ::
                   if IsRow(s, i, ctx, member, team) then s.rows[i].(level := level) else s.rows[i])
    else s.(rows := s.rows[id := Row(ctx, member, team, level, true)])
  }

  /** The loop: earlier members stay updated when a later one is refused. */
  function Bulk(s: Store, ctx: Org, team: int, items: seq<Item>): Result<Store, Store>
    decreases |items|
  {
    if items == [] then Success(s)
    else if !Accepted(s, ctx, team, items[0]) then Failure(s)
    else Bulk(Upsert(s, ctx, items[0].member, team, Upper(items[0].level), items[0].id), ctx, team, items[1..])
  }

  function Final(r: Result<Store, Store>): Store {
    match r
    case Success(s) => s
    case Failure(s) => s
  }

  // ---------- steps ----------

  datatype Op =
    | BulkUpdate(ctx: Org, team: int, items: seq<Item>)
    | UpdateMember(ctx: Org, member: int, toTeam: int, id: int)
    | RemoveLevel(ctx: Org, ofTeam: int, ofMember: int, pick: int)

  /** `soft_delete(where={"member_id": ...})` stamps any row of the member, deleted or not. */
  predicate MayPick(s: Store, ctx: Org, member: int, pick: int) {
    pick in s.rows && s.rows[pick].org == ctx && s.rows[pick].member == member
  }

  function Moved(s: Store, member: int, team: int): Store
    requires member in s.members
  {
    s.(members := s.members[member := s.members[member].(team := Some(team))])
  }

  function Apply(s: Store, op: Op): Store {
    match op
    case BulkUpdate(ctx, team, items) => Final(Bulk(s, ctx, team, items))
    case UpdateMember(ctx, member, team, id) =>
      if !Sees(s, ctx, member) || team !in s.teams || id in s.rows then s
      else Upsert(Moved(s, member, team), ctx, member, team, MEMBER, id)
    case RemoveLevel(ctx, team, member, pick) =>
      if !Sees(s, ctx, member) || s.members[member].team != Some(team) || !MayPick(s, ctx, member, pick) then s
      else s.(rows := s.rows[pick := s.rows[pick].(live := false)])
  }

  function Run(s: Store, ops: seq<Op>): Store
    decreases |ops|
  {
    if ops == [] then s else Run(Apply(s, ops[0]), ops[1..])
  }

  lemma UpsertKeepsInv(s: Store, ctx: Org, member: int, team: int, level: string, id: int)
    requires Inv(s) && (HasRow(s, ctx, member, team) || id !in s.rows)
    requires level == LEAD ==> !AnotherLeads(s, ctx, team, member)
    ensures Inv(Upsert(s, ctx, member, team, level, id))
  {
    if level == LEAD {
      assert forall i | i in s.rows && IsLead(s, i, ctx, team) :: s.rows[i].member == member;
    }
    if !HasRow(s, ctx, member, team) {
      assert forall i | i in s.rows :: !IsRow(s, i, ctx, member, team);
    }
  }

  lemma {:induction false} BulkKeepsInv(s: Store, ctx: Org, team: int, items: seq<Item>)
    requires Inv(s)
    ensures Inv(Final(Bulk(s, ctx, team, items)))
    decreases |items|
  {
    if items == [] || !Accepted(s, ctx, team, items[0]) {
    } else {
      var it := items[0];
      UpsertKeepsInv(s, ctx, it.member, team, Upper(it.level), it.id);
      BulkKeepsInv(Upsert(s, ctx, it.member, team, Upper(it.level), it.id), ctx, team, items[1..]);
    }
  }

  lemma StepKeepsInv(s: Store, op: Op)
    requires Inv(s)
    ensures Inv(Apply(s, op))
  {
    match op
    case BulkUpdate(ctx, team, items) => BulkKeepsInv(s, ctx, team, items);
    case UpdateMember(ctx, member, team, id) =>
      if Sees(s, ctx, member) && team in s.teams && id !in s.rows {
        UpsertKeepsInv(Moved(s, member, team), ctx, member, team, MEMBER, id);
      }
    case RemoveLevel(_, _, _, _) =>
  }

  /** Through any run, including updates refused part-way: one live row per member and
      team, and one lead per team, in each organization. */
  lemma {:induction false} RunKeepsInv(s: Store, ops: seq<Op>)
    requires Inv(s)
    ensures Inv(Run(s, ops))
    decreases |ops|
  {
    if ops == [] {
    } else {
      StepKeepsInv(s, ops[0]);
      RunKeepsInv(Apply(s, ops[0]), ops[1..]);
    }
  }

  /** A refused bulk update is the successful update of the members before the one that
      was refused. */
  lemma {:induction false} RefusedUpdateKeepsItsPrefix(s: Store, ctx: Org, team: int, items: seq<Item>)
    requires Bulk(s, ctx, team, items).Failure?
    ensures exists k: nat :: k < |items| && StopsAt(s, ctx, team, items, k)
    decreases |items|
  {
    if !Accepted(s, ctx, team, items[0]) {
      assert items[..0] == [];
      assert StopsAt(s, ctx, team, items, 0);
    } else {
      var s' := Upsert(s, ctx, items[0].member, team, Upper(items[0].level), items[0].id);
      RefusedUpdateKeepsItsPrefix(s', ctx, team, items[1..]);
      var k: nat :| k < |items[1..]| && StopsAt(s', ctx, team, items[1..], k);
      assert items[..k + 1][0] == items[0] && items[..k + 1][1..] == items[1..][..k];
      assert StopsAt(s, ctx, team, items, k + 1);
    }
  }

  predicate StopsAt(s: Store, ctx: Org, team: int, items: seq<Item>, k: nat)
    requires k < |items|
  {
    && Bulk(s, ctx, team, items[..k]) == Success(Final(Bulk(s, ctx, team, items)))
    && !Accepted(Final(Bulk(s, ctx, team, items)), ctx, team, items[k])
  }

  // ---------- the rows after an update ----------

  /** Each live row of the member for the team has the level, and when there was none there is
      a new one; every other row is as it was. */
  predicate Saved(
    before: map<int, Row>, after: map<int, Row>, org: Org, member: int, team: int, level: string, id: int)
  {
    && (forall i | i in before :: i in after && after[i] ==
          if before[i].live && before[i].org == org && before[i].member == member && before[i].team == team
          then before[i].(level := level) else before[i])
    && (forall i | i in after && i !in before :: i == id && after[i] == Row(org, member, team, level, true))
    && (id in after && id !in before <==>
          forall i | i in before ::
            !(before[i].live && before[i].org == org && before[i].member == member && before[i].team == team))
  }

  lemma UpsertSaves(s: Store, ctx: Org, member: int, team: int, level: string, id: int)
    requires HasRow(s, ctx, member, team) || id !in s.rows
    ensures var s' := Upsert(s, ctx, member, team, level, id);
            Saved(s.rows, s'.rows, ctx, member, team, level, id) && s' == s.(rows := s'.rows)
  {
    if i :| i in s.rows && IsRow(s, i, ctx, member, team) {
    } else {
      assert forall i | i in s.rows :: !IsRow(s, i, ctx, member, team);
    }
  }

  /** One member of a bulk update is accepted exactly when it is the organization's, no other
      member leads the team if LEAD is asked for (so the lead may be named again), it has a
      row or can get one, and the level fits; its row is then saved and nothing else changes. */
  lemma OneMemberUpdate(s: Store, ctx: Org, team: int, it: Item)
    ensures Bulk(s, ctx, team, [it]).Success? <==>
            && it.member in s.members && s.members[it.member].org == ctx
            && (Upper(it.level) == "LEAD" ==>
                  forall i | i in s.rows && s.rows[i].live && s.rows[i].org == ctx && s.rows[i].team == team
                             && s.rows[i].level == "LEAD" :: s.rows[i].member == it.member)
            && ((exists i | i in s.rows :: s.rows[i].live && s.rows[i].org == ctx
                                           && s.rows[i].member == it.member && s.rows[i].team == team)
                || (it.id !in s.rows && team in s.teams))
            && |it.level| <= 20
    ensures var s' := Final(Bulk(s, ctx, team, [it]));
            if Bulk(s, ctx, team, [it]).Failure? then s' == s
            else Saved(s.rows, s'.rows, ctx, it.member, team, Upper(it.level), it.id) && s' == s.(rows := s'.rows)
  {
    assert HasRow(s, ctx, it.member, team) <==>
           exists i | i in s.rows :: s.rows[i].live && s.rows[i].org == ctx
                                     && s.rows[i].member == it.member && s.rows[i].team == team by {
      if i :|
        && i in s.rows && s.rows[i].live
        && s.rows[i].org == ctx && s.rows[i].member == it.member && s.rows[i].team == team
      {
        assert IsRow(s, i, ctx, it.member, team);
      }
    }
    assert AnotherLeads(s, ctx, team, it.member) <==>
           !forall i | i in s.rows && s.rows[i].live && s.rows[i].org == ctx && s.rows[i].team == team
                       && s.rows[i].level == "LEAD" :: s.rows[i].member == it.member by {
      if i :|
        && i in s.rows && s.rows[i].live && s.rows[i].org == ctx && s.rows[i].team == team
        && s.rows[i].level == "LEAD" && s.rows[i].member != it.member
      {
        assert IsLead(s, i, ctx, team);
      }
    }
    assert |Upper(it.level)| == |it.level|;
    assert [it][1..] == [];
    if Accepted(s, ctx, team, it) {
      UpsertSaves(s, ctx, it.member, team, Upper(it.level), it.id);
    }
  }

  /** A bulk update of two lists is the second after the first, which is not tried when the
      first is refused. */
  lemma {:induction false} BulkInTwoParts(s: Store, ctx: Org, team: int, a: seq<Item>, b: seq<Item>)
    ensures Bulk(s, ctx, team, a + b) ==
            if Bulk(s, ctx, team, a).Failure? then Bulk(s, ctx, team, a)
            else Bulk(Final(Bulk(s, ctx, team, a)), ctx, team, b)
    decreases |a|
  {
    if a == [] {
      assert a + b == b;
    } else {
      assert (a + b)[0] == a[0] && (a + b)[1..] == a[1..] + b;
      if Accepted(s, ctx, team, a[0]) {
        var s' := Upsert(s, ctx, a[0].member, team, Upper(a[0].level), a[0].id);
        BulkInTwoParts(s', ctx, team, a[1..], b);
      }
    }
  }

  predicate HasLevel(s: Store, ctx: Org, member: int, team: int, level: string) {
    exists i | i in s.rows :: IsRow(s, i, ctx, member, team) && s.rows[i].level == level
  }

  lemma UpsertSetsLevel(s: Store, ctx: Org, member: int, team: int, level: string, id: int)
    requires HasRow(s, ctx, member, team) || id !in s.rows
    ensures var s' := Upsert(s, ctx, member, team, level, id);
            && HasLevel(s', ctx, member, team, level)
            && forall m, l | m != member :: HasLevel(s, ctx, m, team, l) ==> HasLevel(s', ctx, m, team, l)
  {
    var s' := Upsert(s, ctx, member, team, level, id);
    if i :| i in s.rows && IsRow(s, i, ctx, member, team) {
      assert IsRow(s', i, ctx, member, team);
    } else {
      assert IsRow(s', id, ctx, member, team);
    }
    forall m, l | m != member && HasLevel(s, ctx, m, team, l)
      ensures HasLevel(s', ctx, m, team, l)
    {
      var i :| i in s.rows && IsRow(s, i, ctx, m, team) && s.rows[i].level == l;
      assert IsRow(s', i, ctx, m, team) && s'.rows[i].level == l;
    }
  }

  lemma {:induction false} BulkLeavesOthers(s: Store, ctx: Org, team: int, items: seq<Item>, m: int, l: string)
    requires Bulk(s, ctx, team, items).Success? && HasLevel(s, ctx, m, team, l)
    requires forall it | it in items :: it.member != m
    ensures HasLevel(Final(Bulk(s, ctx, team, items)), ctx, m, team, l)
    decreases |items|
  {
    if items == [] {
    } else {
      var it := items[0];
      UpsertSetsLevel(s, ctx, it.member, team, Upper(it.level), it.id);
      BulkLeavesOthers(Upsert(s, ctx, it.member, team, Upper(it.level), it.id), ctx, team, items[1..], m, l);
    }
  }

  /** A bulk update that succeeds leaves each member with the level last asked for. */
  lemma {:induction false} SuccessfulUpdateSetsEveryLevel(s: Store, ctx: Org, team: int, items: seq<Item>, k: nat)
    requires Bulk(s, ctx, team, items).Success? && k < |items|
    requires forall j | k < j < |items| :: items[j].member != items[k].member
    ensures HasLevel(Final(Bulk(s, ctx, team, items)), ctx, items[k].member, team, Upper(items[k].level))
    decreases |items|
  {
    var it := items[0];
    var s' := Upsert(s, ctx, it.member, team, Upper(it.level), it.id);
    if k > 0 {
      SuccessfulUpdateSetsEveryLevel(s', ctx, team, items[1..], k - 1);
    } else {
      UpsertSetsLevel(s, ctx, it.member, team, Upper(it.level), it.id);
      BulkLeavesOthers(s', ctx, team, items[1..], it.member, Upper(it.level));
    }
  }

  /** Removing a level asks only for the member's rows, so it is sure to end the level in
      this team exactly when the member has no other row, live or deleted, anywhere in the
      organization. */
  lemma RemovalIsSureOnlyForASingleRow(s: Store, ctx: Org, team: int, member: int, row: int)
    requires Inv(s) && IsRow(s, row, ctx, member, team)
    requires Sees(s, ctx, member) && s.members[member].team == Some(team)
    ensures (forall pick | MayPick(s, ctx, member, pick) ::
               !HasRow(Apply(s, RemoveLevel(ctx, team, member, pick)), ctx, member, team))
            <==> (forall i | MayPick(s, ctx, member, i) :: i == row)
  {
    forall pick | MayPick(s, ctx, member, pick)
      ensures HasRow(Apply(s, RemoveLevel(ctx, team, member, pick)), ctx, member, team) <==> pick != row
    {
      var s' := Apply(s, RemoveLevel(ctx, team, member, pick));
      if pick != row {
        assert IsRow(s', row, ctx, member, team);
      } else {
        forall i | i in s'.rows
          ensures !IsRow(s', i, ctx, member, team)
        {
          assert IsRow(s', i, ctx, member, team) ==> IsRow(s, i, ctx, member, team) && i != row;
        }
      }
    }
  }

  /** A member who moved from team 1 to team 2 has a row in each; removing the level in team 2
      may stamp the row of team 1 and leave team 2's. */
  lemma RemovalCanStampTheWrongRow()
    ensures var start := Store(map[], map[9 := Member(Some(1), None)], {1, 2});
            var ops := [UpdateMember(Some(1), 9, 1, 1), UpdateMember(Some(1), 9, 2, 2), RemoveLevel(Some(1), 2, 9, 1)];
            var s := Run(start, ops);
            && Inv(start)
            && HasLevel(s, Some(1), 9, 2, MEMBER) && !HasRow(s, Some(1), 9, 1)
  {
    var start := Store(map[], map[9 := Member(Some(1), None)], {1, 2});
    var ops := [UpdateMember(Some(1), 9, 1, 1), UpdateMember(Some(1), 9, 2, 2), RemoveLevel(Some(1), 2, 9, 1)];
    var s1 := Apply(start, ops[0]);
    assert s1.rows == map[1 := Row(Some(1), 9, 1, MEMBER, true)];
    var s2 := Apply(s1, ops[1]);
    assert s2.rows == map[1 := Row(Some(1), 9, 1, MEMBER, true), 2 := Row(Some(1), 9, 2, MEMBER, true)];
    var s3 := Apply(s2, ops[2]);
    assert s3.rows == map[1 := Row(Some(1), 9, 1, MEMBER, false), 2 := Row(Some(1), 9, 2, MEMBER, true)];
    assert ops[1..][1..][1..] == [];
    assert Run(start, ops) == Run(s1, ops[1..]) == Run(s2, ops[1..][1..]) == s3;
    assert IsRow(s3, 2, Some(1), 9, 2);
  }

  class Levels {
    var rows: map<int, Row>
    var members: map<int, Member>
    var teams: set<int>

    function State(): Store
      reads this
    {
      Store(rows, members, teams)
    }

    // `find_one` for the member's row, then update or create.
    method Save(ctx: Org, member: int, team: int, level: string, id: int)
      requires Inv(State()) && (HasRow(State(), ctx, member, team) || id !in rows)
      modifies this`rows
      ensures State() == Upsert(old(State()), ctx, member, team, level, id)
      ensures Saved(old(rows), rows, ctx, member, team, level, id)
    {
      UpsertSaves(State(), ctx, member, team, level, id);
      if i :| i in rows && rows[i].live && rows[i].org == ctx && rows[i].member == member && rows[i].team == team {
        assert IsRow(State(), i, ctx, member, team);
        rows := rows[i := rows[i].(level := level)];
        assert rows == Upsert(old(State()), ctx, member, team, level, id).rows;
      } else {
        assert forall j | j in rows :: !IsRow(State(), j, ctx, member, team);
        rows := rows[id := Row(ctx, member, team, level, true)];
      }
    }

    /** Raises at the first member that is unknown, would be a second lead or is given a level
        too long for its column; the members before it stay updated. */
    method UpdateTeamMembersAccessLevel(ctx: Org, team: int, items: seq<Item>) returns (ok: bool)
      requires Inv(State())
      modifies this`rows
      ensures Inv(State()) && State() == Apply(old(State()), BulkUpdate(ctx, team, items))
      ensures ok <==> Bulk(old(State()), ctx, team, items).Success?
    {
      var k := 0;
      while k < |items|
        invariant 0 <= k <= |items| && Inv(State()) && members == old(members) && teams == old(teams)
        invariant Bulk(old(State()), ctx, team, items) == Bulk(State(), ctx, team, items[k..])
      {
        var it := items[k];
        assert items[k..][0] == it && items[k..][1..] == items[k + 1..];
        var level := Upper(it.level);
        if !(it.member in members && members[it.member].org == ctx) {
          return false;
        }
        if level == LEAD {
          if lead :|
            && lead in rows && rows[lead].live
            && rows[lead].org == ctx && rows[lead].team == team && rows[lead].level == LEAD
          {
            assert IsLead(State(), lead, ctx, team);
            if rows[lead].member != it.member {
              return false;
            }
            assert forall i | i in rows && IsLead(State(), i, ctx, team) :: i == lead;
          }
          assert !AnotherLeads(State(), ctx, team, it.member);
        }
        if !HasRow(State(), ctx, it.member, team) && (it.id in rows || team !in teams) {
          return false;
        }
        if |level| > LEVEL_LENGTH {
          return false;
        }
        UpsertKeepsInv(State(), ctx, it.member, team, level, it.id);
        Save(ctx, it.member, team, level, it.id);
        k := k + 1;
      }
      return true;
    }

    method UpdateMemberLevel(ctx: Org, member: int, team: int, id: int) returns (ok: bool)
      requires Inv(State()) && id !in rows
      modifies this
      ensures Inv(State()) && State() == Apply(old(State()), UpdateMember(ctx, member, team, id))
      ensures ok <==> member in old(members) && old(members)[member].org == ctx && team in old(teams)
      ensures !ok ==> State() == old(State())
      ensures ok ==>
                && members == old(members)[member := old(members)[member].(team := Some(team))]
                && teams == old(teams)
                && Saved(old(rows), rows, ctx, member, team, "Member", id)
    {
      StepKeepsInv(State(), UpdateMember(ctx, member, team, id));
      if !(member in members && members[member].org == ctx) || team !in teams {
        return false;
      }
      members := members[member := members[member].(team := Some(team))];
      Save(ctx, member, team, MEMBER, id);
      return true;
    }

    method RemoveMemberAccessLevel(ctx: Org, team: int, member: int) returns (found: bool, pick: int)
      requires Inv(State())
      modifies this`rows
      ensures Inv(State()) && State() == Apply(old(State()), RemoveLevel(ctx, team, member, pick))
      ensures found <==>
              member in members && members[member].org == ctx && members[member].team == Some(team)
      ensures if found && exists i | i in old(rows) :: old(rows)[i].org == ctx && old(rows)[i].member == member then
                && pick in old(rows) && old(rows)[pick].org == ctx && old(rows)[pick].member == member
                && rows == old(rows)[pick := old(rows)[pick].(live := false)]
              else rows == old(rows)
    {
      found, pick := false, 0;
      if !(member in members && members[member].org == ctx && members[member].team == Some(team)) {
        return;
      }
      found := true;
      if i :| i in rows && rows[i].org == ctx && rows[i].member == member {
        pick := i;
        StepKeepsInv(State(), RemoveLevel(ctx, team, member, pick));
        rows := rows[i := rows[i].(live := false)];
      } else {
        assert forall j :: !MayPick(State(), ctx, member, j);
      }
    }
  }
}
