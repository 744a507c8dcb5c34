/** Ticket messages and their version log (src/modules/ticket/services/conversation.py):
    sending writes version 1, mail coming in writes none, each edit appends the next. */
module MessageVersions {
  import opened Wrappers
  import opened Tenants

  datatype Message = Message(org: Org, content: string, fromEmail: bool)

  datatype Version = Version(org: Org, message: int, number: int, content: string)

  datatype Store = Store(messages: map<int, Message>, versions: seq<Version>)

  const EMPTY := Store(map[], [])

  datatype Op =
    | Send(ctx: Org, id: int, content: string)
    | FromEmail(org: Org, id: int, content: string)
    | Edit(ctx: Org, id: int, content: string)

  /** The message's rows of the version table, oldest first, whichever tenant wrote them. */
  function LogOf(log: seq<Version>, m: int): (r: seq<Version>)
    ensures forall v :: v in r <==> v in log && v.message == m
  {
    if log == [] then []
    else LogOf(log[..|log| - 1], m) + if log[|log| - 1].message == m then [log[|log| - 1]] else []
  }

  function Texts(vs: seq<Version>): (r: seq<string>)
    ensures |r| == |vs|
  {
    seq(|vs|, k requires 0 <= k < |vs| => vs[k].content)
  }

  // ---------- check_previous_version ----------

  /** What the tenant-scoped filter returns. */
  function Visible(log: seq<Version>, ctx: Org, m: int): (r: seq<Version>)
    ensures forall v :: v in r <==> v in log && v.message == m && v.org == ctx
  {
    if log == [] then []
    else
      var v := log[|log| - 1];
      Visible(log[..|log| - 1], ctx, m) + if v.message == m && v.org == ctx then [v] else []
  }

  function MaxNumber(vs: seq<Version>): (n: int)
    requires vs != []
    ensures exists v | v in vs :: v.number == n
    ensures forall v | v in vs :: v.number <= n
  {
    var last := vs[|vs| - 1];
    if |vs| == 1 then last.number
    else
      var n := MaxNumber(vs[..|vs| - 1]);
      assert forall v | v in vs :: v in vs[..|vs| - 1] || v == last;
      if last.number > n then last.number else n
  }

  function PreviousVersion(log: seq<Version>, ctx: Org, m: int): Option<int> {
    if Visible(log, ctx, m) == [] then None else Some(MaxNumber(Visible(log, ctx, m)))
  }

  /** `if not version`: neither None nor 0 counts as a previous version. */
  function NextVersion(log: seq<Version>, ctx: Org, m: int): int {
    var v := PreviousVersion(log, ctx, m);
    if v == None || v == Some(0) then 1 else v.value + 1
  }

  /** The next number is one above the tenant's highest for the message, and 1 when the tenant
      has none. */
  lemma NextVersionFollowsTheHighest(log: seq<Version>, ctx: Org, m: int, n: int)
    ensures (forall v | v in log :: v.message != m || v.org != ctx) ==> NextVersion(log, ctx, m) == 1
    ensures (exists v | v in log :: v.message == m && v.org == ctx && v.number == n)
            && (forall v | v in log && v.message == m && v.org == ctx :: v.number <= n) ==>
              NextVersion(log, ctx, m) == n + 1
  {
    var vs := Visible(log, ctx, m);
    if vs != [] {
      assert vs[0] in vs;
      var top :| top in vs && top.number == MaxNumber(vs);
    }
  }

  // ---------- steps ----------

  predicate Accepted(s: Store, op: Op) {
    if op.Edit? then op.id in s.messages && s.messages[op.id].org == op.ctx else op.id !in s.messages
  }

  function Apply(s: Store, op: Op): Store {
    if !Accepted(s, op) then s
    else match op
      case Send(ctx, id, c) =>
        Store(s.messages[id := Message(ctx, c, false)], s.versions + [Version(ctx, id, 1, c)])
      case FromEmail(org, id, c) => s.(messages := s.messages[id := Message(org, c, true)])
      case Edit(ctx, id, c) =>
        Store(s.messages[id := s.messages[id].(content := c)],
              s.versions + [Version(ctx, id, NextVersion(s.versions, ctx, id), c)])
  }

  function Run(s: Store, ops: seq<Op>): Store
    decreases |ops|
  {
    if ops == [] then s else Run(Apply(s, ops[0]), ops[1..])
  }

  // ---------- what every run keeps ----------

  /** The message's log is numbered 1, 2, ..., n, belongs to the message's organization, ends
      with the current content, and is empty only for unedited mail. */
  predicate WellLogged(s: Store, m: int) {
    var l := LogOf(s.versions, m);
    if m !in s.messages then l == []
    else
      && (forall k | 0 <= k < |l| :: l[k].number == k + 1 && l[k].org == s.messages[m].org)
      && (l != [] ==> l[|l| - 1].content == s.messages[m].content)
      && (l == [] ==> s.messages[m].fromEmail)
  }

  ghost predicate Inv(s: Store) {
    forall m :: WellLogged(s, m)
  }

  lemma LogOfAppend(log: seq<Version>, v: Version, m: int)
    ensures LogOf(log + [v], m) == LogOf(log, m) + if v.message == m then [v] else []
    ensures forall ctx :: Visible(log + [v], ctx, m)
                          == Visible(log, ctx, m) + if v.message == m && v.org == ctx then [v] else []
  {
    assert (log + [v])[..|log|] == log;
  }

  // Every version of a message is its own tenant's, so the scoped lookup misses none.
  lemma {:induction false} ScopedLookupSeesAll(log: seq<Version>, ctx: Org, m: int)
    requires forall v | v in LogOf(log, m) :: v.org == ctx
    ensures Visible(log, ctx, m) == LogOf(log, m)
  {
    if log == [] {
    } else {
      var init, last := log[..|log| - 1], log[|log| - 1];
      assert forall v | v in LogOf(init, m) :: v in LogOf(log, m);
      assert last.message == m ==> last in LogOf(log, m);
      ScopedLookupSeesAll(init, ctx, m);
    }
  }

  lemma NextNumberFollowsTheLast(s: Store, m: int)
    requires WellLogged(s, m) && m in s.messages
    ensures NextVersion(s.versions, s.messages[m].org, m) == |LogOf(s.versions, m)| + 1
  {
    var l := LogOf(s.versions, m);
    ScopedLookupSeesAll(s.versions, s.messages[m].org, m);
    if l != [] {
      assert l[|l| - 1] in l;
    }
  }

  // The log of `m` after one step: at most one more row, the step's own.
  lemma StepExtendsLog(s: Store, op: Op, m: int)
    ensures var s' := Apply(s, op);
            if Accepted(s, op) && !op.FromEmail? && op.id == m then
              && s'.versions != []
              && s'.versions[|s'.versions| - 1].content == op.content
              && LogOf(s'.versions, m) == LogOf(s.versions, m) + [s'.versions[|s'.versions| - 1]]
            else LogOf(s'.versions, m) == LogOf(s.versions, m)
  {
    if Accepted(s, op) && !op.FromEmail? {
      LogOfAppend(s.versions, Apply(s, op).versions[|s.versions|], m);
    }
  }

  lemma StepKeepsWellLogged(s: Store, op: Op, m: int)
    requires WellLogged(s, m)
    ensures WellLogged(Apply(s, op), m)
  {
    hide LogOf, NextVersion;
    StepExtendsLog(s, op, m);
    if Accepted(s, op) && op.Edit? && op.id == m {
      NextNumberFollowsTheLast(s, m);
    }
  }

  lemma StepKeepsInv(s: Store, op: Op)
    requires Inv(s)
    ensures Inv(Apply(s, op))
  {
    forall m
      ensures WellLogged(Apply(s, op), m)
    {
      assert WellLogged(s, m);
      StepKeepsWellLogged(s, op, m);
    }
  }

  lemma {:induction false} RunKeepsInv(s: Store, ops: seq<Op>)
    requires Inv(s)
    ensures Inv(Run(s, ops))
    decreases |ops|
  {
    if ops == [] {
    } else {
      StepKeepsInv(s, ops[0]);
      RunKeepsInv(Apply(s, ops[0]), ops[1..]);
    }
  }

  // ---------- the log replays the history ----------

  /** What was ever written into message `m` by people using the desk: the text it was
      sent with, if it was sent, and then the text of every accepted edit, in order. */
  function Written(s: Store, ops: seq<Op>, m: int): seq<string>
    decreases |ops|
  {
    if ops == [] then [] else WrittenBy(s, ops[0], m) + Written(Apply(s, ops[0]), ops[1..], m)
  }

  function WrittenBy(s: Store, op: Op, m: int): seq<string> {
    if Accepted(s, op) && op.id == m && !op.FromEmail? then [op.content] else []
  }

  lemma TextsAppend(l: seq<Version>, v: Version)
    ensures Texts(l + [v]) == Texts(l) + [v.content]
  {
  }

  lemma StepWrites(s: Store, op: Op, m: int)
    ensures Texts(LogOf(Apply(s, op).versions, m)) == Texts(LogOf(s.versions, m)) + WrittenBy(s, op, m)
  {
    hide LogOf, Texts, Apply;
    StepExtendsLog(s, op, m);
    var s' := Apply(s, op);
    if Accepted(s, op) && !op.FromEmail? && op.id == m {
      TextsAppend(LogOf(s.versions, m), s'.versions[|s'.versions| - 1]);
    }
  }

  lemma {:induction false} LogReplaysWritten(s: Store, ops: seq<Op>, m: int)
    ensures Texts(LogOf(Run(s, ops).versions, m)) == Texts(LogOf(s.versions, m)) + Written(s, ops, m)
    decreases |ops|
  {
    hide LogOf, Texts, Apply, WrittenBy;
    if ops == [] {
      assert Texts(LogOf(s.versions, m)) + [] == Texts(LogOf(s.versions, m));
    } else {
      var s' := Apply(s, ops[0]);
      var texts, first, later := Texts(LogOf(s.versions, m)), WrittenBy(s, ops[0], m), Written(s', ops[1..], m);
      StepWrites(s, ops[0], m);
      LogReplaysWritten(s', ops[1..], m);
      assert (texts + first) + later == texts + (first + later);
    }
  }

  lemma NothingIsWellLogged()
    ensures Inv(EMPTY)
  {
  }

  lemma LogFromNothing(ops: seq<Op>, m: int)
    ensures Texts(LogOf(Run(EMPTY, ops).versions, m)) == Written(EMPTY, ops, m)
  {
    hide Run, Written;
    LogReplaysWritten(EMPTY, ops, m);
    assert LogOf([], m) == [] && Texts(LogOf([], m)) == [];
  }

  /** From the empty store, whatever the operations: the versions of a message are exactly
      1..n with the texts written to it in order, and version n is its current content. */
  lemma VersionLogIsFaithful(ops: seq<Op>, m: int)
    requires m in Run(EMPTY, ops).messages
    ensures var s := Run(EMPTY, ops);
            var l := LogOf(s.versions, m);
            && |l| == |Written(EMPTY, ops, m)|
            && (forall k | 0 <= k < |l| :: l[k].number == k + 1 && l[k].content == Written(EMPTY, ops, m)[k])
            && (l != [] ==> l[|l| - 1].content == s.messages[m].content)
            && (l == [] ==> s.messages[m].fromEmail)
  {
    hide Run, Written, LogOf, Texts;
    NothingIsWellLogged();
    RunKeepsInv(EMPTY, ops);
    var s := Run(EMPTY, ops);
    assert WellLogged(s, m);
    LogFromNothing(ops, m);
    var l := LogOf(s.versions, m);
    TextsAt(l, Written(EMPTY, ops, m));
  }

  /** The last text written to or mailed as `m`; a message's current content. */
  function LastText(s: Store, ops: seq<Op>, m: int): Option<string>
    decreases |ops|
  {
    if ops == [] then None
    else
      var later := LastText(Apply(s, ops[0]), ops[1..], m);
      if later.Some? then later
      else if ops[0].id != m then None
      else match ops[0]
        case Send(_, _, text) => if m in s.messages then None else Some(text)
        case FromEmail(_, _, text) => if m in s.messages then None else Some(text)
        case Edit(ctx, _, text) => if m in s.messages && s.messages[m].org == ctx then Some(text) else None
  }

  /** A message reads as it was last written: as sent, as mailed, or as last edited. */
  lemma {:induction false} ContentIsLastText(s: Store, ops: seq<Op>, m: int)
    ensures var s' := Run(s, ops);
            match LastText(s, ops, m)
            case Some(text) => m in s'.messages && s'.messages[m].content == text
            case None => if m in s.messages then m in s'.messages && s'.messages[m] == s.messages[m]
                         else m !in s'.messages
    decreases |ops|
  {
    if ops == [] {
    } else {
      ContentIsLastText(Apply(s, ops[0]), ops[1..], m);
    }
  }

  lemma TextsAt(l: seq<Version>, texts: seq<string>)
    requires Texts(l) == texts
    ensures |l| == |texts| && forall k | 0 <= k < |l| :: l[k].content == texts[k]
  {
    assert forall k | 0 <= k < |l| :: l[k].content == Texts(l)[k];
  }

  // ---------- the handlers ----------

  class Conversation {
    var messages: map<int, Message>
    var versions: seq<Version>

    function State(): Store
      reads this
    {
      Store(messages, versions)
    }

    constructor ()
      ensures State() == EMPTY
    {
      messages, versions := map[], [];
    }

    method CheckPreviousVersion(ctx: Org, id: int) returns (r: Option<int>)
      ensures r == PreviousVersion(versions, ctx, id)
    {
      var found := Visible(versions, ctx, id);
      if found == [] {
        return None;
      }
      return Some(MaxNumber(found));
    }

    method SaveInVersions(ctx: Org, id: int, number: int, content: string)
      modifies this`versions
      ensures versions == old(versions) + [Version(ctx, id, number, content)]
    {
      versions := versions + [Version(ctx, id, number, content)];
    }

    /** `known`: the ticket is the tenant's and the sender exists. */
    method SendMessage(ctx: Org, known: bool, id: int, content: string) returns (ok: bool)
      requires id !in messages
      modifies this
      ensures ok == known
      ensures State() == if known then Apply(old(State()), Send(ctx, id, content)) else old(State())
      ensures known ==>
                && messages == old(messages)[id := Message(ctx, content, false)]
                && versions == old(versions) + [Version(ctx, id, 1, content)]
    {
      if !known {
        return false;
      }
      messages := messages[id := Message(ctx, content, false)];
      var version := CheckPreviousVersion(ctx, id);
      // both branches of the source write version 1
      SaveInVersions(ctx, id, 1, content);
      return true;
    }

    method SaveMessageFromEmail(org: Org, id: int, content: string)
      requires id !in messages
      modifies this
      ensures State() == Apply(old(State()), FromEmail(org, id, content))
      ensures messages == old(messages)[id := Message(org, content, true)] && versions == old(versions)
    {
      messages := messages[id := Message(org, content, true)];
    }

    method EditMessage(ctx: Org, id: int, content: string) returns (ok: bool)
      modifies this
      ensures ok <==> id in old(messages) && old(messages)[id].org == ctx
      ensures State() == Apply(old(State()), Edit(ctx, id, content))
      ensures !ok ==> State() == old(State())
      ensures ok ==>
                && messages == old(messages)[id := old(messages)[id].(content := content)]
                && versions ==
                   old(versions) + [Version(ctx, id, NextVersion(old(versions), ctx, id), content)]
    {
      if !(id in messages && messages[id].org == ctx) {
        return false;
      }
      messages := messages[id := messages[id].(content := content)];
      var version := CheckPreviousVersion(ctx, id);
      if version.None? || version.value == 0 {
        SaveInVersions(ctx, id, 1, content);
      } else {
        SaveInVersions(ctx, id, version.value + 1, content);
      }
      return true;
    }
  }
}
