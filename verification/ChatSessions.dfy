/** The live-chat session machine: who is connected, which Socket.IO rooms they are in,
    and what Redis records about them
    (src/websocket/services/conversation_service.py, src/websocket/chat_namespaces).

    Socket.IO's Redis manager ignores a request to move a sid that is not connected.
    Conversation ids are kept as the decimal text that Redis keys and room names carry. */
module ChatSessions {
  import opened Wrappers
  import opened Text
  import opened RedisKeys

  /** What Redis records, as separate typed maps. */
  datatype Registry = Registry(
    agentSid: map<int, string>, agentOf: map<string, int>,
    customerSid: map<int, string>, customerOf: map<string, int>,
    conversationOf: map<string, string>, members: map<string, set<string>>)

  /** `rooms` are the conversation rooms of the customer namespace. */
  datatype Server = Server(
    reg: Registry, rooms: map<string, set<string>>,
    customers: set<string>, agents: set<string>,
    everCustomers: set<string>, everAgents: set<string>)

  const START := Server(Registry(map[], map[], map[], map[], map[], map[]), map[], {}, {}, {}, {})

  function Of(m: map<string, set<string>>, c: string): set<string> {
    if c in m then m[c] else {}
  }

  function Adding(m: map<string, set<string>>, c: string, sid: string): map<string, set<string>> {
    m[c := Of(m, c) + {sid}]
  }

  function Removing(m: map<string, set<string>>, c: string, sid: string): map<string, set<string>> {
    m[c := Of(m, c) - {sid}]
  }

  function RemovingEverywhere(m: map<string, set<string>>, sid: string): map<string, set<string>> {
    map c | c in m :: m[c] - {sid}
  }

  /** `known`: the conversation and the customer exist. */
  datatype Op =
    | CustomerConnect(sid: string, customer: int)
    | CustomerJoin(customer: int, conversation: int, known: bool)
    | CustomerLeave(sid: string)
    | CustomerDisconnect(sid: string)
    | AgentConnect(sid: string, user: int)
    | AgentLeave(sid: string, room: string)
    | AgentDisconnect(sid: string)

  predicate FreshSid(s: Server, sid: string) {
    sid != "" && sid !in s.everCustomers && sid !in s.everAgents
  }

  /** The conversation a leave refers to: the last one joined, or the text of Python's None. */
  function LastConversation(s: Server, sid: string): string {
    if sid in s.reg.conversationOf then s.reg.conversationOf[sid] else "None"
  }

  function Left(s: Server, sid: string): Server {
    var c := LastConversation(s, sid);
    s.(rooms := Removing(s.rooms, c, sid), reg := s.reg.(members := Removing(s.reg.members, c, sid)))
  }

  function Joined(s: Server, sid: string, c: string): Server {
    s.(rooms := if sid in s.customers then Adding(s.rooms, c, sid) else s.rooms,
       reg := s.reg.(conversationOf := s.reg.conversationOf[sid := c], members := Adding(s.reg.members, c, sid)))
  }

  /** Events come from connected clients; a join comes from an HTTP request and uses
      whatever sid Redis last recorded for the customer. */
  function Apply(s: Server, op: Op): Server {
    match op
    case CustomerConnect(sid, id) =>
      if !FreshSid(s, sid) then s
      else
        s.(reg := s.reg.(customerSid := s.reg.customerSid[id := sid], customerOf := s.reg.customerOf[sid := id]),
           customers := s.customers + {sid}, everCustomers := s.everCustomers + {sid})
    case CustomerJoin(id, conversation, known) =>
      if id !in s.reg.customerSid || !known then s
      else Joined(s, s.reg.customerSid[id], Decimal(conversation))
    case CustomerLeave(sid) => if sid !in s.customers then s else Left(s, sid)
    case CustomerDisconnect(sid) =>
      if sid !in s.customers then s
      else Left(s.(customers := s.customers - {sid}, rooms := RemovingEverywhere(s.rooms, sid)), sid)
    case AgentConnect(sid, id) =>
      if !FreshSid(s, sid) then s
      else
        s.(reg := s.reg.(agentSid := s.reg.agentSid[id := sid], agentOf := s.reg.agentOf[sid := id]),
           agents := s.agents + {sid}, everAgents := s.everAgents + {sid})
    case AgentLeave(sid, c) =>
      if sid !in s.agents then s else s.(reg := s.reg.(members := Removing(s.reg.members, c, sid)))
    case AgentDisconnect(sid) => s.(agents := s.agents - {sid})
  }

  function Run(s: Server, ops: seq<Op>): Server
    decreases |ops|
  {
    if ops == [] then s else Run(Apply(s, ops[0]), ops[1..])
  }

  // ---------- the invariant ----------

  /** A connected customer's sid is in a conversation's Redis set exactly when it is in the
      conversation's room; rooms hold connected customers only. */
  predicate RoomsAgree(s: Server) {
    && (forall c | c in s.rooms :: s.rooms[c] <= s.customers)
    && (forall c | c in s.reg.members :: s.reg.members[c] <= s.everCustomers)
    && (forall c | c in s.rooms.Keys + s.reg.members.Keys ::
          Of(s.rooms, c) == Of(s.reg.members, c) * s.customers)
  }

  /** A recorded sid leads back to the user or customer it was recorded for. */
  predicate LookupsRoundTrip(r: Registry) {
    && (forall id | id in r.customerSid :: r.customerSid[id] in r.customerOf && r.customerOf[r.customerSid[id]] == id)
    && (forall id | id in r.agentSid :: r.agentSid[id] in r.agentOf && r.agentOf[r.agentSid[id]] == id)
    && (forall sid | sid in r.conversationOf :: r.conversationOf[sid] != "")
  }

  predicate SidsAreSeparate(s: Server) {
    && s.customers <= s.everCustomers && s.agents <= s.everAgents
    && s.everCustomers * s.everAgents == {}
    && s.reg.customerOf.Keys == s.everCustomers && s.reg.agentOf.Keys == s.everAgents
    && "" !in s.everCustomers && "" !in s.everAgents
  }

  predicate Inv(s: Server) {
    RoomsAgree(s) && LookupsRoundTrip(s.reg) && SidsAreSeparate(s)
  }

  lemma JoinKeepsRooms(s: Server, sid: string, c: string)
    requires RoomsAgree(s) && sid in s.everCustomers
    ensures RoomsAgree(Joined(s, sid, c))
  {
    var s' := Joined(s, sid, c);
    forall d | d in s'.rooms.Keys + s'.reg.members.Keys
      ensures Of(s'.rooms, d) == Of(s'.reg.members, d) * s'.customers
    {
      assert Of(s.rooms, d) == Of(s.reg.members, d) * s.customers;
    }
  }

  lemma LeaveKeepsRooms(s: Server, sid: string)
    requires RoomsAgree(s)
    ensures RoomsAgree(Left(s, sid))
  {
    var s' := Left(s, sid);
    forall d | d in s'.rooms.Keys + s'.reg.members.Keys
      ensures Of(s'.rooms, d) == Of(s'.reg.members, d) * s'.customers
    {
      assert Of(s.rooms, d) == Of(s.reg.members, d) * s.customers;
    }
  }

  lemma DisconnectKeepsRooms(s: Server, sid: string)
    requires RoomsAgree(s)
    ensures RoomsAgree(s.(customers := s.customers - {sid}, rooms := RemovingEverywhere(s.rooms, sid)))
  {
    var s' := s.(customers := s.customers - {sid}, rooms := RemovingEverywhere(s.rooms, sid));
    forall d | d in s'.rooms.Keys + s'.reg.members.Keys
      ensures Of(s'.rooms, d) == Of(s'.reg.members, d) * s'.customers
    {
      assert Of(s.rooms, d) == Of(s.reg.members, d) * s.customers;
    }
  }

  lemma AgentLeaveKeepsRooms(s: Server, sid: string, c: string)
    requires Inv(s) && sid in s.agents
    ensures RoomsAgree(Apply(s, AgentLeave(sid, c)))
  {
    var s' := Apply(s, AgentLeave(sid, c));
    assert sid in s.everAgents;
    assert sid in s.everCustomers * s.everAgents <==> sid in s.everCustomers;
    assert sid !in s.everCustomers;
    forall d | d in s'.rooms.Keys + s'.reg.members.Keys
      ensures Of(s'.rooms, d) == Of(s'.reg.members, d) * s'.customers
    {
      assert Of(s'.reg.members, d) == Of(s.reg.members, d);
    }
  }

  lemma ConnectKeepsInv(s: Server, op: Op)
    requires Inv(s) && (op.CustomerConnect? || op.AgentConnect?)
    ensures Inv(Apply(s, op))
  {
    var s' := Apply(s, op);
    if FreshSid(s, op.sid) {
      forall d | d in s'.rooms.Keys + s'.reg.members.Keys
        ensures Of(s'.rooms, d) == Of(s'.reg.members, d) * s'.customers
      {
        assert Of(s.rooms, d) == Of(s.reg.members, d) * s.customers;
        assert op.sid !in Of(s.reg.members, d);
      }
    }
  }

  lemma StepKeepsInv(s: Server, op: Op)
    requires Inv(s)
    ensures Inv(Apply(s, op))
  {
    match op
    case CustomerConnect(_, _) => ConnectKeepsInv(s, op);
    case AgentConnect(_, _) => ConnectKeepsInv(s, op);
    case CustomerJoin(id, conversation, known) =>
      if id in s.reg.customerSid {
        JoinKeepsRooms(s, s.reg.customerSid[id], Decimal(conversation));
      }
    case CustomerLeave(sid) => LeaveKeepsRooms(s, sid);
    case CustomerDisconnect(sid) =>
      DisconnectKeepsRooms(s, sid);
      LeaveKeepsRooms(s.(customers := s.customers - {sid}, rooms := RemovingEverywhere(s.rooms, sid)), sid);
    case AgentLeave(sid, c) =>
      if sid in s.agents {
        AgentLeaveKeepsRooms(s, sid, c);
      }
    case AgentDisconnect(_) =>
  }

  lemma {:induction false} RunKeepsInv(s: Server, ops: seq<Op>)
    requires Inv(s)
    ensures Inv(Run(s, ops))
    decreases |ops|
  {
    if ops == [] {
    } else {
      StepKeepsInv(s, ops[0]);
      RunKeepsInv(Apply(s, ops[0]), ops[1..]);
    }
  }

  /** After any run: room and Redis set agree on every connected customer, and whoever is
      in the set but not in the room is a disconnected customer. */
  lemma RoomsMatchRedis(ops: seq<Op>, c: string, sid: string)
    ensures var s := Run(START, ops);
            && (sid in s.customers ==> (sid in Of(s.reg.members, c) <==> sid in Of(s.rooms, c)))
            && (sid in Of(s.rooms, c) ==> sid in s.customers)
            && (sid in Of(s.reg.members, c) && sid !in Of(s.rooms, c) ==>
                  sid in s.everCustomers && sid !in s.customers)
  {
    RunKeepsInv(START, ops);
    var s := Run(START, ops);
    assert c in s.rooms.Keys + s.reg.members.Keys ==> Of(s.rooms, c) == Of(s.reg.members, c) * s.customers;
  }

  // ---------- what each step does to the memberships ----------

  /** A connecting customer is recorded under both keys and is in no room yet. */
  lemma ConnectRecords(s: Server, sid: string, id: int)
    requires FreshSid(s, sid)
    ensures var s' := Apply(s, CustomerConnect(sid, id));
            && s'.customers == s.customers + {sid} && s'.everCustomers == s.everCustomers + {sid}
            && s'.reg.customerSid == s.reg.customerSid[id := sid] && s'.reg.customerOf == s.reg.customerOf[sid := id]
            && s' == s.(customers := s'.customers, everCustomers := s'.everCustomers,
                        reg := s.reg.(customerSid := s'.reg.customerSid, customerOf := s'.reg.customerOf))
    ensures var s' := Apply(s, AgentConnect(sid, id));
            && s'.agents == s.agents + {sid} && s'.everAgents == s.everAgents + {sid}
            && s'.reg.agentSid == s.reg.agentSid[id := sid] && s'.reg.agentOf == s.reg.agentOf[sid := id]
            && s' == s.(agents := s'.agents, everAgents := s'.everAgents,
                        reg := s.reg.(agentSid := s'.reg.agentSid, agentOf := s'.reg.agentOf))
  {
  }

  /** A join puts the customer's recorded sid into the conversation's Redis set, and into its
      room when connected, and records the conversation; no other membership changes. */
  lemma JoinAddsOneMembership(s: Server, id: int, conversation: int, known: bool, x: string, d: string)
    ensures var s' := Apply(s, CustomerJoin(id, conversation, known));
            if id !in s.reg.customerSid || !known then s' == s
            else
              var sid, c := s.reg.customerSid[id], Decimal(conversation);
              && (x in Of(s'.reg.members, d) <==> x in Of(s.reg.members, d) || (x == sid && d == c))
              && (x in Of(s'.rooms, d) <==> x in Of(s.rooms, d) || (x == sid && d == c && sid in s.customers))
              && s'.reg.conversationOf == s.reg.conversationOf[sid := c]
              && OnlyMemberships(s, s')
  {
  }

  /** Nothing but memberships and the record of the last conversation differs. */
  predicate OnlyMemberships(s: Server, s': Server) {
    s'.(rooms := s.rooms,
        reg := s'.reg.(members := s.reg.members, conversationOf := s.reg.conversationOf)) == s
  }

  /** A leave takes the sid out of the room and the Redis set of the conversation it last
      joined, of Python's None if it joined none; no other membership changes. */
  lemma LeaveEndsOneMembership(s: Server, sid: string, x: string, d: string)
    requires sid in s.customers
    ensures var s' := Apply(s, CustomerLeave(sid));
            var c := if sid in s.reg.conversationOf then s.reg.conversationOf[sid] else "None";
            && sid !in Of(s'.rooms, c) && sid !in Of(s'.reg.members, c)
            && (x in Of(s'.rooms, d) <==> x in Of(s.rooms, d) && !(x == sid && d == c))
            && (x in Of(s'.reg.members, d) <==> x in Of(s.reg.members, d) && !(x == sid && d == c))
            && s'.reg.conversationOf == s.reg.conversationOf && OnlyMemberships(s, s')
  {
  }

  /** A disconnect does the same, leaves every other room too, and forgets the connection. */
  lemma DisconnectEndsMemberships(s: Server, sid: string, x: string, d: string)
    requires sid in s.customers
    ensures var s' := Apply(s, CustomerDisconnect(sid));
            var c := if sid in s.reg.conversationOf then s.reg.conversationOf[sid] else "None";
            && (x in Of(s'.rooms, d) <==> x in Of(s.rooms, d) && x != sid)
            && (x in Of(s'.reg.members, d) <==> x in Of(s.reg.members, d) && !(x == sid && d == c))
            && s'.customers == s.customers - {sid}
            && s'.reg.conversationOf == s.reg.conversationOf && OnlyMemberships(s, s'.(customers := s.customers))
  {
  }

  /** An agent's leave touches one Redis set, its disconnect only the agents. */
  lemma AgentStepsTouchLittle(s: Server, sid: string, c: string, x: string, d: string)
    ensures var s' := Apply(s, AgentLeave(sid, c));
            && (x in Of(s'.reg.members, d) <==>
                  x in Of(s.reg.members, d) && !(x == sid && d == c && sid in s.agents))
            && s'.rooms == s.rooms && s'.reg.conversationOf == s.reg.conversationOf && OnlyMemberships(s, s')
    ensures Apply(s, AgentDisconnect(sid)) == s.(agents := s.agents - {sid})
  {
  }

  /** A customer who joins and then leaves is in neither the room nor the set. */
  lemma LeaveUndoesJoin(s: Server, id: int, conversation: int)
    requires id in s.reg.customerSid && s.reg.customerSid[id] in s.customers
    ensures var sid, c := s.reg.customerSid[id], Decimal(conversation);
            var joined := Apply(s, CustomerJoin(id, conversation, true));
            var left := Apply(joined, CustomerLeave(sid));
            && sid in Of(joined.rooms, c) && sid in Of(joined.reg.members, c)
            && (forall x, d ::
                  x in Of(left.rooms, d) <==> x in Of(s.rooms, d) && !(x == sid && d == c))
            && (forall x, d ::
                  x in Of(left.reg.members, d) <==> x in Of(s.reg.members, d) && !(x == sid && d == c))
  {
    hide Apply;
    var sid, c := s.reg.customerSid[id], Decimal(conversation);
    var joined := Apply(s, CustomerJoin(id, conversation, true));
    JoinAddsOneMembership(s, id, conversation, true, sid, c);
    forall x, d
      ensures x in Of(Apply(joined, CustomerLeave(sid)).rooms, d) <==>
              x in Of(s.rooms, d) && !(x == sid && d == c)
      ensures x in Of(Apply(joined, CustomerLeave(sid)).reg.members, d) <==>
              x in Of(s.reg.members, d) && !(x == sid && d == c)
    {
      JoinAddsOneMembership(s, id, conversation, true, x, d);
      LeaveEndsOneMembership(joined, sid, x, d);
    }
  }

  /** A disconnect clears the sid from its last conversation's Redis set and from no other:
      the surplus is exactly the conversations it had joined before. */
  lemma DisconnectLeavesEarlierSets(s: Server, sid: string, c: string)
    requires sid in s.customers
    ensures var s' := Apply(s, CustomerDisconnect(sid));
            sid in Of(s'.reg.members, c) <==> sid in Of(s.reg.members, c) && c != LastConversation(s, sid)
    ensures sid !in Of(Apply(s, CustomerDisconnect(sid)).rooms, c)
  {
    var mid := s.(customers := s.customers - {sid}, rooms := RemovingEverywhere(s.rooms, sid));
    assert Apply(s, CustomerDisconnect(sid)) == Left(mid, sid);
    assert LastConversation(mid, sid) == LastConversation(s, sid);
  }

  /** From the start: a customer connects, joins two conversations and disconnects. The
      first conversation's set still lists the sid, the second's does not. */
  lemma EarlierSetKeepsADisconnectedSid()
    ensures var ops := [
              CustomerConnect("a", 1), CustomerJoin(1, 1, true), CustomerJoin(1, 2, true), CustomerDisconnect("a")];
            var s := Run(START, ops);
            && "a" !in s.customers
            && "a" in Of(s.reg.members, Decimal(1)) && "a" !in Of(s.reg.members, Decimal(2))
  {
    var ops := [
      CustomerConnect("a", 1), CustomerJoin(1, 1, true), CustomerJoin(1, 2, true), CustomerDisconnect("a")];
    var s1 := Apply(START, ops[0]);
    var s2 := Apply(s1, ops[1]);
    var s3 := Apply(s2, ops[2]);
    var s4 := Apply(s3, ops[3]);
    if Decimal(1) == Decimal(2) {
      DecimalInjective(1, 2);
    }
    assert "a" in Of(s2.reg.members, Decimal(1)) && Of(s3.reg.members, Decimal(1)) == Of(s2.reg.members, Decimal(1));
    DisconnectLeavesEarlierSets(s3, "a", Decimal(1));
    DisconnectLeavesEarlierSets(s3, "a", Decimal(2));
    assert ops[1..][1..][1..][1..] == [];
    assert Run(START, ops) == Run(s1, ops[1..]) == Run(s2, ops[1..][1..]) == Run(s3, ops[1..][1..][1..]) == s4;
  }

  // ---------- Redis itself ----------

  /** What the typed maps say a key holds. */
  function Expected(r: Registry, k: Key): Option<Value> {
    match k
    case AgentId(id) => if id in r.agentSid then Some(Str(r.agentSid[id])) else None
    case AgentSid(sid) => if sid in r.agentOf then Some(Str(Decimal(r.agentOf[sid]))) else None
    case CustomerId(id) => if id in r.customerSid then Some(Str(r.customerSid[id])) else None
    case CustomerSid(sid) => if sid in r.customerOf then Some(Str(Decimal(r.customerOf[sid]))) else None
    case SidConversation(sid) => if sid in r.conversationOf then Some(Str(r.conversationOf[sid])) else None
    case RoomMembers(c) => if Of(r.members, c) != {} then Some(Members(Of(r.members, c))) else None
    case OrgCache(_) => None
  }

  /** The flat store holds exactly the typed maps; the organization cache's keys are another
      service's and never in the way. */
  ghost predicate Agrees(flat: Flat, r: Registry) {
    forall k: Key :: !k.OrgCache? ==> At(flat, k) == Expected(r, k)
  }

  /** What the source's reads of the flat store therefore return. */
  lemma ReadsOfAgreeingStore(flat: Flat, s: Server, id: int, sid: string, c: string)
    requires Inv(s) && Agrees(flat, s.reg)
    ensures Get(flat, CustomerId(id)) == if id in s.reg.customerSid then Some(s.reg.customerSid[id]) else None
    ensures Get(flat, AgentId(id)) == if id in s.reg.agentSid then Some(s.reg.agentSid[id]) else None
    ensures Get(flat, SidConversation(sid)) ==
            if sid in s.reg.conversationOf then Some(s.reg.conversationOf[sid]) else None
    ensures SMembers(flat, RoomMembers(c)) == if c in s.reg.members then s.reg.members[c] else {}
  {
    assert At(flat, CustomerId(id)) == Expected(s.reg, CustomerId(id));
    assert At(flat, AgentId(id)) == Expected(s.reg, AgentId(id));
    assert At(flat, SidConversation(sid)) == Expected(s.reg, SidConversation(sid));
    assert At(flat, RoomMembers(c)) == Expected(s.reg, RoomMembers(c));
  }

  // One write to the flat store is one write to one typed map.
  lemma PutAgrees(flat: Flat, r: Registry, r': Registry, key: Key, v: Value)
    requires Agrees(flat, r) && Expected(r', key) == Some(v)
    requires forall k: Key | k != key :: Expected(r', k) == Expected(r, k)
    ensures Agrees(Put(flat, key, v), r')
  {
    forall k: Key | !k.OrgCache?
      ensures At(Put(flat, key, v), k) == Expected(r', k)
    {
      OneKeyChanges(flat, key, v, k);
    }
  }

  lemma DropAgrees(flat: Flat, r: Registry, r': Registry, key: Key)
    requires Agrees(flat, r) && Expected(r', key) == None
    requires forall k: Key | k != key :: Expected(r', k) == Expected(r, k)
    ensures Agrees(Drop(flat, key), r')
  {
    forall k: Key | !k.OrgCache?
      ensures At(Drop(flat, key), k) == Expected(r', k)
    {
      OneKeyChanges(flat, key, Str(""), k);
    }
  }

  lemma AddSidAgrees(flat: Flat, r: Registry, sid: string, c: string)
    requires Agrees(flat, r)
    ensures Agrees(SAdd(flat, RoomMembers(c), sid), r.(members := Adding(r.members, c, sid)))
  {
    var r' := r.(members := Adding(r.members, c, sid));
    assert At(flat, RoomMembers(c)) == Expected(r, RoomMembers(c));
    assert SMembers(flat, RoomMembers(c)) == Of(r.members, c);
    assert sid in Of(r'.members, c);
    PutAgrees(flat, r, r', RoomMembers(c), Members(Of(r.members, c) + {sid}));
  }

  lemma RemoveSidAgrees(flat: Flat, r: Registry, sid: string, c: string)
    requires Agrees(flat, r)
    ensures Agrees(SRem(flat, RoomMembers(c), sid), r.(members := Removing(r.members, c, sid)))
  {
    var r' := r.(members := Removing(r.members, c, sid));
    assert At(flat, RoomMembers(c)) == Expected(r, RoomMembers(c));
    assert Of(r'.members, c) == Of(r.members, c) - {sid};
    if Of(r'.members, c) != {} {
      PutAgrees(flat, r, r', RoomMembers(c), Members(Of(r'.members, c)));
    } else {
      DropAgrees(flat, r, r', RoomMembers(c));
    }
  }

  /** On the flat store itself: the sid recorded for a customer, looked up again, names
      that customer; likewise for agents. */
  lemma RedisLookupsRoundTrip(flat: Flat, s: Server, id: int)
    requires Inv(s) && Agrees(flat, s.reg)
    ensures Get(flat, CustomerId(id)).Some? ==>
              Get(flat, CustomerSid(Get(flat, CustomerId(id)).value)) == Some(Decimal(id))
    ensures Get(flat, AgentId(id)).Some? ==>
              Get(flat, AgentSid(Get(flat, AgentId(id)).value)) == Some(Decimal(id))
  {
    assert At(flat, CustomerId(id)) == Expected(s.reg, CustomerId(id));
    assert At(flat, AgentId(id)) == Expected(s.reg, AgentId(id));
    if id in s.reg.customerSid {
      assert At(flat, CustomerSid(s.reg.customerSid[id])) == Some(Str(Decimal(id)));
    }
    if id in s.reg.agentSid {
      assert At(flat, AgentSid(s.reg.agentSid[id])) == Some(Str(Decimal(id)));
    }
  }

  class ChatServer {
    var redis: Flat
    var rooms: map<string, set<string>>
    var customers: set<string>
    var agents: set<string>
    ghost var reg: Registry
    ghost var everCustomers: set<string>
    ghost var everAgents: set<string>

    ghost function State(): Server
      reads this
    {
      Server(reg, rooms, customers, agents, everCustomers, everAgents)
    }

    ghost predicate Valid()
      reads this
    {
      Inv(State()) && Agrees(redis, reg)
    }

    constructor ()
      ensures Valid() && State() == START
    {
      redis, rooms, customers, agents := map[], map[], {}, {};
      reg := Registry(map[], map[], map[], map[], map[], map[]);
      everCustomers, everAgents := {}, {};
    }

    method JoinAgentGroup(sid: string, user: int)
      requires Valid() && FreshSid(State(), sid)
      modifies this
      ensures Valid() && State() == Apply(old(State()), AgentConnect(sid, user))
    {
      hide RoomsAgree, SidsAreSeparate, Prefix, Suffix;
      StepKeepsInv(State(), AgentConnect(sid, user));
      ghost var r1 := reg.(agentSid := reg.agentSid[user := sid]);
      ghost var r2 := r1.(agentOf := reg.agentOf[sid := user]);
      agents := agents + {sid};
      PutAgrees(redis, reg, r1, AgentId(user), Str(sid));
      redis := Put(redis, AgentId(user), Str(sid));
      PutAgrees(redis, r1, r2, AgentSid(sid), Str(Decimal(user)));
      redis := Put(redis, AgentSid(sid), Str(Decimal(user)));
      reg := r2;
      everAgents := everAgents + {sid};
    }

    method ConnectCustomer(sid: string, customer: int)
      requires Valid() && FreshSid(State(), sid)
      modifies this
      ensures Valid() && State() == Apply(old(State()), CustomerConnect(sid, customer))
    {
      hide RoomsAgree, SidsAreSeparate, Prefix, Suffix;
      StepKeepsInv(State(), CustomerConnect(sid, customer));
      ghost var r1 := reg.(customerSid := reg.customerSid[customer := sid]);
      ghost var r2 := r1.(customerOf := reg.customerOf[sid := customer]);
      customers := customers + {sid};
      PutAgrees(redis, reg, r1, CustomerId(customer), Str(sid));
      redis := Put(redis, CustomerId(customer), Str(sid));
      PutAgrees(redis, r1, r2, CustomerSid(sid), Str(Decimal(customer)));
      redis := Put(redis, CustomerSid(sid), Str(Decimal(customer)));
      reg := r2;
      everCustomers := everCustomers + {sid};
    }

    method CustomerJoinConversation(customer: int, conversation: int, known: bool) returns (ok: bool)
      requires Valid()
      modifies this
      ensures Valid() && State() == Apply(old(State()), CustomerJoin(customer, conversation, known))
      ensures ok <==> known && customer in old(reg).customerSid
    {
      hide RoomsAgree, Prefix, Suffix;
      StepKeepsInv(State(), CustomerJoin(customer, conversation, known));
      assert At(redis, CustomerId(customer)) == Expected(reg, CustomerId(customer));
      var found := Get(redis, CustomerId(customer));
      if found.None? {
        assert customer in reg.customerSid ==> reg.customerSid[customer] in everCustomers;
        return false;
      }
      if !known {
        return false;
      }
      var sid, room := found.value, Decimal(conversation);
      if sid in customers {
        rooms := Adding(rooms, room, sid);
      }
      ghost var r1 := reg.(conversationOf := reg.conversationOf[sid := room]);
      PutAgrees(redis, reg, r1, SidConversation(sid), Str(room));
      redis := Put(redis, SidConversation(sid), Str(room));
      AddSidAgrees(redis, r1, sid, room);
      redis := SAdd(redis, RoomMembers(room), sid);
      reg := r1.(members := Adding(reg.members, room, sid));
      return true;
    }

    // `customer_leave_conversation`; in a disconnect the rooms are already gone.
    method LeaveLast(sid: string)
      requires Agrees(redis, reg) && forall x | x in reg.conversationOf :: reg.conversationOf[x] != ""
      modifies this`rooms, this`redis, this`reg
      ensures Agrees(redis, reg) && State() == Left(old(State()), sid)
    {
      assert At(redis, SidConversation(sid)) == Expected(reg, SidConversation(sid));
      var recorded := Get(redis, SidConversation(sid));
      var room := if recorded.Some? then recorded.value else "None";
      rooms := Removing(rooms, room, sid);
      RemoveSidAgrees(redis, reg, sid, room);
      redis := SRem(redis, RoomMembers(room), sid);
      reg := reg.(members := Removing(reg.members, room, sid));
    }

    method CustomerLeaveConversation(sid: string)
      requires Valid() && sid in customers
      modifies this
      ensures Valid() && State() == Apply(old(State()), CustomerLeave(sid))
    {
      hide RoomsAgree, SidsAreSeparate, Prefix, Suffix;
      StepKeepsInv(State(), CustomerLeave(sid));
      LeaveLast(sid);
    }

    method OnCustomerDisconnect(sid: string)
      requires Valid() && sid in customers
      modifies this
      ensures Valid() && State() == Apply(old(State()), CustomerDisconnect(sid))
    {
      hide RoomsAgree, SidsAreSeparate, Prefix, Suffix;
      StepKeepsInv(State(), CustomerDisconnect(sid));
      rooms := RemovingEverywhere(rooms, sid);
      customers := customers - {sid};
      LeaveLast(sid);
    }

    method AgentLeaveConversation(sid: string, conversation: string)
      requires Valid() && sid in agents
      modifies this
      ensures Valid() && State() == Apply(old(State()), AgentLeave(sid, conversation))
    {
      hide RoomsAgree, SidsAreSeparate, Prefix, Suffix;
      StepKeepsInv(State(), AgentLeave(sid, conversation));
      RemoveSidAgrees(redis, reg, sid, conversation);
      redis := SRem(redis, RoomMembers(conversation), sid);
      reg := reg.(members := Removing(reg.members, conversation, sid));
    }

    method OnAgentDisconnect(sid: string)
      requires Valid()
      modifies this
      ensures Valid() && State() == Apply(old(State()), AgentDisconnect(sid))
    {
      hide RoomsAgree, SidsAreSeparate, Prefix, Suffix;
      StepKeepsInv(State(), AgentDisconnect(sid));
      agents := agents - {sid};
    }
  }
}
