/** The one flat key space Redis holds for the chat sessions and the organization cache
    (src/websocket/utils/conversation_utils.py, src/services/cors_cache_service.py). */
module RedisKeys {
  import opened Wrappers
  import opened Text

  datatype Key =
    | AgentId(user: int)
    | AgentSid(sid: string)
    | CustomerId(customer: int)
    | CustomerSid(sid: string)
    | SidConversation(sid: string)
    | RoomMembers(conversation: string)
    | OrgCache(identifier: string)

  function Prefix(k: Key): string {
    match k
    case AgentId(_) => "agent_id:"
    case AgentSid(_) => "agent_sid:"
    case CustomerId(_) => "customer_id:"
    case CustomerSid(_) => "customer_sid:"
    case SidConversation(_) => "ws:chat:sid::"
    case RoomMembers(_) => "ws:chat:room::"
    case OrgCache(_) => "org:"
  }

  function Suffix(k: Key): string {
    match k
    case AgentId(n) => Decimal(n)
    case AgentSid(s) => s
    case CustomerId(n) => Decimal(n)
    case CustomerSid(s) => s
    case SidConversation(s) => s
    case RoomMembers(c) => c
    case OrgCache(i) => i
  }

  /** The string the source builds for the key. */
  function Render(k: Key): string {
    Prefix(k) + Suffix(k)
  }

  /** The texts the source writes out. */
  lemma KeyTexts(n: int, s: string)
    ensures Render(AgentId(n)) == "agent_id:" + Decimal(n)
    ensures Render(AgentSid(s)) == "agent_sid:" + s
    ensures Render(CustomerId(n)) == "customer_id:" + Decimal(n)
    ensures Render(CustomerSid(s)) == "customer_sid:" + s
    ensures Render(SidConversation(s)) == "ws:chat:sid::" + s
    ensures Render(RoomMembers(s)) == "ws:chat:room::" + s
    ensures Render(OrgCache(s)) == "org:" + s
  {
  }

  // Two different prefixes disagree at one of these places, before either ends.
  lemma PrefixesApart(a: Key, b: Key)
    requires Prefix(a) != Prefix(b)
    ensures var p, q := Prefix(a), Prefix(b);
            || p[0] != q[0]
            || (|p| > 6 && |q| > 6 && p[6] != q[6])
            || (|p| > 9 && |q| > 9 && p[9] != q[9])
            || (|p| > 8 && |q| > 8 && p[8] != q[8])
  {
  }

  /** Keys of different kinds never collide, and each kind is injective in its id. */
  lemma KeysNeverCollide(a: Key, b: Key)
    requires Render(a) == Render(b)
    ensures a == b
  {
    var p, q := Prefix(a), Prefix(b);
    var s := Render(a);
    assert forall i | 0 <= i < |p| :: s[i] == p[i];
    assert forall i | 0 <= i < |q| :: s[i] == q[i];
    if p != q {
      PrefixesApart(a, b);
    } else {
      assert Suffix(a) == s[|p|..] == Suffix(b);
      if a.AgentId? {
        DecimalInjective(a.user, b.user);
      } else if a.CustomerId? {
        DecimalInjective(a.customer, b.customer);
      }
    }
  }

  // ---------- the flat store ----------

  datatype Value = Str(s: string) | Members(sids: set<string>)

  type Flat = map<string, Value>

  function At(flat: Flat, k: Key): Option<Value> {
    if Render(k) in flat then Some(flat[Render(k)]) else None
  }

  function Put(flat: Flat, k: Key, v: Value): Flat {
    flat[Render(k) := v]
  }

  function Drop(flat: Flat, k: Key): Flat {
    flat - {Render(k)}
  }

  /** Writing or removing one key leaves every other key, of any kind, as it was. */
  lemma OneKeyChanges(flat: Flat, k: Key, v: Value, other: Key)
    ensures At(Put(flat, k, v), other) == if other == k then Some(v) else At(flat, other)
    ensures At(Drop(flat, k), other) == if other == k then None else At(flat, other)
  {
    if Render(other) == Render(k) {
      KeysNeverCollide(other, k);
    }
  }

  /** GET; an empty value reads as nothing. */
  function Get(flat: Flat, k: Key): Option<string> {
    match At(flat, k)
    case Some(Str(s)) => if s == "" then None else Some(s)
    case _ => None
  }

  function SMembers(flat: Flat, k: Key): set<string> {
    match At(flat, k)
    case Some(Members(m)) => m
    case _ => {}
  }

  function SAdd(flat: Flat, k: Key, sid: string): Flat {
    Put(flat, k, Members(SMembers(flat, k) + {sid}))
  }

  /** SREM; Redis drops a set that becomes empty. */
  function SRem(flat: Flat, k: Key, sid: string): Flat {
    if SMembers(flat, k) - {sid} != {} then Put(flat, k, Members(SMembers(flat, k) - {sid}))
    else Drop(flat, k)
  }
}
