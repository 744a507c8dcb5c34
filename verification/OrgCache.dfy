/** The read-through organization cache of src/services/cors_cache_service.py: one Redis key
    per identifier, with a ten-minute expiry. Its keys share Redis with the chat sessions;
    RedisKeys shows they never meet. */
module OrgCache {
  import opened Wrappers

  const TTL := 600

  datatype Organization = Organization(id: int, domain: string)

  datatype Entry = Entry(org: Organization, expires: int)

  datatype Instant = Instant(now: int, db: map<string, Organization>)

  /** `db` maps the identifiers of live organizations; `past` is every instant so far. */
  datatype World = World(now: int, db: map<string, Organization>, cache: map<string, Entry>, past: seq<Instant>)

  datatype Op = Tick(seconds: nat) | Change(db: map<string, Organization>) | Lookup(id: string)

  predicate Cached(w: World, id: string) {
    id in w.cache && w.now < w.cache[id].expires
  }

  function Answer(w: World, id: string): Option<Organization> {
    if id == "" then None
    else if Cached(w, id) then Some(w.cache[id].org)
    else if id in w.db then Some(w.db[id])
    else None
  }

  function Apply(w: World, op: Op): World {
    match op
    case Tick(d) => w.(now := w.now + d, past := w.past + [Instant(w.now + d, w.db)])
    case Change(db) => w.(db := db, past := w.past + [Instant(w.now, db)])
    case Lookup(id) =>
      if id == "" || Cached(w, id) || id !in w.db then w
      else w.(cache := w.cache[id := Entry(w.db[id], w.now + TTL)])
  }

  function Run(w: World, ops: seq<Op>): World
    decreases |ops|
  {
    if ops == [] then w else Run(Apply(w, ops[0]), ops[1..])
  }

  function Start(now: int, db: map<string, Organization>): World {
    World(now, db, map[], [Instant(now, db)])
  }

  /** At instant `i` the database held `org` under `id`. */
  predicate HeldAt(w: World, i: nat, id: string, org: Organization) {
    i < |w.past| && id in w.past[i].db && w.past[i].db[id] == org
  }

  /** The present is recorded, and each entry was the database's value when it was stored. */
  ghost predicate Inv(w: World) {
    && Instant(w.now, w.db) in w.past
    && (forall h | h in w.past :: h.now <= w.now)
    && (forall id | id in w.cache ::
          exists i: nat :: HeldAt(w, i, id, w.cache[id].org) && w.past[i].now + TTL == w.cache[id].expires)
  }

  lemma PastOnlyGrows(w: World, op: Op, i: nat, id: string, org: Organization)
    requires HeldAt(w, i, id, org)
    ensures HeldAt(Apply(w, op), i, id, org) && Apply(w, op).past[i] == w.past[i]
  {
  }

  lemma EntryKeepsItsOrigin(w: World, op: Op, id: string)
    requires Inv(w) && id in Apply(w, op).cache
    ensures var w' := Apply(w, op);
            exists i: nat :: HeldAt(w', i, id, w'.cache[id].org) && w'.past[i].now + TTL == w'.cache[id].expires
  {
    var w' := Apply(w, op);
    if id in w.cache && w'.cache[id] == w.cache[id] {
      var i: nat :| HeldAt(w, i, id, w.cache[id].org) && w.past[i].now + TTL == w.cache[id].expires;
      PastOnlyGrows(w, op, i, id, w.cache[id].org);
    } else {
      var i: nat :| i < |w.past| && w.past[i] == Instant(w.now, w.db);
      assert HeldAt(w', i, id, w'.cache[id].org);
    }
  }

  lemma StepKeepsInv(w: World, op: Op)
    requires Inv(w)
    ensures Inv(Apply(w, op))
  {
    var w' := Apply(w, op);
    assert op.Tick? || op.Change? ==> Instant(w'.now, w'.db) == w'.past[|w.past|];
    forall id | id in w'.cache
      ensures exists i: nat :: HeldAt(w', i, id, w'.cache[id].org) && w'.past[i].now + TTL == w'.cache[id].expires
    {
      EntryKeepsItsOrigin(w, op, id);
    }
  }

  lemma {:induction false} RunKeepsInv(w: World, ops: seq<Op>)
    requires Inv(w)
    ensures Inv(Run(w, ops))
    decreases |ops|
  {
    if ops == [] {
    } else {
      StepKeepsInv(w, ops[0]);
      RunKeepsInv(Apply(w, ops[0]), ops[1..]);
    }
  }

  lemma AnswerIsRecent(w: World, id: string)
    requires Inv(w)
    ensures Answer(w, id).Some? ==>
              exists i: nat :: HeldAt(w, i, id, Answer(w, id).value) && w.now - TTL < w.past[i].now <= w.now
    ensures Answer(w, id).None? ==> id == "" || id !in w.db
  {
    if Answer(w, id).Some? {
      if Cached(w, id) {
        var i: nat :| HeldAt(w, i, id, w.cache[id].org) && w.past[i].now + TTL == w.cache[id].expires;
        assert w.past[i] in w.past;
      } else {
        var i: nat :| i < |w.past| && w.past[i] == Instant(w.now, w.db);
        assert HeldAt(w, i, id, w.db[id]);
      }
    }
  }

  /** However ticks, changes and lookups interleave: an answer was the database's value at
      some instant of the last ten minutes, and no answer means there is none now. */
  lemma StaleByAtMostTenMinutes(now: int, db: map<string, Organization>, ops: seq<Op>, id: string)
    ensures var w := Run(Start(now, db), ops);
            && (Answer(w, id).Some? ==>
                  exists i: nat :: HeldAt(w, i, id, Answer(w, id).value) && w.now - 600 < w.past[i].now <= w.now)
            && (Answer(w, id).None? ==> id == "" || id !in w.db)
  {
    RunKeepsInv(Start(now, db), ops);
    AnswerIsRecent(Run(Start(now, db), ops), id);
  }

  function Elapsed(ops: seq<Op>): nat {
    if ops == [] then 0 else (if ops[0].Tick? then ops[0].seconds else 0) + Elapsed(ops[1..])
  }

  /** The bound is reached: until the entry expires, no change of the database, not even
      the organization's removal, is seen. */
  lemma {:induction false} EntryOutlivesChanges(w: World, id: string, ops: seq<Op>)
    requires id != "" && id in w.cache && w.now + Elapsed(ops) < w.cache[id].expires
    ensures Answer(Run(w, ops), id) == Some(w.cache[id].org)
    decreases |ops|
  {
    if ops == [] {
    } else {
      EntryOutlivesChanges(Apply(w, ops[0]), id, ops[1..]);
    }
  }

  /** So a lookup that reached the database fixes the answer for the next ten minutes. */
  lemma LookupIsRemembered(w: World, id: string, ops: seq<Op>)
    requires id != "" && !Cached(w, id) && id in w.db && Elapsed(ops) < 600
    ensures Answer(Run(Apply(w, Lookup(id)), ops), id) == Some(w.db[id]) == Answer(w, id)
  {
    EntryOutlivesChanges(Apply(w, Lookup(id)), id, ops);
  }

  /** An entry that is not renewed is gone when its ten minutes are over. */
  lemma EntryExpires(w: World, id: string, seconds: nat)
    requires id != "" && !Cached(w, id) && id in w.db && seconds >= 600
    ensures !Cached(Apply(Apply(w, Lookup(id)), Tick(seconds)), id)
  {
  }

  class CorsCache {
    var redis: map<string, Entry>
    var db: map<string, Organization>
    var now: int
    ghost var past: seq<Instant>

    ghost function State(): World
      reads this
    {
      World(now, db, redis, past)
    }

    constructor (now: int, db: map<string, Organization>)
      ensures Inv(State()) && State() == Start(now, db)
    {
      this.now, this.db, redis := now, db, map[];
      past := [Instant(now, db)];
    }

    method GetOrg(id: string) returns (r: Option<Organization>)
      requires Inv(State())
      modifies this`redis
      ensures Inv(State()) && State() == Apply(old(State()), Lookup(id))
      ensures r == Answer(old(State()), id)
      ensures r.None? || (id in old(redis) && now < old(redis)[id].expires) ==> redis == old(redis)
      ensures r.Some? && !(id in old(redis) && now < old(redis)[id].expires) ==>
                id in db && r.value == db[id] && redis == old(redis)[id := Entry(db[id], now + 600)]
    {
      hide Inv;
      StepKeepsInv(State(), Lookup(id));
      if id == "" {
        return None;
      }
      if id in redis && now < redis[id].expires {
        return Some(redis[id].org);
      }
      if id in db {
        r := Some(db[id]);
        redis := redis[id := Entry(db[id], now + TTL)];
        return;
      }
      return None;
    }
  }
}
