/** The PHP index server: two database tables and the statements run against them. */
module IndexPhp {
  import opened Common
  import opened IndexModel
  import opened IndexTheorems

  /** The reservations as the PHP server keeps them. */
  function VipMap(vips: seq<Vip>): map<string, string> {
    if vips == [] then map[] else VipMap(vips[..|vips| - 1])[vips[|vips| - 1].id := vips[|vips| - 1].pass]
  }

  lemma {:induction false} VipMapKeys(vips: seq<Vip>)
    ensures VipMap(vips).Keys == VipIds(vips)
  {
    if vips != [] {
      VipMapKeys(vips[..|vips| - 1]);
    }
  }

  lemma {:induction false} VipMapAt(vips: seq<Vip>, i: nat)
    requires UniqueVips(vips) && i < |vips|
    ensures vips[i].id in VipMap(vips) && VipMap(vips)[vips[i].id] == vips[i].pass
  {
    if i < |vips| - 1 {
      VipMapAt(vips[..|vips| - 1], i);
    }
  }

  lemma {:induction false} NoPassIn(vips: seq<Vip>, id: string, shared: string)
    requires forall i :: 0 <= i < |vips| ==> vips[i].id != id
    ensures PassIn(vips, id, shared) == shared
  {
    if vips != [] {
      NoPassIn(vips[1..], id, shared);
    }
  }

  /** Both servers check a registration against the same password. */
  lemma SamePass(vips: seq<Vip>, id: string, shared: string)
    requires UniqueVips(vips)
    ensures PassIn(vips, id, shared) == if id in VipMap(vips) then VipMap(vips)[id] else shared
  {
    VipMapKeys(vips);
    if id in VipIds(vips) {
      var i := VipIndex(vips, id);
      VipMapAt(vips, i);
      PassOfVip(vips, i, shared);
    } else {
      forall i | 0 <= i < |vips|
        ensures vips[i].id != id
      {
        VipMember(vips, i);
      }
      NoPassIn(vips, id, shared);
    }
  }

  /** The rows of a table that satisfy, or do not satisfy, a condition on the target. */
  function WhereTarget(rows: seq<Call>, target: string, same: bool): (r: seq<Call>)
    ensures |r| <= |rows|
  {
    if rows == [] then []
    else WhereTarget(rows[..|rows| - 1], target, same) +
         (if (rows[|rows| - 1].target == target) == same then [rows[|rows| - 1]] else [])
  }

  lemma {:induction false} WhereTargetCount(rows: seq<Call>, target: string, same: bool, c: Call)
    ensures multiset(WhereTarget(rows, target, same))[c]
         == if (c.target == target) == same then multiset(rows)[c] else 0
  {
    if rows != [] {
      var front, last := rows[..|rows| - 1], rows[|rows| - 1];
      WhereTargetCount(front, target, same, c);
      assert rows == front + [last];
    }
  }

  /** `DELETE ... WHERE ts < now - ttl`. */
  function WhereRecent(rows: seq<Call>, now: nat): (r: seq<Call>)
    ensures |r| <= |rows|
  {
    if rows == [] then []
    else
      WhereRecent(rows[..|rows| - 1], now)
      + (if rows[|rows| - 1].ts < now - CALL_TTL then [] else [rows[|rows| - 1]])
  }

  lemma {:induction false} WhereRecentCount(rows: seq<Call>, now: nat, c: Call)
    ensures multiset(WhereRecent(rows, now))[c] == if Stale(c.ts, now, CALL_TTL) then 0 else multiset(rows)[c]
  {
    if rows != [] {
      var front, last := rows[..|rows| - 1], rows[|rows| - 1];
      WhereRecentCount(front, now, c);
      assert rows == front + [last];
    }
  }

  lemma WhereRecentIsLive(rows: seq<Call>, now: nat)
    ensures multiset(WhereRecent(rows, now)) == LiveCalls(multiset(rows), now)
  {
    forall c
      ensures multiset(WhereRecent(rows, now))[c] == LiveCalls(multiset(rows), now)[c]
    {
      WhereRecentCount(rows, now, c);
      LiveCount(multiset(rows), now, c);
    }
  }

  lemma WhereTargetSplits(rows: seq<Call>, target: string)
    ensures multiset(WhereTarget(rows, target, true)) == CallsFor(multiset(rows), target)
    ensures multiset(WhereTarget(rows, target, false)) == multiset(rows) - CallsFor(multiset(rows), target)
  {
    var mine := CallsFor(multiset(rows), target);
    forall c
      ensures multiset(WhereTarget(rows, target, true))[c] == mine[c]
      ensures multiset(WhereTarget(rows, target, false))[c] == (multiset(rows) - mine)[c]
    {
      WhereTargetCount(rows, target, true, c);
      WhereTargetCount(rows, target, false, c);
      CountFor(multiset(rows), target, c);
    }
  }

  class Server {
    const seats: Option<nat>
    const vips: map<string, string>
    const pass: string
    const ttl: nat
    var publishers: map<string, Peer>
    var pending: seq<Call>

    /** The server is configured as `cfg`. */
    ghost predicate Configured(cfg: Config)
    {
      UniqueVips(cfg.vips) && cfg == Config(seats, cfg.vips, pass, ttl) && vips == VipMap(cfg.vips)
    }

    ghost function Model(): Index
      reads this
    {
      Index(publishers, multiset(pending))
    }

    constructor (cfg: Config)
      requires UniqueVips(cfg.vips)
      ensures Configured(cfg) && Model() == EMPTY_INDEX
    {
      seats, vips, pass, ttl := cfg.seats, VipMap(cfg.vips), cfg.pass, cfg.ttl;
      publishers, pending := map[], [];
    }

    method EvictStale(now: nat)
      modifies this`publishers
      ensures publishers == LivePeers(old(publishers), now, ttl)
    {
      publishers := map id | id in publishers && !(publishers[id].lastSeen < now - ttl) :: publishers[id];
    }

    method EvictPending(now: nat)
      modifies this`pending
      ensures multiset(pending) == LiveCalls(multiset(old(pending)), now)
    {
      WhereRecentIsLive(pending, now);
      pending := WhereRecent(pending, now);
    }

    method CountNonVip() returns (count: nat)
      ensures count == |publishers.Keys - vips.Keys|
    {
      if vips == map[] {
        assert publishers.Keys - vips.Keys == publishers.Keys;
        return |publishers|;
      }
      count := |publishers.Keys - vips.Keys|;
    }

    /** Adds a publisher seat when capacity allows; the row is completed by `SetPublisher`. */
    method AddPublisher(id: string, drawn: string, now: nat, ghost cfg: Config) returns (ok: bool)
      requires Configured(cfg)
      modifies this`publishers
      ensures ok == (id in old(publishers) || !Full(cfg, old(publishers).Keys, id))
      ensures publishers
           == if ok && id !in old(publishers) then old(publishers)[id := Peer(drawn, Offer(0, 0, []), now)]
              else old(publishers)
    {
      if id in publishers {
        return true;
      }
      VipMapKeys(cfg.vips);
      VipCount(cfg.vips);
      assert |vips| == |vips.Keys| == |cfg.vips| && |publishers| == |publishers.Keys|;
      if seats.Some? {
        if |publishers| >= seats.value {
          return false;
        }
        if id !in vips {
          var ordinary := CountNonVip();
          var cap := seats.value - |vips|;
          if cap < 0 {
            cap := 0;
          }
          if ordinary >= cap {
            return false;
          }
        }
      }
      publishers := publishers[id := Peer(drawn, Offer(0, 0, []), now)];
      ok := true;
    }

    method SetPublisher(id: string, offer: Offer, now: nat) returns (key: string)
      requires id in publishers
      modifies this`publishers
      ensures key == old(publishers)[id].key && publishers == old(publishers)[id := Peer(key, offer, now)]
    {
      key := publishers[id].key;
      publishers := publishers[id := Peer(key, offer, now)];
    }

    method HandleRegister(id: string, offer: Offer, proves: set<string>, drawn: string, now: nat, ghost cfg: Config)
      returns (reply: Reply)
      requires Configured(cfg)
      modifies this`publishers
      ensures (publishers, reply)
           == HandlePeers(cfg, old(publishers), Register(Valid(id), Some(offer), proves, drawn), now)
    {
      SamePass(cfg.vips, id, pass);
      var p := if id in vips then vips[id] else pass;
      if p !in proves {
        return Failed(403, AuthFailed);
      }
      EvictStale(now);
      var added := AddPublisher(id, drawn, now, cfg);
      if !added {
        return Failed(503, TableFull);
      }
      ghost var live := LivePeers(old(publishers), now, ttl);
      var key := SetPublisher(id, offer, now);
      assert id !in live ==> publishers == live[id := Peer(drawn, offer, now)];
      reply := Key(key);
    }

    method HandleHeartbeat(id: string, key: string, offer: Offer, now: nat) returns (reply: Reply)
      modifies this`publishers
      ensures (publishers, reply) == Beat(LivePeers(old(publishers), now, ttl), id, key, offer, now)
    {
      EvictStale(now);
      if id !in publishers {
        return Failed(404, NotFound);
      }
      if publishers[id].key != key {
        return Failed(403, InvalidKey);
      }
      var _ := SetPublisher(id, offer, now);
      reply := Done;
    }

    method HandleLookup(id: string, now: nat, ghost cfg: Config) returns (reply: Reply)
      requires Configured(cfg)
      ensures reply == Show(cfg, publishers, id, now)
    {
      if id !in publishers {
        return Failed(404, NotFound);
      }
      if publishers[id].lastSeen < now - ttl {
        return Failed(404, NotFound);
      }
      reply := Found(id, publishers[id].offer, publishers[id].lastSeen);
    }

    method HandleList(now: nat) returns (reply: Reply)
      ensures reply == Ids(LivePeers(publishers, now, ttl).Keys)
    {
      reply := Ids(set id | id in publishers && publishers[id].lastSeen >= now - ttl);
    }

    method HandleDeregister(id: string, key: string, now: nat) returns (reply: Reply)
      modifies this`publishers
      ensures (publishers, reply) == Leave(LivePeers(old(publishers), now, ttl), id, key)
    {
      EvictStale(now);
      if id !in publishers || publishers[id].key != key {
        return Failed(403, InvalidKey);
      }
      publishers := publishers - {id};
      reply := Done;
    }

    method HandlePunchReq(caller: string, target: string, session: string, cands: seq<Candidate>, now: nat)
      returns (reply: Reply)
      modifies this`pending
      ensures var r := PunchReq(Valid(caller), Valid(target), Some(session), Some(cands));
              (multiset(pending), reply) == ServeCalls(LiveCalls(multiset(old(pending)), now), r, now)
    {
      EvictPending(now);
      assert |multiset(pending)| == |pending|;
      if |pending| >= MAX_PENDING {
        return Failed(503, Busy);
      }
      pending := pending + [Call(caller, target, session, cands, now)];
      reply := Done;
    }

    method HandlePunchPoll(id: string, now: nat) returns (reply: Reply)
      modifies this`pending
      ensures (multiset(pending), reply)
           == ServeCalls(LiveCalls(multiset(old(pending)), now), PunchPoll(Valid(id)), now)
    {
      EvictPending(now);
      WhereTargetSplits(pending, id);
      reply := Calls(multiset(WhereTarget(pending, id, true)));
      pending := WhereTarget(pending, id, false);
    }

    /** `handle`, on a parsed request. */
    method Dispatch(r: Request, now: nat, ghost cfg: Config) returns (reply: Reply)
      requires Configured(cfg)
      modifies this
      ensures (Model(), reply) == Handle(cfg, old(Model()), r, now)
    {
      match r {
        case Register(id, offer, proves, drawn) =>
          if id.Missing? {
            return BAD_REQUEST;
          } else if id.Invalid? {
            return INVALID_ID;
          } else if offer.None? {
            return BAD_REQUEST;
          }
          reply := HandleRegister(id.id, offer.value, proves, drawn, now, cfg);
        case Heartbeat(id, key, offer) =>
          if id.Missing? {
            return BAD_REQUEST;
          } else if id.Invalid? {
            return INVALID_ID;
          } else if key.None? || offer.None? {
            return BAD_REQUEST;
          }
          reply := HandleHeartbeat(id.id, key.value, offer.value, now);
        case Lookup(id) =>
          if id.Missing? {
            return BAD_REQUEST;
          } else if id.Invalid? {
            return INVALID_ID;
          }
          reply := HandleLookup(id.id, now, cfg);
        case ListIds =>
          reply := HandleList(now);
        case Deregister(id, key) =>
          if id.Missing? {
            return BAD_REQUEST;
          } else if id.Invalid? {
            return INVALID_ID;
          } else if key.None? {
            return BAD_REQUEST;
          }
          reply := HandleDeregister(id.id, key.value, now);
        case PunchReq(self, target, session, cands) =>
          if self.Missing? || target.Missing? {
            return BAD_REQUEST;
          } else if self.Invalid? || target.Invalid? {
            return INVALID_ID;
          } else if session.None? || cands.None? {
            return BAD_REQUEST;
          }
          reply := HandlePunchReq(self.id, target.id, session.value, cands.value, now);
        case PunchPoll(id) =>
          if id.Missing? {
            return BAD_REQUEST;
          } else if id.Invalid? {
            return INVALID_ID;
          }
          reply := HandlePunchPoll(id.id, now);
      }
    }
  }
}
