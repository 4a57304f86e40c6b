/** The C index server: arrays of peers and pending calls, searched and edited in place. */
module IndexC {
  import opened Common
  import opened IndexModel
  import opened IndexTheorems

  /** The unsigned 64-bit expiry test of the C code. */
  predicate UnsignedStale(last: nat, now: nat, ttl: nat) {
    (now - last) % TWO64 > ttl
  }

  /** It is the intended test exactly as long as the clock did not run backwards past the record, up to the
      wrap-around of the subtraction. */
  lemma UnsignedStaleExact(last: nat, now: nat, ttl: nat)
    requires last < TWO64 && now < TWO64 && ttl < TWO64
    ensures UnsignedStale(last, now, ttl) == Stale(last, now, ttl) <==> now >= last || TWO64 - (last - now) <= ttl
  {
    if now >= last {
      assert (now - last) % TWO64 == now - last;
    } else {
      assert (now - last) % TWO64 == now - last + TWO64;
    }
  }

  datatype Entry = Entry(id: string, peer: Peer)

  ghost predicate UniqueIds(es: seq<Entry>) {
    forall i, j :: 0 <= i < j < |es| ==> es[i].id != es[j].id
  }

  /** The peer array as a map. */
  ghost function PeerMap(es: seq<Entry>): map<string, Peer> {
    if es == [] then map[] else PeerMap(es[..|es| - 1])[es[|es| - 1].id := es[|es| - 1].peer]
  }

  lemma {:induction false} MapAt(es: seq<Entry>, i: nat)
    requires UniqueIds(es) && i < |es|
    ensures es[i].id in PeerMap(es) && PeerMap(es)[es[i].id] == es[i].peer
  {
    if i < |es| - 1 {
      MapAt(es[..|es| - 1], i);
    }
  }

  lemma {:induction false} MapIndex(es: seq<Entry>, id: string) returns (i: nat)
    requires id in PeerMap(es)
    ensures i < |es| && es[i].id == id
  {
    if es[|es| - 1].id == id {
      i := |es| - 1;
    } else {
      i := MapIndex(es[..|es| - 1], id);
    }
  }

  lemma {:induction false} MapCard(es: seq<Entry>)
    requires UniqueIds(es)
    ensures |PeerMap(es)| == |es|
  {
    if es != [] {
      var front, last := es[..|es| - 1], es[|es| - 1];
      MapCard(front);
      if last.id in PeerMap(front) {
        var i := MapIndex(front, last.id);
        assert false;
      }
      assert PeerMap(es).Keys == PeerMap(front).Keys + {last.id};
    }
  }

  ghost predicate HasId(es: seq<Entry>, id: string) {
    exists i :: 0 <= i < |es| && es[i].id == id
  }

  lemma DeterminedAt(es: seq<Entry>, m: map<string, Peer>, id: string)
    requires UniqueIds(es)
    requires forall i :: 0 <= i < |es| ==> es[i].id in m && m[es[i].id] == es[i].peer
    requires id in m ==> HasId(es, id)
    ensures id in m <==> id in PeerMap(es)
    ensures id in m ==> PeerMap(es)[id] == m[id]
  {
    if id in m {
      var i :| 0 <= i < |es| && es[i].id == id;
      MapAt(es, i);
    } else if id in PeerMap(es) {
      var i := MapIndex(es, id);
      assert false;
    }
  }

  /** Two maps with the same entries are the same. */
  lemma MapDetermined(es: seq<Entry>, m: map<string, Peer>)
    requires UniqueIds(es)
    requires forall i :: 0 <= i < |es| ==> es[i].id in m && m[es[i].id] == es[i].peer
    requires forall id :: id in m ==> HasId(es, id)
    ensures PeerMap(es) == m
  {
    forall id
      ensures id in m <==> id in PeerMap(es)
      ensures id in m ==> PeerMap(es)[id] == m[id]
    {
      DeterminedAt(es, m, id);
    }
  }

  function Without(es: seq<Entry>, i: nat): (r: seq<Entry>)
    requires i < |es|
    ensures |r| == |es| - 1
    ensures forall k :: 0 <= k < i ==> r[k] == es[k]
    ensures forall k :: i <= k < |r| ==> r[k] == es[k + 1]
  {
    es[..i] + es[i + 1..]
  }

  lemma MapWithout(es: seq<Entry>, i: nat)
    requires UniqueIds(es) && i < |es|
    ensures UniqueIds(Without(es, i)) && PeerMap(Without(es, i)) == PeerMap(es) - {es[i].id}
  {
    var r, m := Without(es, i), PeerMap(es) - {es[i].id};
    forall k | 0 <= k < |r|
      ensures r[k].id in m && m[r[k].id] == r[k].peer
    {
      MapAt(es, if k < i then k else k + 1);
    }
    forall id | id in m
      ensures HasId(r, id)
    {
      OthersStay(es, i, id);
    }
    MapDetermined(r, m);
  }

  lemma OthersStay(es: seq<Entry>, i: nat, id: string)
    requires i < |es| && id in PeerMap(es) && id != es[i].id
    ensures HasId(Without(es, i), id)
  {
    var k := MapIndex(es, id);
    assert Without(es, i)[if k < i then k else k - 1].id == id;
  }

  lemma MapUpdate(es: seq<Entry>, i: nat, p: Peer)
    requires UniqueIds(es) && i < |es|
    ensures UniqueIds(es[i := es[i].(peer := p)]) && PeerMap(es[i := es[i].(peer := p)]) == PeerMap(es)[es[i].id := p]
  {
    var r, m := es[i := es[i].(peer := p)], PeerMap(es)[es[i].id := p];
    forall k | 0 <= k < |r|
      ensures r[k].id in m && m[r[k].id] == r[k].peer
    {
      MapAt(es, k);
    }
    forall id | id in m
      ensures HasId(r, id)
    {
      if id == es[i].id {
        assert r[i].id == id;
      } else {
        var k := MapIndex(es, id);
        assert r[k].id == id;
      }
    }
    MapDetermined(r, m);
  }

  lemma MapAppend(es: seq<Entry>, e: Entry)
    requires UniqueIds(es) && e.id !in PeerMap(es)
    ensures UniqueIds(es + [e]) && PeerMap(es + [e]) == PeerMap(es)[e.id := e.peer]
  {
    forall i | 0 <= i < |es|
      ensures es[i].id != e.id
    {
      MapAt(es, i);
    }
    assert (es + [e])[..|es|] == es;
  }

  // -------------------------------------------------------------- pending calls

  /** Removal by moving the last element into the gap. */
  function SwapOut(s: seq<Call>, i: nat): seq<Call>
    requires i < |s|
  {
    s[i := s[|s| - 1]][..|s| - 1]
  }

  lemma Regroup(front: seq<Call>, a: Call, back: seq<Call>, b: Call)
    ensures multiset(front + [b] + back) == multiset(front + [a] + (back + [b])) - multiset{a}
  {
  }

  lemma SwapOutRemoves(s: seq<Call>, i: nat)
    requires i < |s|
    ensures multiset(SwapOut(s, i)) == multiset(s) - multiset{s[i]}
  {
    var last := |s| - 1;
    if i < last {
      var front, back := s[..i], s[i + 1..last];
      assert s == front + [s[i]] + (back + [s[last]]);
      assert SwapOut(s, i) == front + [s[last]] + back;
      Regroup(front, s[i], back, s[last]);
    } else {
      assert s == SwapOut(s, i) + [s[i]];
    }
  }

  lemma LiveDrops(calls: multiset<Call>, c: Call, now: nat)
    requires c in calls && Stale(c.ts, now, CALL_TTL)
    ensures LiveCalls(calls - multiset{c}, now) == LiveCalls(calls, now)
  {
    var a, b := LiveCalls(calls - multiset{c}, now), LiveCalls(calls, now);
    forall x
      ensures a[x] == b[x]
    {
      LiveCount(calls, now, x);
      LiveCount(calls - multiset{c}, now, x);
    }
  }

  ghost predicate NoneStale(s: seq<Call>, now: nat) {
    forall i :: 0 <= i < |s| ==> !Stale(s[i].ts, now, CALL_TTL)
  }

  lemma LiveOneMore(s: seq<Call>, i: nat, now: nat)
    requires i < |s| && NoneStale(s[..i], now) && !Stale(s[i].ts, now, CALL_TTL)
    ensures NoneStale(s[..i + 1], now)
  {
    assert s[..i + 1] == s[..i] + [s[i]];
  }

  lemma AllLive(s: seq<Call>, now: nat)
    requires NoneStale(s, now)
    ensures LiveCalls(multiset(s), now) == multiset(s)
  {
    var live := LiveCalls(multiset(s), now);
    forall c
      ensures live[c] == multiset(s)[c]
    {
      LiveCount(multiset(s), now, c);
      if c in multiset(s) {
        assert c in s;
      }
    }
  }

  /** The taken calls are all for `target`, the kept ones all for others. */
  lemma TakenAre(taken: seq<Call>, kept: seq<Call>, all: multiset<Call>, target: string)
    requires multiset(taken) + multiset(kept) == all
    requires forall i :: 0 <= i < |taken| ==> taken[i].target == target
    requires forall i :: 0 <= i < |kept| ==> kept[i].target != target
    ensures multiset(taken) == CallsFor(all, target) && multiset(kept) == all - CallsFor(all, target)
  {
    var mine := CallsFor(all, target);
    forall c
      ensures multiset(taken)[c] == mine[c]
    {
      CountFor(all, target, c);
      assert c in taken ==> c.target == target;
      assert c in kept ==> c.target != target;
      assert all[c] == multiset(taken)[c] + multiset(kept)[c];
    }
    assert forall c :: multiset(kept)[c] == (all - mine)[c];
  }

  // ---------------------------------------------------------------- the server

  class Server {
    const cfg: Config
    const ordinaryCap: nat
    var peers: seq<Entry>
    var pending: seq<Call>

    ghost predicate Valid()
      reads this
    {
      && UniqueVips(cfg.vips) && UniqueIds(peers) && |pending| <= MAX_PENDING && cfg.ttl < TWO64
      && (cfg.seats.Some? ==> ordinaryCap == OrdinaryCap(cfg.seats.value, |cfg.vips|))
    }

    /** No record is later than `now`: the clock is monotonic. */
    ghost predicate Clocked(now: nat)
      reads this
    {
      && now < TWO64
      && (forall i :: 0 <= i < |peers| ==> peers[i].peer.lastSeen <= now)
      && (forall i :: 0 <= i < |pending| ==> pending[i].ts <= now)
    }

    ghost function Model(): Index
      reads this
    {
      Index(PeerMap(peers), multiset(pending))
    }

    constructor (cfg: Config)
      requires UniqueVips(cfg.vips) && cfg.ttl < TWO64
      ensures Valid() && Model() == EMPTY_INDEX && this.cfg == cfg && forall now: nat :: now < TWO64 ==> Clocked(now)
    {
      this.cfg := cfg;
      peers, pending := [], [];
      ordinaryCap := if cfg.seats.None? || |cfg.vips| >= cfg.seats.value then 0 else cfg.seats.value - |cfg.vips|;
    }

    method FindVip(id: string) returns (i: int)
      ensures -1 <= i < |cfg.vips|
      ensures i >= 0 <==> id in VipIds(cfg.vips)
      ensures PassFor(cfg, id) == if i >= 0 then cfg.vips[i].pass else cfg.pass
    {
      i := 0;
      while i < |cfg.vips|
        invariant 0 <= i <= |cfg.vips|
        invariant forall k :: 0 <= k < i ==> cfg.vips[k].id != id
        invariant PassIn(cfg.vips[i..], id, cfg.pass) == PassFor(cfg, id)
      {
        assert cfg.vips[i..][1..] == cfg.vips[i + 1..];
        if cfg.vips[i].id == id {
          VipMember(cfg.vips, i);
          return;
        }
        i := i + 1;
      }
      if id in VipIds(cfg.vips) {
        ghost var k := VipIndex(cfg.vips, id);
        assert false;
      }
      i := -1;
    }

    method FindPeer(id: string) returns (i: int)
      requires UniqueIds(peers)
      ensures -1 <= i < |peers| && (i >= 0 <==> id in PeerMap(peers))
      ensures i >= 0 ==> peers[i].id == id && PeerMap(peers)[id] == peers[i].peer
    {
      i := 0;
      while i < |peers|
        invariant 0 <= i <= |peers|
        invariant forall k :: 0 <= k < i ==> peers[k].id != id
      {
        if peers[i].id == id {
          MapAt(peers, i);
          return;
        }
        i := i + 1;
      }
      if id in PeerMap(peers) {
        ghost var k := MapIndex(peers, id);
        assert false;
      }
      i := -1;
    }

    method CountOrdinary() returns (count: nat)
      requires Valid()
      ensures count == |PeerMap(peers).Keys - VipIds(cfg.vips)|
    {
      count := 0;
      var i := 0;
      while i < |peers|
        invariant 0 <= i <= |peers|
        invariant count == |PeerMap(peers[..i]).Keys - VipIds(cfg.vips)|
      {
        var v := FindVip(peers[i].id);
        CountStep(peers, i, VipIds(cfg.vips));
        if v < 0 {
          count := count + 1;
        }
        i := i + 1;
      }
      assert peers[..i] == peers;
    }

    /** Closes the gap left by one peer. */
    method RemovePeerAt(i: nat, ghost now: nat)
      requires Valid() && Clocked(now) && i < |peers|
      modifies this`peers
      ensures Valid() && Clocked(now) && peers == Without(old(peers), i)
      ensures PeerMap(peers) == old(PeerMap(peers)) - {old(peers[i].id)}
    {
      MapWithout(peers, i);
      peers := Without(peers, i);
    }

    /** `redp2p_evict_stale`: walks the array from its end, closing the gap after each removal. */
    method EvictStale(now: nat)
      requires Valid() && Clocked(now)
      modifies this`peers
      ensures Valid() && Clocked(now) && PeerMap(peers) == LivePeers(old(PeerMap(peers)), now, cfg.ttl)
    {
      var i := |peers|;
      while i > 0
        invariant 0 <= i <= |peers| && Valid() && Clocked(now)
        invariant LivePeers(PeerMap(peers), now, cfg.ttl) == LivePeers(old(PeerMap(peers)), now, cfg.ttl)
        invariant forall k :: i <= k < |peers| ==> !Stale(peers[k].peer.lastSeen, now, cfg.ttl)
      {
        i := i - 1;
        UnsignedStaleExact(peers[i].peer.lastSeen, now, cfg.ttl);
        if UnsignedStale(peers[i].peer.lastSeen, now, cfg.ttl) {
          MapAt(peers, i);
          EvictOne(PeerMap(peers), peers[i].id, now, cfg.ttl);
          RemovePeerAt(i, now);
        }
      }
      AllPeersLive(peers, now, cfg.ttl);
    }

    /** `redp2p_add_peer`, then the record update of the register handler. */
    method Seat(id: string, offer: Offer, drawn: string, now: nat) returns (reply: Reply)
      requires Valid() && Clocked(now)
      modifies this`peers
      ensures Valid() && Clocked(now)
      ensures (PeerMap(peers), reply) == IndexModel.Seat(cfg, old(PeerMap(peers)), id, offer, drawn, now)
    {
      var i := FindPeer(id);
      if i >= 0 {
        MapUpdate(peers, i, Peer(peers[i].peer.key, offer, now));
        reply := Key(peers[i].peer.key);
        peers := peers[i := peers[i].(peer := Peer(peers[i].peer.key, offer, now))];
        return;
      }
      var full := NoSeat(id);
      if full {
        return Failed(503, TableFull);
      }
      MapAppend(peers, Entry(id, Peer(drawn, offer, now)));
      peers := peers + [Entry(id, Peer(drawn, offer, now))];
      reply := Key(drawn);
    }

    /** The capacity checks of `redp2p_add_peer`. */
    method NoSeat(id: string) returns (full: bool)
      requires Valid()
      ensures full == Full(cfg, PeerMap(peers).Keys, id)
    {
      MapCard(peers);
      assert |PeerMap(peers).Keys| == |peers|;
      var vip := FindVip(id);
      if cfg.seats.Some? && |peers| >= cfg.seats.value {
        return true;
      }
      if cfg.seats.Some? && vip < 0 {
        var ordinary := CountOrdinary();
        return ordinary >= ordinaryCap;
      }
      full := false;
    }

    method HandleRegister(id: string, offer: Offer, proves: set<string>, drawn: string, now: nat) returns (reply: Reply)
      requires Valid() && Clocked(now)
      modifies this`peers
      ensures Valid() && Clocked(now)
      ensures (PeerMap(peers), reply)
           == HandlePeers(cfg, old(PeerMap(peers)), Register(IndexModel.Valid(id), Some(offer), proves, drawn), now)
    {
      var vip := FindVip(id);
      var pass := if vip >= 0 then cfg.vips[vip].pass else cfg.pass;
      if pass !in proves {
        return Failed(403, AuthFailed);
      }
      EvictStale(now);
      reply := Seat(id, offer, drawn, now);
    }

    method HandleHeartbeat(id: string, key: string, offer: Offer, now: nat) returns (reply: Reply)
      requires Valid() && Clocked(now)
      modifies this`peers
      ensures Valid() && Clocked(now)
      ensures (PeerMap(peers), reply) == Beat(LivePeers(old(PeerMap(peers)), now, cfg.ttl), id, key, offer, now)
    {
      EvictStale(now);
      var i := FindPeer(id);
      if i < 0 {
        return Failed(404, NotFound);
      }
      if peers[i].peer.key != key {
        return Failed(403, InvalidKey);
      }
      MapUpdate(peers, i, Peer(key, offer, now));
      peers := peers[i := peers[i].(peer := Peer(key, offer, now))];
      reply := Done;
    }

    method HandleLookup(id: string, now: nat) returns (reply: Reply)
      requires Valid() && Clocked(now)
      ensures reply == Show(cfg, PeerMap(peers), id, now)
    {
      var i := FindPeer(id);
      if i < 0 {
        return Failed(404, NotFound);
      }
      UnsignedStaleExact(peers[i].peer.lastSeen, now, cfg.ttl);
      if UnsignedStale(peers[i].peer.lastSeen, now, cfg.ttl) {
        return Failed(404, NotFound);
      }
      reply := Found(peers[i].id, peers[i].peer.offer, peers[i].peer.lastSeen);
    }

    method HandleList(now: nat) returns (reply: Reply)
      requires Valid() && Clocked(now)
      ensures reply == Ids(LivePeers(PeerMap(peers), now, cfg.ttl).Keys)
    {
      var ids: set<string> := {};
      var i := 0;
      while i < |peers|
        invariant 0 <= i <= |peers|
        invariant ids == LivePeers(PeerMap(peers[..i]), now, cfg.ttl).Keys
      {
        UnsignedStaleExact(peers[i].peer.lastSeen, now, cfg.ttl);
        ListStep(peers, i, now, cfg.ttl);
        if !UnsignedStale(peers[i].peer.lastSeen, now, cfg.ttl) {
          ids := ids + {peers[i].id};
        }
        i := i + 1;
      }
      assert peers[..i] == peers;
      reply := Ids(ids);
    }

    method HandleDeregister(id: string, key: string, now: nat) returns (reply: Reply)
      requires Valid() && Clocked(now)
      modifies this`peers
      ensures Valid() && Clocked(now)
      ensures (PeerMap(peers), reply) == Leave(LivePeers(old(PeerMap(peers)), now, cfg.ttl), id, key)
    {
      EvictStale(now);
      var i := FindPeer(id);
      if i < 0 || peers[i].peer.key != key {
        return Failed(403, InvalidKey);
      }
      RemovePeerAt(i, now);
      reply := Done;
    }

    /** `redp2p_pending_call_remove`. */
    method RemoveCallAt(i: nat) returns (call: Call)
      requires Valid() && i < |pending|
      modifies this`pending
      ensures Valid() && call == old(pending[i]) && |pending| == old(|pending|) - 1
      ensures multiset(pending) == multiset(old(pending)) - multiset{call}
      ensures forall k :: 0 <= k < i ==> pending[k] == old(pending[k])
      ensures forall now :: old(Clocked(now)) ==> Clocked(now)
    {
      call := pending[i];
      SwapOutRemoves(pending, i);
      pending := SwapOut(pending, i);
    }

    /** `redp2p_pending_call_evict_stale`: the last call fills each gap and is examined in turn. */
    method EvictPending(now: nat)
      requires Valid() && Clocked(now)
      modifies this`pending
      ensures Valid() && Clocked(now) && multiset(pending) == LiveCalls(multiset(old(pending)), now)
    {
      var i := 0;
      ghost var goal := LiveCalls(multiset(pending), now);
      while i < |pending|
        invariant 0 <= i <= |pending| && Valid() && Clocked(now)
        invariant LiveCalls(multiset(pending), now) == goal
        invariant NoneStale(pending[..i], now)
        decreases |pending| - i
      {
        var expired := Expired(pending[i].ts, now);
        if expired {
          DropStaleCall(i, now);
        } else {
          LiveOneMore(pending, i, now);
          i := i + 1;
        }
      }
      assert pending[..i] == pending;
      AllLive(pending, now);
    }

    method Expired(ts: nat, now: nat) returns (expired: bool)
      requires ts <= now < TWO64
      ensures expired == Stale(ts, now, CALL_TTL)
    {
      UnsignedStaleExact(ts, now, CALL_TTL);
      expired := UnsignedStale(ts, now, CALL_TTL);
    }

    method DropStaleCall(i: nat, ghost now: nat)
      requires Valid() && Clocked(now) && i < |pending| && Stale(pending[i].ts, now, CALL_TTL)
      modifies this`pending
      ensures Valid() && Clocked(now) && |pending| == old(|pending|) - 1
      ensures LiveCalls(multiset(pending), now) == LiveCalls(multiset(old(pending)), now)
      ensures pending[..i] == old(pending[..i])
    {
      LiveDrops(multiset(pending), pending[i], now);
      var _ := RemoveCallAt(i);
    }

    method HandlePunchReq(caller: string, target: string, session: string, cands: seq<Candidate>, now: nat)
      returns (reply: Reply)
      requires Valid() && Clocked(now)
      modifies this`pending
      ensures Valid() && Clocked(now)
      ensures var r := PunchReq(IndexModel.Valid(caller), IndexModel.Valid(target), Some(session), Some(cands));
              (multiset(pending), reply) == ServeCalls(LiveCalls(multiset(old(pending)), now), r, now)
    {
      EvictPending(now);
      assert |multiset(pending)| == |pending|;
      if |pending| >= MAX_PENDING {
        return Failed(503, Busy);
      }
      pending := pending + [Call(caller, target, session, cands, now)];
      reply := Done;
    }

    /** `redp2p_pending_call_take_all`. */
    method TakeAll(target: string) returns (taken: seq<Call>)
      requires Valid()
      modifies this`pending
      ensures Valid() && multiset(taken) == CallsFor(multiset(old(pending)), target)
      ensures multiset(pending) == multiset(old(pending)) - CallsFor(multiset(old(pending)), target)
      ensures forall now :: old(Clocked(now)) ==> Clocked(now)
    {
      taken := [];
      var i := 0;
      while i < |pending|
        invariant 0 <= i <= |pending| && Valid()
        invariant multiset(taken) + multiset(pending) == multiset(old(pending))
        invariant forall k :: 0 <= k < |taken| ==> taken[k].target == target
        invariant forall k :: 0 <= k < i ==> pending[k].target != target
        invariant forall now :: old(Clocked(now)) ==> Clocked(now)
        decreases |pending| - i
      {
        if pending[i].target == target {
          var call := RemoveCallAt(i);
          taken := taken + [call];
        } else {
          i := i + 1;
        }
      }
      TakenAre(taken, pending, multiset(old(pending)), target);
    }

    method HandlePunchPoll(id: string, now: nat) returns (reply: Reply)
      requires Valid() && Clocked(now)
      modifies this`pending
      ensures Valid() && Clocked(now)
      ensures (multiset(pending), reply)
           == ServeCalls(LiveCalls(multiset(old(pending)), now), PunchPoll(IndexModel.Valid(id)), now)
    {
      EvictPending(now);
      var taken := TakeAll(id);
      reply := Calls(multiset(taken));
    }

    /** `redp2p_index_dispatch` on a parsed request. */
    method Dispatch(r: Request, now: nat) returns (reply: Reply)
      requires Valid() && Clocked(now)
      modifies this
      ensures Valid() && Clocked(now) && (Model(), reply) == Handle(cfg, old(Model()), r, now)
    {
      match r {
        case Register(id, offer, proves, drawn) =>
          if !id.Valid? {
            return if id.Missing? then BAD_REQUEST else INVALID_ID;
          }
          if offer.None? {
            return BAD_REQUEST;
          }
          reply := HandleRegister(id.id, offer.value, proves, drawn, now);
        case Heartbeat(id, key, offer) =>
          if !id.Valid? {
            return if id.Missing? then BAD_REQUEST else INVALID_ID;
          }
          if key.None? || offer.None? {
            return BAD_REQUEST;
          }
          reply := HandleHeartbeat(id.id, key.value, offer.value, now);
        case Lookup(id) =>
          if !id.Valid? {
            return if id.Missing? then BAD_REQUEST else INVALID_ID;
          }
          reply := HandleLookup(id.id, now);
        case ListIds =>
          reply := HandleList(now);
        case Deregister(id, key) =>
          if !id.Valid? {
            return if id.Missing? then BAD_REQUEST else INVALID_ID;
          }
          if key.None? {
            return BAD_REQUEST;
          }
          reply := HandleDeregister(id.id, key.value, now);
        case PunchReq(self, target, session, cands) =>
          if self.Missing? || target.Missing? {
            return BAD_REQUEST;
          }
          if self.Invalid? || target.Invalid? {
            return INVALID_ID;
          }
          if session.None? || cands.None? {
            return BAD_REQUEST;
          }
          reply := HandlePunchReq(self.id, target.id, session.value, cands.value, now);
        case PunchPoll(id) =>
          if !id.Valid? {
            return if id.Missing? then BAD_REQUEST else INVALID_ID;
          }
          reply := HandlePunchPoll(id.id, now);
      }
    }
  }

  lemma CountStep(es: seq<Entry>, i: nat, vips: set<string>)
    requires UniqueIds(es) && i < |es|
    ensures |PeerMap(es[..i + 1]).Keys - vips| == |PeerMap(es[..i]).Keys - vips| + (if es[i].id in vips then 0 else 1)
  {
    var front := es[..i];
    assert es[..i + 1][..i] == front;
    if es[i].id in PeerMap(front) {
      var k := MapIndex(front, es[i].id);
      assert false;
    }
    var a, b := PeerMap(front).Keys - vips, PeerMap(es[..i + 1]).Keys - vips;
    if es[i].id in vips {
      assert b == a;
    } else {
      assert b == a + {es[i].id};
    }
  }

  lemma ListStep(es: seq<Entry>, i: nat, now: nat, ttl: nat)
    requires UniqueIds(es) && i < |es|
    ensures LivePeers(PeerMap(es[..i + 1]), now, ttl).Keys
         == LivePeers(PeerMap(es[..i]), now, ttl).Keys
          + (if Stale(es[i].peer.lastSeen, now, ttl) then {} else {es[i].id})
  {
    var front := es[..i];
    assert es[..i + 1][..i] == front;
    if es[i].id in PeerMap(front) {
      var k := MapIndex(front, es[i].id);
      assert false;
    }
  }

  lemma EvictOne(m: map<string, Peer>, id: string, now: nat, ttl: nat)
    requires id in m && Stale(m[id].lastSeen, now, ttl)
    ensures LivePeers(m - {id}, now, ttl) == LivePeers(m, now, ttl)
  {
  }

  lemma AllPeersLive(es: seq<Entry>, now: nat, ttl: nat)
    requires UniqueIds(es) && forall k :: 0 <= k < |es| ==> !Stale(es[k].peer.lastSeen, now, ttl)
    ensures LivePeers(PeerMap(es), now, ttl) == PeerMap(es)
  {
    forall id | id in PeerMap(es)
      ensures !Stale(PeerMap(es)[id].lastSeen, now, ttl)
    {
      var i := MapIndex(es, id);
      MapAt(es, i);
    }
  }
}
