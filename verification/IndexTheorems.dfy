/** What the index guarantees in every run. */
module IndexTheorems {
  import opened Common
  import opened IndexModel

  /** A request with the time at which it is handled. */
  datatype Timed = Timed(request: Request, now: nat)

  const EMPTY_INDEX: Index := Index(map[], multiset{})

  // ------------------------------------------------------------------- seats

  /** The seat table within its limits. */
  ghost predicate Seated(cfg: Config, keys: set<string>) {
    cfg.seats.Some? ==>
      && |keys| <= cfg.seats.value
      && |keys - VipIds(cfg.vips)| <= OrdinaryCap(cfg.seats.value, |cfg.vips|)
  }

  lemma FewerPeers(cfg: Config, a: set<string>, b: set<string>)
    requires Seated(cfg, b) && a <= b
    ensures Seated(cfg, a)
  {
    SubsetCard(a, b);
    SubsetCard(a - VipIds(cfg.vips), b - VipIds(cfg.vips));
  }

  lemma NewPeer(cfg: Config, keys: set<string>, id: string)
    requires Seated(cfg, keys) && (id in keys || !Full(cfg, keys, id))
    ensures Seated(cfg, keys + {id})
  {
    var vips := VipIds(cfg.vips);
    if id in keys {
      assert keys + {id} == keys;
    } else if id in vips {
      assert (keys + {id}) - vips == keys - vips;
    } else {
      assert (keys + {id}) - vips == (keys - vips) + {id};
    }
  }

  lemma SeatSeated(cfg: Config, live: map<string, Peer>, id: string, offer: Offer, drawn: string, now: nat)
    requires Seated(cfg, live.Keys)
    ensures Seated(cfg, Seat(cfg, live, id, offer, drawn, now).0.Keys)
  {
    var r := Seat(cfg, live, id, offer, drawn, now).0;
    if id in live || !Full(cfg, live.Keys, id) {
      NewPeer(cfg, live.Keys, id);
      assert r.Keys == live.Keys + {id};
    }
  }

  lemma PeersSeated(cfg: Config, peers: map<string, Peer>, r: Request, now: nat)
    requires !r.PunchReq? && !r.PunchPoll? && Seated(cfg, peers.Keys)
    ensures Seated(cfg, HandlePeers(cfg, peers, r, now).0.Keys)
  {
    if r.Register? {
      RegisterSeated(cfg, peers, r, now);
    } else {
      OthersAddNobody(cfg, peers, r, now);
      FewerPeers(cfg, HandlePeers(cfg, peers, r, now).0.Keys, peers.Keys);
    }
  }

  lemma RegisterSeated(cfg: Config, peers: map<string, Peer>, r: Request, now: nat)
    requires r.Register? && Seated(cfg, peers.Keys)
    ensures Seated(cfg, HandlePeers(cfg, peers, r, now).0.Keys)
  {
    if r.id.Valid? && r.offer.Some? {
      var live := LivePeers(peers, now, cfg.ttl);
      FewerPeers(cfg, live.Keys, peers.Keys);
      SeatSeated(cfg, live, r.id.id, r.offer.value, r.drawn, now);
      assert PassFor(cfg, r.id.id) in r.proves ==>
               HandlePeers(cfg, peers, r, now) == Seat(cfg, live, r.id.id, r.offer.value, r.drawn, now);
    }
  }

  lemma OthersAddNobody(cfg: Config, peers: map<string, Peer>, r: Request, now: nat)
    requires !r.PunchReq? && !r.PunchPoll? && !r.Register?
    ensures HandlePeers(cfg, peers, r, now).0.Keys <= peers.Keys
  {
  }

  lemma HandleSeated(cfg: Config, s: Index, r: Request, now: nat)
    requires Seated(cfg, s.peers.Keys)
    ensures Seated(cfg, Handle(cfg, s, r, now).0.peers.Keys)
  {
    if !r.PunchReq? && !r.PunchPoll? {
      PeersSeated(cfg, s.peers, r, now);
    }
  }

  ghost function Run(cfg: Config, s: Index, rs: seq<Timed>): Index
    decreases |rs|
  {
    if rs == [] then s
    else
      var last := rs[|rs| - 1];
      Handle(cfg, Run(cfg, s, rs[..|rs| - 1]), last.request, last.now).0
  }

  /** In every run from the empty index, peers never exceed the seats and ordinary peers never exceed the seats
      left over by the reservations, whether or not the reserved publishers are online. */
  lemma {:induction false} SeatsRespected(cfg: Config, rs: seq<Timed>)
    ensures Seated(cfg, Run(cfg, EMPTY_INDEX, rs).peers.Keys)
    decreases |rs|
  {
    if rs == [] {
      assert EMPTY_INDEX.peers.Keys == {};
    } else {
      SeatsRespected(cfg, rs[..|rs| - 1]);
      HandleSeated(cfg, Run(cfg, EMPTY_INDEX, rs[..|rs| - 1]), rs[|rs| - 1].request, rs[|rs| - 1].now);
    }
  }

  lemma {:induction false} VipMember(vips: seq<Vip>, i: nat)
    requires i < |vips|
    ensures vips[i].id in VipIds(vips)
  {
    if i < |vips| - 1 {
      VipMember(vips[..|vips| - 1], i);
    }
  }

  lemma {:induction false} VipIndex(vips: seq<Vip>, id: string) returns (i: nat)
    requires id in VipIds(vips)
    ensures i < |vips| && vips[i].id == id
  {
    if vips[|vips| - 1].id == id {
      i := |vips| - 1;
    } else {
      i := VipIndex(vips[..|vips| - 1], id);
    }
  }

  lemma NewVip(vips: seq<Vip>, k: nat)
    requires UniqueVips(vips) && k < |vips|
    ensures vips[k].id !in VipIds(vips[..k]) && VipIds(vips[..k + 1]) == VipIds(vips[..k]) + {vips[k].id}
  {
    if vips[k].id in VipIds(vips[..k]) {
      var i := VipIndex(vips[..k], vips[k].id);
      assert false;
    }
    assert vips[..k + 1][..k] == vips[..k];
  }

  lemma {:induction false} VipCount(vips: seq<Vip>)
    requires UniqueVips(vips)
    ensures |VipIds(vips)| == |vips|
  {
    if vips != [] {
      VipCount(vips[..|vips| - 1]);
      NewVip(vips, |vips| - 1);
    }
  }

  /** With no more reservations than seats, a seat is left for every reserved publisher that is offline. */
  lemma SeatKept(cfg: Config, keys: set<string>, id: string)
    requires UniqueVips(cfg.vips) && cfg.seats.Some? && |cfg.vips| <= cfg.seats.value
    requires Seated(cfg, keys) && id in VipIds(cfg.vips) && id !in keys
    ensures !Full(cfg, keys, id)
  {
    var vips := VipIds(cfg.vips);
    VipCount(cfg.vips);
    SubsetCard(keys * vips, vips - {id});
    assert keys == keys * vips + (keys - vips);
  }

  /** After any run, a reserved publisher with a valid proof is never refused as full, provided there are no
      more reservations than seats; and anyone still registered may always register again. */
  lemma ReservedAlwaysAdmitted(cfg: Config, rs: seq<Timed>, id: string, offer: Offer, proves: set<string>,
                               drawn: string,
                               now: nat)
    requires UniqueVips(cfg.vips) && PassFor(cfg, id) in proves
    requires var s := Run(cfg, EMPTY_INDEX, rs);
             || id in LivePeers(s.peers, now, cfg.ttl)
             || (id in VipIds(cfg.vips) && (cfg.seats.None? || |cfg.vips| <= cfg.seats.value))
    ensures Handle(cfg, Run(cfg, EMPTY_INDEX, rs), Register(Valid(id), Some(offer), proves, drawn), now).1.Key?
  {
    SeatsRespected(cfg, rs);
    var s := Run(cfg, EMPTY_INDEX, rs);
    var e := LivePeers(s.peers, now, cfg.ttl);
    FewerPeers(cfg, e.Keys, s.peers.Keys);
    if id !in e && cfg.seats.Some? {
      SeatKept(cfg, e.Keys, id);
    }
  }

  lemma {:induction false} PassOfOthers(vips: seq<Vip>, id: string, shared: string)
    requires forall i :: 0 <= i < |vips| ==> vips[i].id != id
    ensures PassIn(vips, id, shared) == shared
  {
    if vips != [] {
      PassOfOthers(vips[1..], id, shared);
    }
  }

  /** A reserved id has the password of its reservation, every other the shared one. */
  lemma PasswordExact(cfg: Config, id: string, pass: string)
    requires UniqueVips(cfg.vips)
    ensures PassFor(cfg, id) == pass
       <==> || (exists i :: 0 <= i < |cfg.vips| && cfg.vips[i] == Vip(id, pass))
            || ((forall i :: 0 <= i < |cfg.vips| ==> cfg.vips[i].id != id) && pass == cfg.pass)
  {
    if i :| 0 <= i < |cfg.vips| && cfg.vips[i].id == id {
      PassOfVip(cfg.vips, i, cfg.pass);
      assert cfg.vips[i] == Vip(id, cfg.vips[i].pass);
    } else {
      PassOfOthers(cfg.vips, id, cfg.pass);
    }
  }

  /** A newcomer is refused exactly when seating it would exceed the seats, or the seats that the reservations leave. */
  lemma FullExact(cfg: Config, keys: set<string>, id: string)
    requires Seated(cfg, keys) && id !in keys
    ensures Full(cfg, keys, id) <==> !Seated(cfg, keys + {id})
  {
    var vips := VipIds(cfg.vips);
    if id in vips {
      assert (keys + {id}) - vips == keys - vips;
    } else {
      assert (keys + {id}) - vips == (keys - vips) + {id};
    }
  }

  /** The run in which the first `k` reserved publishers register at time 0. */
  function Arrivals(vips: seq<Vip>, k: nat): seq<Timed>
    requires k <= |vips|
  {
    if k == 0 then []
    else Arrivals(vips, k - 1) + [Timed(Arrival(vips[k - 1]), 0)]
  }

  function Arrival(v: Vip): Request {
    Register(Valid(v.id), Some(Offer(1, 1, [])), {v.pass}, "key")
  }

  lemma RunSnoc(cfg: Config, s: Index, rs: seq<Timed>, t: Timed)
    ensures Run(cfg, s, rs + [t]) == Handle(cfg, Run(cfg, s, rs), t.request, t.now).0
  {
    assert (rs + [t])[..|rs|] == rs;
  }

  lemma {:induction false} PassOfVip(vips: seq<Vip>, i: nat, shared: string)
    requires UniqueVips(vips) && i < |vips|
    ensures PassIn(vips, vips[i].id, shared) == vips[i].pass
  {
    if i > 0 {
      PassOfVip(vips[1..], i - 1, shared);
    }
  }

  /** At time 0 nothing has expired. */
  lemma NothingStale(peers: map<string, Peer>, ttl: nat)
    ensures LivePeers(peers, 0, ttl) == peers
  {
  }

  lemma ArrivalAdmitted(cfg: Config, s: Index, k: nat)
    requires UniqueVips(cfg.vips) && k < |cfg.vips| && cfg.seats.Some? && s.peers.Keys == VipIds(cfg.vips[..k])
    ensures var (t, reply) := Handle(cfg, s, Arrival(cfg.vips[k]), 0);
            && (k < cfg.seats.value ==> t.peers.Keys == VipIds(cfg.vips[..k + 1]))
            && (k >= cfg.seats.value ==> reply == Failed(503, TableFull))
  {
    PassOfVip(cfg.vips, k, cfg.pass);
    NothingStale(s.peers, cfg.ttl);
    VipCount(cfg.vips[..k]);
    NewVip(cfg.vips, k);
    VipMember(cfg.vips, k);
  }

  lemma {:induction false} ArrivalsSit(cfg: Config, k: nat)
    requires UniqueVips(cfg.vips) && k <= |cfg.vips| && cfg.seats.Some? && k <= cfg.seats.value
    ensures Run(cfg, EMPTY_INDEX, Arrivals(cfg.vips, k)).peers.Keys == VipIds(cfg.vips[..k])
  {
    if k > 0 {
      ArrivalsSit(cfg, k - 1);
      RunSnoc(cfg, EMPTY_INDEX, Arrivals(cfg.vips, k - 1), Timed(Arrival(cfg.vips[k - 1]), 0));
      ArrivalAdmitted(cfg, Run(cfg, EMPTY_INDEX, Arrivals(cfg.vips, k - 1)), k - 1);
    } else {
      assert VipIds(cfg.vips[..0]) == {};
    }
  }

  /** The bound on reservations is exact: with more reservations than seats, some run ends with a reserved
      publisher refused although its proof is valid. */
  lemma OverbookedRefuses(cfg: Config)
    requires UniqueVips(cfg.vips) && cfg.seats.Some? && cfg.seats.value < |cfg.vips|
    ensures var k := cfg.seats.value;
            Handle(cfg, Run(cfg, EMPTY_INDEX, Arrivals(cfg.vips, k)), Arrival(cfg.vips[k]), 0).1
            == Failed(503, TableFull)
  {
    var k := cfg.seats.value;
    ArrivalsSit(cfg, k);
    ArrivalAdmitted(cfg, Run(cfg, EMPTY_INDEX, Arrivals(cfg.vips, k)), k);
  }

  // ----------------------------------------------------------------- pruning

  /** The two indexes agree on everything not expired at `now`. */
  ghost predicate Agree(cfg: Config, a: Index, b: Index, now: nat) {
    && LivePeers(a.peers, now, cfg.ttl) == LivePeers(b.peers, now, cfg.ttl)
    && LiveCalls(a.calls, now) == LiveCalls(b.calls, now)
  }

  lemma LiveTwice(peers: map<string, Peer>, t: nat, now: nat, ttl: nat)
    requires t <= now
    ensures LivePeers(LivePeers(peers, t, ttl), now, ttl) == LivePeers(peers, now, ttl)
  {
  }

  lemma CallsTwice(calls: multiset<Call>, t: nat, now: nat)
    requires t <= now
    ensures LiveCalls(LiveCalls(calls, t), now) == LiveCalls(calls, now)
  {
    forall c
      ensures LiveCalls(LiveCalls(calls, t), now)[c] == LiveCalls(calls, now)[c]
    {
      LiveCount(LiveCalls(calls, t), now, c);
      LiveCount(calls, t, c);
      LiveCount(calls, now, c);
    }
  }

  lemma AgreeLater(cfg: Config, a: Index, b: Index, t: nat, now: nat)
    requires Agree(cfg, a, b, t) && t <= now
    ensures Agree(cfg, a, b, now)
  {
    LiveTwice(a.peers, t, now, cfg.ttl);
    LiveTwice(b.peers, t, now, cfg.ttl);
    CallsTwice(a.calls, t, now);
    CallsTwice(b.calls, t, now);
  }

  /** An eviction at some moment, of publishers, of calls, or of both. */
  datatype Pruning = Pruning(at: nat, peers: bool, calls: bool)

  ghost function Prune(cfg: Config, s: Index, p: Pruning): Index {
    Index(if p.peers then LivePeers(s.peers, p.at, cfg.ttl) else s.peers,
          if p.calls then LiveCalls(s.calls, p.at) else s.calls)
  }

  /** Evictions one after the other. */
  ghost function PruneAll(cfg: Config, s: Index, ps: seq<Pruning>): Index
    decreases |ps|
  {
    if ps == [] then s else PruneAll(cfg, Prune(cfg, s, ps[0]), ps[1..])
  }

  lemma PruneAgrees(cfg: Config, s: Index, p: Pruning, now: nat)
    requires p.at <= now
    ensures Agree(cfg, s, Prune(cfg, s, p), now)
  {
    LiveTwice(s.peers, p.at, now, cfg.ttl);
    CallsTwice(s.calls, p.at, now);
  }

  lemma {:induction false} PruneAllAgrees(cfg: Config, s: Index, ps: seq<Pruning>, now: nat)
    requires forall i :: 0 <= i < |ps| ==> ps[i].at <= now
    ensures Agree(cfg, s, PruneAll(cfg, s, ps), now)
    decreases |ps|
  {
    if ps != [] {
      PruneAgrees(cfg, s, ps[0], now);
      PruneAllAgrees(cfg, Prune(cfg, s, ps[0]), ps[1..], now);
    }
  }

  lemma HandlePeersAgree(cfg: Config, a: map<string, Peer>, b: map<string, Peer>, r: Request, now: nat)
    requires !r.PunchReq? && !r.PunchPoll? && LivePeers(a, now, cfg.ttl) == LivePeers(b, now, cfg.ttl)
    ensures HandlePeers(cfg, a, r, now).1 == HandlePeers(cfg, b, r, now).1
    ensures LivePeers(HandlePeers(cfg, a, r, now).0, now, cfg.ttl)
         == LivePeers(HandlePeers(cfg, b, r, now).0, now, cfg.ttl)
  {
    if r.Lookup? && r.id.Valid? {
      ShowAgrees(cfg, a, b, r.id.id, now);
    }
  }

  lemma ShowAgrees(cfg: Config, a: map<string, Peer>, b: map<string, Peer>, id: string, now: nat)
    requires LivePeers(a, now, cfg.ttl) == LivePeers(b, now, cfg.ttl)
    ensures Show(cfg, a, id, now) == Show(cfg, b, id, now)
  {
    var la, lb := LivePeers(a, now, cfg.ttl), LivePeers(b, now, cfg.ttl);
    assert id in la <==> id in lb;
    assert id in la ==> a[id] == la[id];
    assert id in lb ==> b[id] == lb[id];
  }

  lemma HandleCallsAgree(a: multiset<Call>, b: multiset<Call>, r: Request, now: nat)
    requires (r.PunchReq? || r.PunchPoll?) && LiveCalls(a, now) == LiveCalls(b, now)
    ensures HandleCalls(a, r, now).1 == HandleCalls(b, r, now).1
    ensures LiveCalls(HandleCalls(a, r, now).0, now) == LiveCalls(HandleCalls(b, r, now).0, now)
  {
  }

  /** Indexes that agree answer alike and still agree afterwards. */
  lemma HandleAgrees(cfg: Config, a: Index, b: Index, r: Request, now: nat)
    requires Agree(cfg, a, b, now)
    ensures Handle(cfg, a, r, now).1 == Handle(cfg, b, r, now).1
    ensures Agree(cfg, Handle(cfg, a, r, now).0, Handle(cfg, b, r, now).0, now)
  {
    if r.PunchReq? || r.PunchPoll? {
      HandleCallsAgree(a.calls, b.calls, r, now);
    } else {
      HandlePeersAgree(cfg, a.peers, b.peers, r, now);
    }
  }

  /** The replies of a run in which the evictions `prunes[k]` happen between request `k - 1` and request `k`. */
  ghost function Replies(cfg: Config, s: Index, rs: seq<Timed>, prunes: seq<seq<Pruning>>): seq<Reply>
    requires |prunes| == |rs|
    decreases |rs|
  {
    if rs == [] then []
    else
      var (next, reply) := Handle(cfg, PruneAll(cfg, s, prunes[0]), rs[0].request, rs[0].now);
      [reply] + Replies(cfg, next, rs[1..], prunes[1..])
  }

  /** The clock does not run backwards. */
  predicate Clocked(last: nat, rs: seq<Timed>)
    decreases |rs|
  {
    rs == [] || (last <= rs[0].now && Clocked(rs[0].now, rs[1..]))
  }

  /** No eviction is later than the request that follows it. */
  predicate InTime(rs: seq<Timed>, prunes: seq<seq<Pruning>>) {
    && |prunes| == |rs|
    && forall k, i :: 0 <= k < |rs| && 0 <= i < |prunes[k]| ==> prunes[k][i].at <= rs[k].now
  }

  /** Pruning is unobservable: two indexes given the same requests under a clock that does not run backwards, but
      evicting at different moments, give the same replies. */
  lemma {:induction false} PruningUnobservable(cfg: Config, a: Index, b: Index, last: nat, rs: seq<Timed>,
                                               pa: seq<seq<Pruning>>, pb: seq<seq<Pruning>>)
    requires Agree(cfg, a, b, last) && Clocked(last, rs) && InTime(rs, pa) && InTime(rs, pb)
    ensures Replies(cfg, a, rs, pa) == Replies(cfg, b, rs, pb)
    decreases |rs|
  {
    if rs != [] {
      var r, now := rs[0].request, rs[0].now;
      var a', b' := PruneAll(cfg, a, pa[0]), PruneAll(cfg, b, pb[0]);
      AgreeLater(cfg, a, b, last, now);
      PruneAllAgrees(cfg, a, pa[0], now);
      PruneAllAgrees(cfg, b, pb[0], now);
      HandleAgrees(cfg, a', b', r, now);
      PruningUnobservable(cfg, Handle(cfg, a', r, now).0, Handle(cfg, b', r, now).0, now, rs[1..], pa[1..], pb[1..]);
    }
  }
}
