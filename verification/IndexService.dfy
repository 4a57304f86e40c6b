/** What the index is for, told from its history alone: which publishers are shown, who may change them, and which
    calls a publisher is handed. */
module IndexService {
  import opened Common
  import opened IndexModel
  import opened IndexTheorems

  /** A request, when it was handled, and what was answered. */
  datatype Exchange = Exchange(request: Request, now: nat, reply: Reply)

  /** What the outside world saw of a run. */
  ghost function History(cfg: Config, rs: seq<Timed>): (h: seq<Exchange>)
    ensures |h| == |rs|
    decreases |rs|
  {
    if rs == [] then []
    else
      var before, last := rs[..|rs| - 1], rs[|rs| - 1];
      History(cfg, before) +
      [Exchange(last.request, last.now, Handle(cfg, Run(cfg, EMPTY_INDEX, before), last.request, last.now).1)]
  }

  /** The exchange puts `id` on the list, or renews it, with this record. */
  function Announces(x: Exchange, id: string): Option<Peer> {
    match x.request
    case Register(own, offer, _, _) =>
      if own == Valid(id) && offer.Some? && x.reply.Key? then Some(Peer(x.reply.key, offer.value, x.now)) else None
    case Heartbeat(own, key, offer) =>
      if own == Valid(id) && key.Some? && offer.Some? && x.reply == Done then Some(Peer(key.value, offer.value, x.now))
      else None
    case _ => None
  }

  predicate Withdraws(x: Exchange, id: string) {
    x.request.Deregister? && x.request.id == Valid(id) && x.reply == Done
  }

  /** What was last announced for `id` and not withdrawn. */
  function Announced(h: seq<Exchange>, id: string): Option<Peer>
    decreases |h|
  {
    if h == [] then None
    else
      var x := h[|h| - 1];
      if Announces(x, id).Some? then Announces(x, id)
      else if Withdraws(x, id) then None
      else Announced(h[..|h| - 1], id)
  }

  /** The record of `id` at time `now`, unless its last sign of life is too old. */
  function Standing(h: seq<Exchange>, id: string, now: nat, ttl: nat): Option<Peer> {
    match Announced(h, id)
    case Some(p) => if now - p.lastSeen > ttl then None else Some(p)
    case None => None
  }

  /** The exchange leaves this call for its target. */
  predicate Leaves(x: Exchange, c: Call) {
    x.request == PunchReq(Valid(c.caller), Valid(c.target), Some(c.session), Some(c.candidates)) &&
    x.reply == Done && x.now == c.ts
  }

  predicate Collects(x: Exchange, id: string) {
    x.request == PunchPoll(Valid(id))
  }

  /** How often the call was left since its target last collected. */
  function Waiting(h: seq<Exchange>, c: Call): nat
    decreases |h|
  {
    if h == [] then 0
    else
      var x := h[|h| - 1];
      if Collects(x, c.target) then 0
      else Waiting(h[..|h| - 1], c) + if Leaves(x, c) then 1 else 0
  }

  /** Calls are handed out for 30 seconds. */
  function InTimeWaiting(h: seq<Exchange>, c: Call, now: nat): nat {
    if now - c.ts > 30 then 0 else Waiting(h, c)
  }

  /** The record of `id` among the peers, unless it has expired. */
  function Record(peers: map<string, Peer>, id: string, now: nat, ttl: nat): Option<Peer> {
    if id in peers && now - peers[id].lastSeen <= ttl then Some(peers[id]) else None
  }

  // ------------------------------------------------------- publishers in a state

  lemma PeersStep(cfg: Config, peers: map<string, Peer>, r: Request, t: nat, now: nat, id: string)
    requires !r.PunchReq? && !r.PunchPoll? && t <= now
    ensures var (after, reply) := HandlePeers(cfg, peers, r, t);
            var x := Exchange(r, t, reply);
            Record(after, id, now, cfg.ttl)
            == if Announces(x, id).Some? then (if now - t > cfg.ttl then None else Announces(x, id))
               else if Withdraws(x, id) then None
               else Record(peers, id, now, cfg.ttl)
  {
  }

  lemma {:induction false} RecordsStand(cfg: Config, rs: seq<Timed>, now: nat, id: string)
    requires Monotonic(rs, now)
    ensures Record(Run(cfg, EMPTY_INDEX, rs).peers, id, now, cfg.ttl) == Standing(History(cfg, rs), id, now, cfg.ttl)
    decreases |rs|
  {
    if rs != [] {
      var before, last := rs[..|rs| - 1], rs[|rs| - 1];
      RecordsStand(cfg, before, now, id);
      IndexStep(cfg, Run(cfg, EMPTY_INDEX, before), History(cfg, before), last.request, last.now, now, id);
    }
  }

  lemma StandingStep(h: seq<Exchange>, x: Exchange, id: string, now: nat, ttl: nat)
    ensures Standing(h + [x], id, now, ttl)
         == if Announces(x, id).Some? then (if now - x.now > ttl then None else Announces(x, id))
            else if Withdraws(x, id) then None
            else Standing(h, id, now, ttl)
  {
    assert (h + [x])[..|h|] == h;
  }

  lemma IndexStep(cfg: Config, s: Index, h: seq<Exchange>, r: Request, t: nat, now: nat, id: string)
    requires t <= now && Record(s.peers, id, now, cfg.ttl) == Standing(h, id, now, cfg.ttl)
    ensures var (after, reply) := Handle(cfg, s, r, t);
            Record(after.peers, id, now, cfg.ttl) == Standing(h + [Exchange(r, t, reply)], id, now, cfg.ttl)
  {
    StandingStep(h, Exchange(r, t, Handle(cfg, s, r, t).1), id, now, cfg.ttl);
    if !r.PunchReq? && !r.PunchPoll? {
      PeersStep(cfg, s.peers, r, t, now, id);
    }
  }

  /** Time does not run backwards, and `now` is not before any request. */
  predicate Monotonic(rs: seq<Timed>, now: nat) {
    && (forall i, j :: 0 <= i < j < |rs| ==> rs[i].now <= rs[j].now)
    && (forall i :: 0 <= i < |rs| ==> rs[i].now <= now)
  }

  predicate Ordered(rs: seq<Timed>) {
    forall i, j :: 0 <= i < j < |rs| ==> rs[i].now <= rs[j].now
  }

  // --------------------------------------------------------------- calls in a state

  /** How often the call is among `calls`, unless it has expired. */
  function Kept(calls: multiset<Call>, c: Call, now: nat): nat {
    if now - c.ts > 30 then 0 else calls[c]
  }

  lemma RequestStep(calls: multiset<Call>, r: Request, t: nat, now: nat, c: Call)
    requires r.PunchReq? && t <= now
    ensures var (after, reply) := HandleCalls(calls, r, t);
            var x := Exchange(r, t, reply);
            Kept(after, c, now) == Kept(calls, c, now) + if Leaves(x, c) && now - c.ts <= 30 then 1 else 0
  {
    LiveCount(calls, t, c);
  }

  lemma PollStep(calls: multiset<Call>, r: Request, t: nat, now: nat, c: Call)
    requires r.PunchPoll? && t <= now
    ensures Kept(HandleCalls(calls, r, t).0, c, now)
         == if r.id == Valid(c.target) then 0 else Kept(calls, c, now)
  {
    LiveCount(calls, t, c);
    if r.id.Valid? {
      CountFor(LiveCalls(calls, t), r.id.id, c);
    }
  }

  lemma CallsStep(calls: multiset<Call>, r: Request, t: nat, now: nat, c: Call)
    requires (r.PunchReq? || r.PunchPoll?) && t <= now
    ensures var (after, reply) := HandleCalls(calls, r, t);
            var x := Exchange(r, t, reply);
            Kept(after, c, now)
            == if Collects(x, c.target) then 0
               else Kept(calls, c, now) + if Leaves(x, c) && now - c.ts <= 30 then 1 else 0
  {
    if r.PunchReq? {
      RequestStep(calls, r, t, now, c);
    } else {
      PollStep(calls, r, t, now, c);
    }
  }

  lemma {:induction false} CallsStand(cfg: Config, rs: seq<Timed>, now: nat, c: Call)
    requires Monotonic(rs, now)
    ensures Kept(Run(cfg, EMPTY_INDEX, rs).calls, c, now) == InTimeWaiting(History(cfg, rs), c, now)
    decreases |rs|
  {
    if rs != [] {
      var before, last := rs[..|rs| - 1], rs[|rs| - 1];
      CallsStand(cfg, before, now, c);
      var s, h := Run(cfg, EMPTY_INDEX, before), History(cfg, rs);
      assert h[..|h| - 1] == History(cfg, before);
      if last.request.PunchReq? || last.request.PunchPoll? {
        CallsStep(s.calls, last.request, last.now, now, c);
      }
    }
  }

  // ---------------------------------------------------------------- right answers

  function IdsOf(r: Request): seq<Id> {
    match r
    case PunchReq(self, target, _, _) => [self, target]
    case ListIds => []
    case _ => [r.id]
  }

  /** A part of the request other than an id is missing or malformed. */
  predicate Lacks(r: Request) {
    match r
    case Register(_, offer, _, _) => offer.None?
    case Heartbeat(_, key, offer) => key.None? || offer.None?
    case Deregister(_, key) => key.None?
    case PunchReq(_, _, session, candidates) => session.None? || candidates.None?
    case _ => false
  }

  /** What is wrong with a malformed request: a missing id comes first, then an invalid one, then the rest. */
  function Malformed(r: Request): Option<Code> {
    if Missing in IdsOf(r) then Some(BadRequest)
    else if Invalid in IdsOf(r) then Some(InvalidId)
    else if Lacks(r) then Some(BadRequest)
    else None
  }

  ghost predicate AreStanding(h: seq<Exchange>, now: nat, ttl: nat, ids: set<string>) {
    forall id :: id in ids <==> Standing(h, id, now, ttl).Some?
  }

  ghost predicate AreWaiting(h: seq<Exchange>, now: nat, calls: multiset<Call>) {
    forall c :: calls[c] == InTimeWaiting(h, c, now)
  }

  /** These are the calls waiting for `id`. */
  ghost predicate AreHanded(h: seq<Exchange>, id: string, now: nat, calls: multiset<Call>) {
    forall c :: calls[c] == if c.target == id then InTimeWaiting(h, c, now) else 0
  }

  /** The answer that the history demands. */
  ghost predicate Right(cfg: Config, h: seq<Exchange>, r: Request, now: nat, reply: Reply) {
    if Malformed(r).Some? then reply == Failed(400, Malformed(r).value)
    else
      match r
      case Lookup(id) => reply == Shown(Standing(h, id.id, now, cfg.ttl), id.id)
      case ListIds => reply.Ids? && AreStanding(h, now, cfg.ttl, reply.ids)
      case Heartbeat(id, key, _) => reply == Renewed(Standing(h, id.id, now, cfg.ttl), key.value)
      case Deregister(id, key) => reply == Withdrawn(Standing(h, id.id, now, cfg.ttl), key.value)
      case Register(id, _, proves, drawn) =>
        if PassFor(cfg, id.id) !in proves then reply == Failed(403, AuthFailed)
        else RightSeat(cfg, h, id.id, drawn, now, reply)
      case PunchPoll(id) => reply.Calls? && AreHanded(h, id.id, now, reply.calls)
      case PunchReq(_, _, _, _) => RightCall(h, now, reply)
  }

  function Shown(p: Option<Peer>, id: string): Reply {
    if p.Some? then Found(id, p.value.offer, p.value.lastSeen) else Failed(404, NotFound)
  }

  function Renewed(p: Option<Peer>, key: string): Reply {
    if p.None? then Failed(404, NotFound) else if p.value.key != key then Failed(403, InvalidKey) else Done
  }

  function Withdrawn(p: Option<Peer>, key: string): Reply {
    if p.Some? && p.value.key == key then Done else Failed(403, InvalidKey)
  }

  /** A publisher that stands keeps its key; another gets the key drawn, unless the seats are taken. */
  ghost predicate RightSeat(cfg: Config, h: seq<Exchange>, id: string, drawn: string, now: nat, reply: Reply) {
    match Standing(h, id, now, cfg.ttl)
    case Some(p) => reply == Key(p.key)
    case None => exists ids :: AreStanding(h, now, cfg.ttl, ids) &&
                               reply == if Full(cfg, ids, id) then Failed(503, TableFull) else Key(drawn)
  }

  /** A call is taken unless 32 are waiting. */
  ghost predicate RightCall(h: seq<Exchange>, now: nat, reply: Reply) {
    exists calls :: AreWaiting(h, now, calls) && reply == if |calls| >= 32 then Failed(503, Busy) else Done
  }

  lemma StandingIds(cfg: Config, rs: seq<Timed>, now: nat)
    requires Monotonic(rs, now)
    ensures AreStanding(History(cfg, rs), now, cfg.ttl, LivePeers(Run(cfg, EMPTY_INDEX, rs).peers, now, cfg.ttl).Keys)
  {
    var peers := Run(cfg, EMPTY_INDEX, rs).peers;
    forall id
      ensures id in LivePeers(peers, now, cfg.ttl).Keys <==> Standing(History(cfg, rs), id, now, cfg.ttl).Some?
    {
      RecordsStand(cfg, rs, now, id);
    }
  }

  lemma WaitingCalls(cfg: Config, rs: seq<Timed>, now: nat)
    requires Monotonic(rs, now)
    ensures AreWaiting(History(cfg, rs), now, LiveCalls(Run(cfg, EMPTY_INDEX, rs).calls, now))
  {
    var calls := Run(cfg, EMPTY_INDEX, rs).calls;
    forall c
      ensures LiveCalls(calls, now)[c] == InTimeWaiting(History(cfg, rs), c, now)
    {
      LiveCount(calls, now, c);
      CallsStand(cfg, rs, now, c);
    }
  }

  lemma RightPeers(cfg: Config, rs: seq<Timed>, r: Request, now: nat)
    requires Monotonic(rs, now) && !r.PunchReq? && !r.PunchPoll?
    ensures Right(cfg, History(cfg, rs), r, now, HandlePeers(cfg, Run(cfg, EMPTY_INDEX, rs).peers, r, now).1)
  {
    var h, peers := History(cfg, rs), Run(cfg, EMPTY_INDEX, rs).peers;
    StandingIds(cfg, rs, now);
    if !r.ListIds? && r.id.Valid? {
      RecordsStand(cfg, rs, now, r.id.id);
      if r.Register? && r.offer.Some? {
        RightRegister(cfg, h, peers, r.id.id, r.offer.value, r.drawn, now);
      }
    }
    PeersAnswered(cfg, h, peers, r, now);
  }

  lemma RightRegister(cfg: Config, h: seq<Exchange>, peers: map<string, Peer>, id: string, offer: Offer, drawn: string,
                      now: nat)
    requires AreStanding(h, now, cfg.ttl, LivePeers(peers, now, cfg.ttl).Keys)
    requires Record(peers, id, now, cfg.ttl) == Standing(h, id, now, cfg.ttl)
    ensures RightSeat(cfg, h, id, drawn, now, Seat(cfg, LivePeers(peers, now, cfg.ttl), id, offer, drawn, now).1)
  {
  }

  lemma PeersAnswered(cfg: Config, h: seq<Exchange>, peers: map<string, Peer>, r: Request, now: nat)
    requires !r.PunchReq? && !r.PunchPoll?
    requires AreStanding(h, now, cfg.ttl, LivePeers(peers, now, cfg.ttl).Keys)
    requires !r.ListIds? && r.id.Valid? ==> Record(peers, r.id.id, now, cfg.ttl) == Standing(h, r.id.id, now, cfg.ttl)
    requires r.Register? && r.id.Valid? && r.offer.Some? ==>
               RightSeat(cfg, h, r.id.id, r.drawn, now,
                         Seat(cfg, LivePeers(peers, now, cfg.ttl), r.id.id, r.offer.value, r.drawn, now).1)
    ensures Right(cfg, h, r, now, HandlePeers(cfg, peers, r, now).1)
  {
  }

  lemma RightCalls(cfg: Config, rs: seq<Timed>, r: Request, now: nat)
    requires Monotonic(rs, now) && (r.PunchReq? || r.PunchPoll?)
    ensures Right(cfg, History(cfg, rs), r, now, HandleCalls(Run(cfg, EMPTY_INDEX, rs).calls, r, now).1)
  {
    WaitingCalls(cfg, rs, now);
    CallsAnswered(cfg, History(cfg, rs), Run(cfg, EMPTY_INDEX, rs).calls, r, now);
  }

  lemma CallsAnswered(cfg: Config, h: seq<Exchange>, calls: multiset<Call>, r: Request, now: nat)
    requires AreWaiting(h, now, LiveCalls(calls, now)) && (r.PunchReq? || r.PunchPoll?)
    ensures Right(cfg, h, r, now, HandleCalls(calls, r, now).1)
  {
    CallErrors(r);
    if Malformed(r).None? {
      if r.PunchPoll? {
        RightPoll(cfg, h, LiveCalls(calls, now), r, now);
      } else {
        RightRequest(cfg, h, LiveCalls(calls, now), r, now);
      }
    }
  }

  lemma CallErrors(r: Request)
    requires r.PunchReq? || r.PunchPoll?
    ensures CallError(r) == if Malformed(r).Some? then Some(Failed(400, Malformed(r).value)) else None
  {
    var ids := IdsOf(r);
    assert Missing in ids <==> exists i :: 0 <= i < |ids| && ids[i] == Missing;
  }

  lemma RightPoll(cfg: Config, h: seq<Exchange>, live: multiset<Call>, r: Request, now: nat)
    requires AreWaiting(h, now, live) && r.PunchPoll? && r.id.Valid?
    ensures Right(cfg, h, r, now, ServeCalls(live, r, now).1)
  {
    Handed(h, live, r.id.id, now);
  }

  lemma Handed(h: seq<Exchange>, live: multiset<Call>, id: string, now: nat)
    requires AreWaiting(h, now, live)
    ensures AreHanded(h, id, now, CallsFor(live, id))
  {
    forall c
      ensures CallsFor(live, id)[c] == if c.target == id then InTimeWaiting(h, c, now) else 0
    {
      CountFor(live, id, c);
    }
  }

  lemma RightRequest(cfg: Config, h: seq<Exchange>, live: multiset<Call>, r: Request, now: nat)
    requires AreWaiting(h, now, live) && r.PunchReq? && CallError(r).None? && Malformed(r).None?
    ensures Right(cfg, h, r, now, ServeCalls(live, r, now).1)
  {
    assert RightCall(h, now, ServeCalls(live, r, now).1);
  }

  /** In every run under a clock that does not run backwards, every reply is the one that the requests and replies
      before it demand. */
  lemma EveryReplyRight(cfg: Config, rs: seq<Timed>, k: nat)
    requires k < |rs| && Monotonic(rs[..k], rs[k].now)
    ensures History(cfg, rs[..k + 1]) == History(cfg, rs[..k]) + [History(cfg, rs[..k + 1])[k]]
    ensures Right(cfg, History(cfg, rs[..k]), rs[k].request, rs[k].now, History(cfg, rs[..k + 1])[k].reply)
  {
    assert rs[..k + 1][..k] == rs[..k];
    var r, now := rs[k].request, rs[k].now;
    if r.PunchReq? || r.PunchPoll? {
      RightCalls(cfg, rs[..k], r, now);
    } else {
      RightPeers(cfg, rs[..k], r, now);
    }
  }

  lemma {:induction false} HistoryPrefix(cfg: Config, rs: seq<Timed>, n: nat)
    requires n <= |rs|
    ensures History(cfg, rs)[..n] == History(cfg, rs[..n])
    decreases |rs|
  {
    if n < |rs| {
      var before := rs[..|rs| - 1];
      assert before[..n] == rs[..n];
      HistoryPrefix(cfg, before, n);
      assert History(cfg, rs)[..n] == History(cfg, before)[..n];
    } else {
      assert rs[..n] == rs;
    }
  }

  // ---------------------------------------------------------------- what callers see

  /** None of the exchanges collects the calls for `id`. */
  predicate NoneCollects(h: seq<Exchange>, id: string) {
    forall k :: 0 <= k < |h| ==> !Collects(h[k], id)
  }

  lemma {:induction false} WaitsOn(h: seq<Exchange>, more: seq<Exchange>, c: Call)
    requires NoneCollects(more, c.target)
    ensures Waiting(h + more, c) >= Waiting(h, c)
    decreases |more|
  {
    if more == [] {
      assert h + more == h;
    } else {
      assert (h + more)[..|h + more| - 1] == h + more[..|more| - 1];
      WaitsOn(h, more[..|more| - 1], c);
    }
  }

  /** A call that was accepted is handed to its target: the next time the target collects, at most 30 seconds later and
      whatever happens in between, it is among the calls. */
  lemma CallReachesTarget(cfg: Config, h: seq<Exchange>, x: Exchange, more: seq<Exchange>, c: Call, now: nat,
                          reply: Reply)
    requires Leaves(x, c) && NoneCollects(more, c.target) && c.ts <= now <= c.ts + 30
    requires Right(cfg, h + [x] + more, PunchPoll(Valid(c.target)), now, reply)
    ensures reply.Calls? && c in reply.calls
  {
    WaitsOn(h + [x], more, c);
    assert (h + [x])[..|h|] == h;
    assert reply.calls[c] > 0;
  }

  /** It is handed to nobody else, and not a second time. */
  lemma CallReachesNobodyElse(cfg: Config, h: seq<Exchange>, id: string, now: nat, reply: Reply, c: Call)
    requires Right(cfg, h, PunchPoll(Valid(id)), now, reply)
    ensures reply.Calls? && (c in reply.calls ==> c.target == id && Waiting(h, c) > 0 && now <= c.ts + 30)
    ensures Waiting(h + [Exchange(PunchPoll(Valid(c.target)), now, reply)], c) == 0
  {
    assert reply.calls[c] == if c.target == id then InTimeWaiting(h, c, now) else 0;
  }

  /** Nobody announces or withdraws `id`. */
  predicate Silent(h: seq<Exchange>, id: string) {
    forall k :: 0 <= k < |h| ==> Announces(h[k], id).None? && !Withdraws(h[k], id)
  }

  lemma {:induction false} StillAnnounced(h: seq<Exchange>, more: seq<Exchange>, id: string)
    requires Silent(more, id)
    ensures Announced(h + more, id) == Announced(h, id)
    decreases |more|
  {
    if more == [] {
      assert h + more == h;
    } else {
      assert (h + more)[..|h + more| - 1] == h + more[..|more| - 1];
      StillAnnounced(h, more[..|more| - 1], id);
    }
  }

  /** What a publisher announced is shown unchanged until the time to live after its last sign of life, and not after
      it; meanwhile no other key renews or withdraws it. */
  lemma AnnouncedIsShown(cfg: Config, h: seq<Exchange>, x: Exchange, more: seq<Exchange>, id: string, now: nat,
                         key: string, offer: Option<Offer>, shown: Reply, renewed: Reply, withdrawn: Reply)
    requires Announces(x, id).Some? && Silent(more, id) && x.now <= now
    requires var all := h + [x] + more;
             && Right(cfg, all, Lookup(Valid(id)), now, shown)
             && Right(cfg, all, Heartbeat(Valid(id), Some(key), offer), now, renewed)
             && Right(cfg, all, Deregister(Valid(id), Some(key)), now, withdrawn)
    ensures var p := Announces(x, id).value;
            && shown == (if now <= x.now + cfg.ttl then Found(id, p.offer, x.now) else Failed(404, NotFound))
            && (renewed == Done <==> now <= x.now + cfg.ttl && key == p.key && offer.Some?)
            && (withdrawn == Done <==> now <= x.now + cfg.ttl && key == p.key)
  {
    StillAnnounced(h + [x], more, id);
    assert Announced(h + [x], id) == Announces(x, id);
  }

  /** The reply to request `k` of a run. */
  ghost function ReplyTo(cfg: Config, rs: seq<Timed>, k: nat): Reply
    requires k < |rs|
  {
    History(cfg, rs)[k].reply
  }

  lemma HistoryAt(cfg: Config, rs: seq<Timed>, k: nat)
    requires k < |rs|
    ensures History(cfg, rs)[k] == Exchange(rs[k].request, rs[k].now, ReplyTo(cfg, rs, k))
  {
    HistoryPrefix(cfg, rs, k + 1);
    assert rs[..k + 1][..k] == rs[..k];
    assert History(cfg, rs)[..k + 1][k] == History(cfg, rs)[k];
  }

  lemma ReplyRight(cfg: Config, rs: seq<Timed>, k: nat)
    requires k < |rs| && Ordered(rs)
    ensures Right(cfg, History(cfg, rs)[..k], rs[k].request, rs[k].now, ReplyTo(cfg, rs, k))
    ensures History(cfg, rs)[k] == Exchange(rs[k].request, rs[k].now, ReplyTo(cfg, rs, k))
  {
    HistoryPrefix(cfg, rs, k);
    HistoryPrefix(cfg, rs, k + 1);
    EveryReplyRight(cfg, rs, k);
    assert rs[..k + 1][..k] == rs[..k];
    assert History(cfg, rs)[..k + 1][k] == History(cfg, rs)[k];
  }

  /** In every run: a call accepted for `target` is among those handed to the first poll of `target` that follows
      within 30 seconds, with its caller, session and candidates. */
  lemma CallDelivered(cfg: Config, rs: seq<Timed>, k: nat, n: nat, c: Call)
    requires k < n < |rs| && Ordered(rs)
    requires rs[k].request == PunchReq(Valid(c.caller), Valid(c.target), Some(c.session), Some(c.candidates))
    requires ReplyTo(cfg, rs, k) == Done && rs[k].now == c.ts
    requires rs[n].request == PunchPoll(Valid(c.target)) && rs[n].now <= c.ts + 30
    requires forall j :: k < j < n ==> rs[j].request != PunchPoll(Valid(c.target))
    ensures ReplyTo(cfg, rs, n).Calls? && c in ReplyTo(cfg, rs, n).calls
  {
    var h := History(cfg, rs);
    ReplyRight(cfg, rs, k);
    ReplyRight(cfg, rs, n);
    NoPollBetween(cfg, rs, k, n, c.target);
    Pieces(h, k, n);
    CallReachesTarget(cfg, h[..k], h[k], h[k + 1..n], c, rs[n].now, ReplyTo(cfg, rs, n));
  }

  lemma Pieces(h: seq<Exchange>, k: nat, n: nat)
    requires k < n <= |h|
    ensures h[..k] + [h[k]] + h[k + 1..n] == h[..n]
  {
  }

  lemma NoPollBetween(cfg: Config, rs: seq<Timed>, k: nat, n: nat, id: string)
    requires k < n < |rs|
    requires forall j :: k < j < n ==> rs[j].request != PunchPoll(Valid(id))
    ensures NoneCollects(History(cfg, rs)[k + 1..n], id)
  {
    var more := History(cfg, rs)[k + 1..n];
    forall j | 0 <= j < |more|
      ensures !Collects(more[j], id)
    {
      HistoryAt(cfg, rs, k + 1 + j);
    }
  }

  // --------------------------------------------------------------- whole exchanges

  /** The requests with their replies. */
  function Exchanges(rs: seq<Timed>, replies: seq<Reply>): (h: seq<Exchange>)
    requires |replies| == |rs|
    ensures |h| == |rs| && forall k :: 0 <= k < |rs| ==> h[k] == Exchange(rs[k].request, rs[k].now, replies[k])
  {
    seq(|rs|, k requires 0 <= k < |rs| => Exchange(rs[k].request, rs[k].now, replies[k]))
  }

  /** Every reply is the one that what was seen before demands. */
  ghost predicate AllRight(cfg: Config, rs: seq<Timed>, replies: seq<Reply>)
    requires |replies| == |rs|
  {
    forall k :: 0 <= k < |rs| ==> Right(cfg, Exchanges(rs, replies)[..k], rs[k].request, rs[k].now, replies[k])
  }

  lemma AllRepliesRight(cfg: Config, rs: seq<Timed>, replies: seq<Reply>)
    requires Ordered(rs) && |replies| == |rs| && forall k :: 0 <= k < |rs| ==> replies[k] == ReplyTo(cfg, rs, k)
    ensures AllRight(cfg, rs, replies)
  {
    forall k | 0 <= k < |rs|
      ensures History(cfg, rs)[k] == Exchanges(rs, replies)[k]
    {
      HistoryAt(cfg, rs, k);
    }
    assert History(cfg, rs) == Exchanges(rs, replies);
    forall k | 0 <= k < |rs|
      ensures Right(cfg, Exchanges(rs, replies)[..k], rs[k].request, rs[k].now, replies[k])
    {
      ReplyRight(cfg, rs, k);
    }
  }
}
