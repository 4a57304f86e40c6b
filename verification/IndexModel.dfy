/** The rendezvous index as a state machine over parsed requests: what each request answers and what it
    leaves behind.  The C server and the PHP server are both proved to implement it. */
module IndexModel {
  import opened Common

  const MAX_PENDING: nat := 32
  const CALL_TTL: nat := 30

  datatype Vip = Vip(id: string, pass: string)

  /** `seats` is `None` when no limit is configured; `ttl` is the publisher time to live in seconds. */
  datatype Config = Config(seats: Option<nat>, vips: seq<Vip>, pass: string, ttl: nat)

  datatype Candidate = Candidate(kind: string, addr: string, port: nat)

  /** What a publisher announces. */
  datatype Offer = Offer(proto: nat, port: nat, candidates: seq<Candidate>)

  datatype Peer = Peer(key: string, offer: Offer, lastSeen: nat)

  datatype Call = Call(caller: string, target: string, session: string, candidates: seq<Candidate>, ts: nat)

  datatype Index = Index(peers: map<string, Peer>, calls: multiset<Call>)

  /** An identifier field: absent or not a string, present but invalid, or valid. */
  datatype Id = Missing | Invalid | Valid(id: string)

  /** A request after field parsing.  `None` stands for a malformed or missing part; `proves` are the
      passwords under which the proof of work verifies; `drawn` is the key drawn for a new publisher. */
  datatype Request =
    | Register(id: Id, offer: Option<Offer>, proves: set<string>, drawn: string)
    | Heartbeat(id: Id, key: Option<string>, offer: Option<Offer>)
    | Lookup(id: Id)
    | ListIds
    | Deregister(id: Id, key: Option<string>)
    | PunchReq(self: Id, target: Id, session: Option<string>, candidates: Option<seq<Candidate>>)
    | PunchPoll(id: Id)

  /** The error codes `bad_request`, `invalid_id`, and so on. */
  datatype Code = BadRequest | InvalidId | AuthFailed | TableFull | NotFound | InvalidKey | Busy

  /** A reply before serialization; lists are compared as sets and multisets.  Of each call the reply shows
      caller, session and candidates. */
  datatype Reply =
    | Failed(status: nat, code: Code)
    | Done
    | Key(key: string)
    | Found(id: string, offer: Offer, lastSeen: nat)
    | Ids(ids: set<string>)
    | Calls(calls: multiset<Call>)

  predicate UniqueVips(vips: seq<Vip>) {
    forall i, j :: 0 <= i < j < |vips| ==> vips[i].id != vips[j].id
  }

  function VipIds(vips: seq<Vip>): set<string> {
    if vips == [] then {} else VipIds(vips[..|vips| - 1]) + {vips[|vips| - 1].id}
  }

  function PassFor(cfg: Config, id: string): string {
    PassIn(cfg.vips, id, cfg.pass)
  }

  function PassIn(vips: seq<Vip>, id: string, shared: string): string {
    if vips == [] then shared else if vips[0].id == id then vips[0].pass else PassIn(vips[1..], id, shared)
  }

  // ------------------------------------------------------------------ expiry

  predicate Stale(last: nat, now: nat, ttl: nat) {
    now - last > ttl
  }

  function LivePeers(peers: map<string, Peer>, now: nat, ttl: nat): map<string, Peer> {
    map id | id in peers && !Stale(peers[id].lastSeen, now, ttl) :: peers[id]
  }

  ghost function OneOf(calls: multiset<Call>): (c: Call)
    requires calls != multiset{}
    ensures c in calls
  {
    var c :| c in calls;
    c
  }

  ghost function LiveCalls(calls: multiset<Call>, now: nat): multiset<Call>
  {
    if calls == multiset{} then multiset{}
    else
      var c := OneOf(calls);
      (if Stale(c.ts, now, CALL_TTL) then multiset{} else multiset{c}) + LiveCalls(calls - multiset{c}, now)
  }

  function OnlyFor(c: Call, target: string): multiset<Call> {
    if c.target == target then multiset{c} else multiset{}
  }

  /** The calls for one publisher. */
  ghost function CallsFor(calls: multiset<Call>, target: string): multiset<Call>
  {
    if calls == multiset{} then multiset{}
    else
      var c := OneOf(calls);
      OnlyFor(c, target) + CallsFor(calls - multiset{c}, target)
  }

  lemma {:induction false} LiveCount(calls: multiset<Call>, now: nat, x: Call)
    ensures LiveCalls(calls, now)[x] == if Stale(x.ts, now, CALL_TTL) then 0 else calls[x]
  {
    if calls != multiset{} {
      var c := OneOf(calls);
      LiveCount(calls - multiset{c}, now, x);
    }
  }

  lemma {:induction false} CountFor(calls: multiset<Call>, target: string, x: Call)
    ensures CallsFor(calls, target)[x] == if x.target == target then calls[x] else 0
  {
    if calls != multiset{} {
      var c := OneOf(calls);
      CountFor(calls - multiset{c}, target, x);
    }
  }

  // ------------------------------------------------------------------- seats

  function OrdinaryCap(seats: nat, vips: nat): nat {
    if vips >= seats then 0 else seats - vips
  }

  /** The table of online ids `keys` has no seat for a newcomer `id`. */
  predicate Full(cfg: Config, keys: set<string>, id: string) {
    cfg.seats.Some? &&
    (|keys| >= cfg.seats.value ||
     (id !in VipIds(cfg.vips) && |keys - VipIds(cfg.vips)| >= OrdinaryCap(cfg.seats.value, |cfg.vips|)))
  }

  // ---------------------------------------------------------------- handlers

  const BAD_REQUEST: Reply := Failed(400, BadRequest)
  const INVALID_ID: Reply := Failed(400, InvalidId)

  /** Seats a publisher whose proof was accepted; `live` are the peers left after eviction. */
  function Seat(cfg: Config, live: map<string, Peer>, id: string, offer: Offer, drawn: string, now: nat)
    : (map<string, Peer>, Reply)
  {
    if id in live then (live[id := Peer(live[id].key, offer, now)], Key(live[id].key))
    else if Full(cfg, live.Keys, id) then (live, Failed(503, TableFull))
    else (live[id := Peer(drawn, offer, now)], Key(drawn))
  }

  function Beat(live: map<string, Peer>, id: string, key: string, offer: Offer, now: nat): (map<string, Peer>, Reply) {
    if id !in live then (live, Failed(404, NotFound))
    else if live[id].key != key then (live, Failed(403, InvalidKey))
    else (live[id := Peer(key, offer, now)], Done)
  }

  function Leave(live: map<string, Peer>, id: string, key: string): (map<string, Peer>, Reply) {
    if id !in live || live[id].key != key then (live, Failed(403, InvalidKey)) else (live - {id}, Done)
  }

  /** Lookup evicts nothing, but does not show what has expired. */
  function Show(cfg: Config, peers: map<string, Peer>, id: string, now: nat): Reply {
    if id !in peers || Stale(peers[id].lastSeen, now, cfg.ttl) then Failed(404, NotFound)
    else Found(id, peers[id].offer, peers[id].lastSeen)
  }

  function IdError(id: Id): Reply
    requires !id.Valid?
  {
    if id.Missing? then BAD_REQUEST else INVALID_ID
  }

  /** The requests about publishers. */
  function HandlePeers(cfg: Config, peers: map<string, Peer>, r: Request, now: nat): (map<string, Peer>, Reply)
    requires !r.PunchReq? && !r.PunchPoll?
  {
    var live := LivePeers(peers, now, cfg.ttl);
    match r
    case Register(id, offer, proves, drawn) =>
      if !id.Valid? then (peers, IdError(id))
      else if offer.None? then (peers, BAD_REQUEST)
      else if PassFor(cfg, id.id) !in proves then (peers, Failed(403, AuthFailed))
      else Seat(cfg, live, id.id, offer.value, drawn, now)
    case Heartbeat(id, key, offer) =>
      if !id.Valid? then (peers, IdError(id))
      else if key.None? || offer.None? then (peers, BAD_REQUEST)
      else Beat(live, id.id, key.value, offer.value, now)
    case Lookup(id) => (peers, if !id.Valid? then IdError(id) else Show(cfg, peers, id.id, now))
    case ListIds => (peers, Ids(live.Keys))
    case Deregister(id, key) =>
      if !id.Valid? then (peers, IdError(id))
      else if key.None? then (peers, BAD_REQUEST)
      else Leave(live, id.id, key.value)
  }

  /** The malformed requests about pending calls, in the order in which the checks are made. */
  function CallError(r: Request): Option<Reply>
    requires r.PunchReq? || r.PunchPoll?
  {
    match r
    case PunchReq(self, target, session, cands) =>
      if self.Missing? || target.Missing? then Some(BAD_REQUEST)
      else if self.Invalid? || target.Invalid? then Some(INVALID_ID)
      else if session.None? || cands.None? then Some(BAD_REQUEST)
      else None
    case PunchPoll(id) => if id.Valid? then None else Some(IdError(id))
  }

  /** A well-formed request, on the calls left after eviction. */
  ghost function ServeCalls(live: multiset<Call>, r: Request, now: nat): (multiset<Call>, Reply)
    requires (r.PunchReq? || r.PunchPoll?) && CallError(r).None?
  {
    match r
    case PunchReq(self, target, session, cands) =>
      if |live| >= MAX_PENDING then (live, Failed(503, Busy))
      else (live + multiset{Call(self.id, target.id, session.value, cands.value, now)}, Done)
    case PunchPoll(id) =>
      (live - CallsFor(live, id.id), Calls(CallsFor(live, id.id)))
  }

  /** The requests about pending calls. */
  ghost function HandleCalls(calls: multiset<Call>, r: Request, now: nat): (multiset<Call>, Reply)
    requires r.PunchReq? || r.PunchPoll?
  {
    if CallError(r).Some? then (calls, CallError(r).value) else ServeCalls(LiveCalls(calls, now), r, now)
  }

  /** One request at time `now`. */
  ghost function Handle(cfg: Config, s: Index, r: Request, now: nat): (Index, Reply) {
    if r.PunchReq? || r.PunchPoll? then
      var (calls, reply) := HandleCalls(s.calls, r, now);
      (s.(calls := calls), reply)
    else
      var (peers, reply) := HandlePeers(cfg, s.peers, r, now);
      (s.(peers := peers), reply)
  }
}
