/** Two KCP endpoints and a network that may drop, duplicate and reorder datagrams but not forge
    them.  A run is driven by a list of actions; everything the environment decides is in them. */
module KcpSystem {
  import opened SerialNumbers
  import opened Bytes
  import opened KcpModel
  import opened KcpWire

  datatype Side = Initiator | Responder

  /** One endpoint with its history: every datagram it ever sent, the bytes its `ikcp_send`
      accepted, the bytes its `ikcp_recv` returned, and the payloads it numbered, in order. */
  datatype Party = Party(cb: Cb, log: seq<seq<Wire>>, accepted: seq<byte>, delivered: seq<byte>,
                         hist: seq<seq<byte>>)

  datatype Sys = Sys(ini: Party, rsp: Party)

  datatype Action =
    | DoSend(side: Side, data: seq<byte>)
    | DoRecv(side: Side, len: int)
    | DoUpdate(side: Side, due: bool, choice: FlushChoice)
    | DoInput(side: Side, which: nat)  // the peer's datagram number `which` arrives (again)

  function Other(i: Side): Side {
    if i.Initiator? then Responder else Initiator
  }

  function Get(s: Sys, i: Side): Party {
    if i.Initiator? then s.ini else s.rsp
  }

  function Put(s: Sys, i: Side, p: Party): Sys {
    if i.Initiator? then s.(ini := p) else s.(rsp := p)
  }

  function NewParty(conv: u32): Party {
    Party(Create(conv), [], [], [], [])
  }

  function Init(conv: u32): Sys {
    Sys(NewParty(conv), NewParty(conv))
  }

  function PartySend(p: Party, data: seq<byte>): Party {
    var (cb, n) := Send(p.cb, data);
    p.(cb := cb, accepted := p.accepted + (if 0 <= n <= |data| then data[..n] else []))
  }

  function PartyRecv(m: Arith, p: Party, len: int): Party {
    var (cb, n, out) := Recv(m, p.cb, len);
    p.(cb := cb, delivered := p.delivered + (if len >= 0 then out else []))
  }

  /** The queued payloads that one flush numbers. */
  function NewlyNumbered(before: Cb, after: Cb): seq<seq<byte>> {
    if |after.sndQueue| <= |before.sndQueue| then before.sndQueue[..|before.sndQueue| - |after.sndQueue|] else []
  }

  /** `ikcp_update`: flushes when due; the new control block and the datagrams sent. */
  function Update(m: Arith, cb: Cb, due: bool, ch: FlushChoice): (Cb, seq<seq<Wire>>) {
    var ready := cb.(updated := true);
    if due then Flush(m, ready, ch) else (ready, [])
  }

  function PartyUpdate(m: Arith, p: Party, due: bool, ch: FlushChoice): Party {
    var (cb, sent) := Update(m, p.cb, due, ch);
    p.(cb := cb, log := p.log + sent, hist := p.hist + NewlyNumbered(p.cb, cb))
  }

  /** The receiver of the real protocol sees only the bytes of the datagram. */
  function Receive(m: Arith, cb: Cb, ws: seq<Wire>): (r: (Cb, int)) {
    if m.Wrapping? then InputBytes(cb, EncodeAll(ws)) else (InputSegs(m, cb, ws), 0)
  }

  function PartyInput(m: Arith, p: Party, peer: Party, which: nat): Party {
    if which < |peer.log| then p.(cb := Receive(m, p.cb, peer.log[which]).0) else p
  }

  function Step(m: Arith, s: Sys, a: Action): Sys {
    var p := Get(s, a.side);
    match a
    case DoSend(i, data) => Put(s, i, PartySend(p, data))
    case DoRecv(i, len) => Put(s, i, PartyRecv(m, p, len))
    case DoUpdate(i, due, ch) => Put(s, i, PartyUpdate(m, p, due, ch))
    case DoInput(i, which) => Put(s, i, PartyInput(m, p, Get(s, Other(i)), which))
  }

  function Run(m: Arith, s: Sys, acts: seq<Action>): Sys
    decreases |acts|
  {
    if acts == [] then s else Step(m, Run(m, s, acts[..|acts| - 1]), acts[|acts| - 1])
  }
}
