/** The redp2p tunnel on top of KCP: handshake, half-close, drain and teardown of one TCP stream. */
module Tunnel {
  import opened Common
  import opened SerialNumbers
  import opened Bytes
  import opened KcpModel
  import opened KcpSystem

  const BUF: int := 4096
  const MAX_WAIT_SEND: int := 128

  datatype Control = Hello | HelloAck | Close | CloseAck | Reset | KeepAlive

  /** The flags of `redp2p_stream_state_t`. */
  datatype Flags = Flags(initiator: bool, ready: bool, helloSent: bool, localEof: bool, closeSent: bool,
                         closeAcked: bool, remoteClose: bool, resetSent: bool, resetReceived: bool)

  /** The local TCP socket as a sink: it works, or it fails on the write after `chunks` good ones, having
      taken `partial` bytes of the failing one. */
  datatype Sink = Healthy | FailsAfter(chunks: nat, partial: nat)

  datatype Message = Data(ws: seq<Wire>) | Ctl(ctl: Control)

  datatype Read = WouldBlock | Error | Eof | Chunk(data: seq<byte>)

  datatype Drained = Drained(cb: Cb, received: seq<byte>, written: seq<byte>, ok: bool)

  /** What processing one datagram leaves behind: state, control frames sent, bytes taken from KCP, bytes
      written to TCP, whether the TCP write half was shut down, and whether the stream survives. */
  datatype Outcome = Outcome(cb: Cb, flags: Flags, sent: seq<Control>, received: seq<byte>, written: seq<byte>,
                             shutdown: bool, ok: bool)

  /** What the clock decides about one tick. */
  datatype TickChoice = TickChoice(helloDue: bool, updateDue: bool, flushDue: bool, flush: FlushChoice, closeDue: bool,
                                   keepAliveDue: bool)

  datatype Ticked = Ticked(cb: Cb, datagrams: seq<seq<Wire>>, flags: Flags, sent: seq<Control>)

  function NewFlags(initiator: bool): Flags {
    Flags(initiator, false, false, false, false, false, false, false, false)
  }

  predicate CanSendData(cb: Cb, fl: Flags) {
    fl.ready && !fl.localEof && WaitSnd(cb) < MAX_WAIT_SEND
  }

  predicate IsDone(cb: Cb, fl: Flags) {
    fl.localEof && fl.closeAcked && fl.remoteClose && WaitSnd(cb) == 0
  }

  function AfterWrite(sink: Sink): Sink {
    if sink.FailsAfter? && sink.chunks > 0 then sink.(chunks := sink.chunks - 1) else sink
  }

  predicate WriteFails(sink: Sink, out: seq<byte>) {
    out != [] && sink.FailsAfter? && sink.chunks == 0
  }

  /** `redp2p_stream_drain`. */
  function Drain(m: Arith, cb: Cb, sink: Sink): Drained
    decreases |cb.rcvQueue| + |cb.rcvBuf|
  {
    var size := PeekSize(cb);
    if size < 0 then Drained(cb, [], [], true)
    else if size > BUF then Drained(cb, [], [], false)
    else
      var (c, n, out) := Recv(m, cb, BUF);
      if n < 0 then Drained(c, [], [], false)
      else if WriteFails(sink, out) then Drained(c, out, out[..Min(sink.partial, |out|)], false)
      else
        RecvShrinks(m, cb, BUF);
        var rest := Drain(m, c, if out == [] then sink else AfterWrite(sink));
        Drained(rest.cb, out + rest.received, out + rest.written, rest.ok)
  }

  /** What follows `ikcp_input`, given its new control block and result code. */
  function AfterInput(m: Arith, fl: Flags, input: (Cb, int), sink: Sink): Outcome {
    if input.1 != 0 then Outcome(input.0, fl, [], [], [], false, false)
    else
      var d := Drain(m, input.0, sink);
      Outcome(d.cb, fl, [], d.received, d.written, false, d.ok)
  }

  /** A KCP datagram for a ready stream: input, then drain. */
  function ProcessData(m: Arith, cb: Cb, fl: Flags, ws: seq<Wire>, sink: Sink): Outcome {
    AfterInput(m, fl, Receive(m, cb, ws), sink)
  }

  /** A close for a ready stream: drain first, then shut down the TCP write half, once. */
  function ProcessClose(m: Arith, cb: Cb, fl: Flags, sink: Sink): Outcome {
    var d := Drain(m, cb, sink);
    if !d.ok then Outcome(d.cb, fl, [], d.received, d.written, false, false)
    else Outcome(d.cb, fl.(remoteClose := true), [CloseAck], d.received, d.written, !fl.remoteClose, true)
  }

  /** The other control frames, which touch only flags. */
  function ProcessFlags(cb: Cb, fl: Flags, ctl: Control): Outcome {
    var same := Outcome(cb, fl, [], [], [], false, true);
    if ctl == Hello && !fl.initiator then same.(flags := fl.(ready := true), sent := [HelloAck])
    else if ctl == HelloAck && fl.initiator then same.(flags := fl.(ready := true))
    else if !fl.ready then same
    else if ctl == CloseAck then same.(flags := fl.(closeAcked := true))
    else if ctl == Reset then same.(flags := fl.(resetReceived := true), ok := false)
    else same
  }

  /** `redp2p_stream_process_packet` on a datagram of this session sent by the peer. */
  function Process(m: Arith, cb: Cb, fl: Flags, msg: Message, sink: Sink): Outcome {
    if msg.Data? then
      if fl.ready then ProcessData(m, cb, fl, msg.ws, sink) else Outcome(cb, fl, [], [], [], false, true)
    else if msg.ctl == Close && fl.ready then ProcessClose(m, cb, fl, sink)
    else ProcessFlags(cb, fl, msg.ctl)
  }

  /** `redp2p_stream_tick`. */
  function Tick(m: Arith, cb: Cb, fl: Flags, t: TickChoice): Ticked {
    var (greeted, hello) := TickHello(fl, t);
    var (c, ds) := if greeted.ready && t.updateDue then Update(m, cb, t.flushDue, t.flush) else (cb, []);
    var (closing, sent) := TickEnd(c, greeted, t, hello);
    Ticked(c, ds, closing, sent)
  }

  /** Sends HELLO, again when due, until the handshake is over. */
  function TickHello(fl: Flags, t: TickChoice): (Flags, seq<Control>) {
    if fl.initiator && !fl.ready && (!fl.helloSent || t.helloDue) then (fl.(helloSent := true), [Hello]) else (fl, [])
  }

  /** Sends CLOSE, again when due, once everything was acknowledged, and keep-alives. */
  function TickEnd(cb: Cb, fl: Flags, t: TickChoice, sent: seq<Control>): (Flags, seq<Control>) {
    var close := fl.ready && fl.localEof && !fl.closeAcked && WaitSnd(cb) == 0 && (!fl.closeSent || t.closeDue);
    (fl.(closeSent := fl.closeSent || close),
     sent + (if close then [Close] else []) + (if fl.ready && t.keepAliveDue then [KeepAlive] else []))
  }

  // ------------------------------------------------------------ whole tunnels

  /** One end of the tunnel with its history: bytes read from and written to its TCP socket, whether the
      socket's write half was shut down, the control frames it ever sent, and whether it is torn down. */
  datatype Stream = Stream(party: Party, flags: Flags, read: seq<byte>, written: seq<byte>, shutdown: bool,
                           controls: set<Control>, closed: bool)

  datatype Tun = Tun(ini: Stream, rsp: Stream)

  datatype Event =
    | OnRead(side: Side, read: Read)
    | OnTick(side: Side, tick: TickChoice)
    | OnDatagram(side: Side, from: Side, which: nat, sink: Sink)
    | OnControl(side: Side, from: Side, ctl: Control, sink: Sink)
    | OnAbort(side: Side)
    | OnDone(side: Side)

  function End(t: Tun, i: Side): Stream {
    if i.Initiator? then t.ini else t.rsp
  }

  function PutEnd(t: Tun, i: Side, s: Stream): Tun {
    if i.Initiator? then t.(ini := s) else t.(rsp := s)
  }

  function NewStream(conv: u32, initiator: bool): Stream {
    Stream(NewParty(conv), NewFlags(initiator), [], [], false, {}, false)
  }

  function NewTunnel(conv: u32): Tun {
    Tun(NewStream(conv, true), NewStream(conv, false))
  }

  function AsSet(cs: seq<Control>): set<Control> {
    set c | c in cs
  }

  /** `redp2p_stream_fail` followed by closing the session. */
  function Abort(s: Stream): Stream {
    var reset := s.flags.ready && !s.flags.resetSent && !s.flags.resetReceived;
    s.(flags := s.flags.(resetSent := s.flags.resetSent || reset),
       controls := s.controls + (if reset then {Reset} else {}), closed := true)
  }

  /** `redp2p_stream_pump_tcp`; a failure tears the stream down. */
  function Pump(s: Stream, r: Read): Stream {
    if !CanSendData(s.party.cb, s.flags) then s
    else
      match r
      case WouldBlock => s
      case Error => Abort(s)
      case Eof => s.(flags := s.flags.(localEof := true))
      case Chunk(data) =>
        if !(0 < |data| <= BUF) then s
        else
          var fed := s.(party := PartySend(s.party, data), read := s.read + data);
          if Send(s.party.cb, data).1 != |data| then Abort(fed) else fed
  }

  function Absorb(p: Party, o: Outcome): Party {
    p.(cb := o.cb, delivered := p.delivered + o.received)
  }

  /** The effect of an outcome on the stream and its history; a failure tears the stream down. */
  function Apply(s: Stream, o: Outcome): Stream {
    var next := Stream(Absorb(s.party, o), o.flags, s.read, s.written + o.written, s.shutdown || o.shutdown,
                       s.controls + AsSet(o.sent), s.closed);
    if o.ok then next else Abort(next)
  }

  function Arrive(m: Arith, s: Stream, msg: Message, sink: Sink): Stream {
    Apply(s, Process(m, s.party.cb, s.flags, msg, sink))
  }

  function Ticking(m: Arith, s: Stream, t: TickChoice): Stream {
    var r := Tick(m, s.party.cb, s.flags, t);
    s.(party := if s.flags.ready && t.updateDue then PartyUpdate(m, s.party, t.flushDue, t.flush) else s.party,
       flags := r.flags, controls := s.controls + AsSet(r.sent))
  }

  /** A datagram reflected to its own sender carries the wrong role and is ignored, as is anything that
      arrives after teardown. */
  function TunStep(m: Arith, t: Tun, e: Event): Tun {
    var s := End(t, e.side);
    if s.closed then t
    else
      match e
      case OnRead(i, r) => PutEnd(t, i, Pump(s, r))
      case OnTick(i, tick) => PutEnd(t, i, Ticking(m, s, tick))
      case OnDatagram(i, from, which, sink) =>
        var log := End(t, from).party.log;
        if from == i || which >= |log| then t else PutEnd(t, i, Arrive(m, s, Data(log[which]), sink))
      case OnControl(i, from, ctl, sink) =>
        if from == i || ctl !in End(t, from).controls then t else PutEnd(t, i, Arrive(m, s, Ctl(ctl), sink))
      case OnAbort(i) => PutEnd(t, i, Abort(s))
      case OnDone(i) => if IsDone(s.party.cb, s.flags) then PutEnd(t, i, s.(closed := true)) else t
  }

  function TunRun(m: Arith, t: Tun, es: seq<Event>): Tun
    decreases |es|
  {
    if es == [] then t else TunStep(m, TunRun(m, t, es[..|es| - 1]), es[|es| - 1])
  }
}
