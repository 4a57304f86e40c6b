/** Old datagrams in the tunnel: an age below which every delivery is clear, and a run in which an older one makes
    the 32-bit code report the end of a stream that was not written in full. */
module TunnelStale {
  import opened SerialNumbers
  import opened Bytes
  import opened KcpModel
  import opened KcpSystem
  import opened KcpRefinement
  import opened KcpStale
  import opened Tunnel
  import opened TunnelProofs
  import opened TunnelTheorems

  // -------------------------------------------------------------- young enough

  ghost predicate FreshEvent(t: Tun, e: Event) {
    e.OnDatagram? && e.from != e.side ==>
      var p, q := End(t, e.side).party, End(t, e.from).party;
      e.which < |q.log| ==> FreshDatagram(q.log[e.which], |q.hist|, |p.hist|)
  }

  ghost predicate FreshTunRun(t: Tun, es: seq<Event>)
    decreases |es|
  {
    es == [] ||
    (FreshTunRun(t, es[..|es| - 1]) && FreshEvent(TunRun(Unbounded, t, es[..|es| - 1]), es[|es| - 1]))
  }

  lemma FreshEventClear(t: Tun, e: Event)
    requires TunInv(t) && FreshEvent(t, e)
    ensures ClearEvent(t, e)
  {
    if e.OnDatagram? && e.from != e.side && e.which < |End(t, e.from).party.log| {
      var p, q := End(t, e.side).party, End(t, e.from).party;
      FreshClear(p.cb, q.log[e.which], p.hist, q.cb, q.hist);
    }
  }

  /** A tunnel run is clear if no delivered data or `una` field is older than 2^31 segments, minus the window for
      data, and no delivered acknowledgement older than 2^32. */
  lemma {:induction false} FreshTunRunIsClear(conv: u32, es: seq<Event>)
    requires FreshTunRun(NewTunnel(conv), es)
    ensures ClearTunRun(NewTunnel(conv), es)
    decreases |es|
  {
    if es != [] {
      var before := es[..|es| - 1];
      FreshTunRunIsClear(conv, before);
      TunRunKeeps(conv, before);
      FreshEventClear(TunRun(Unbounded, NewTunnel(conv), before), es[|es| - 1]);
    }
  }

  // ------------------------------------------------------- rounds of one segment

  function ReadyFlags(initiator: bool): Flags {
    NewFlags(initiator).(ready := true, helloSent := initiator)
  }

  /** The open tunnel whose ends are in this state: one side only reads, the other only writes. */
  function Open(s: Sys): Tun {
    Tun(Stream(s.ini, ReadyFlags(true), s.ini.accepted, [], false, {Hello}, false),
        Stream(s.rsp, ReadyFlags(false), [], s.rsp.delivered, false, {HelloAck}, false))
  }

  /** A tick that flushes. */
  const TICK: TickChoice := TickChoice(false, true, true, PLAIN, false, false)

  /** A tick at which no update is due. */
  const IDLE: TickChoice := TickChoice(false, false, false, PLAIN, false, false)

  lemma TickOpen(m: Arith, s: Stream, initiator: bool)
    requires s.flags == ReadyFlags(initiator)
    ensures Ticking(m, s, TICK) == s.(party := PartyUpdate(m, s.party, true, PLAIN))
  {
    assert AsSet([]) == {} && s.controls + {} == s.controls;
  }

  lemma ReadOne(conv: u32, k: nat)
    ensures TunStep(Unbounded, Open(StateAt(conv, k)), OnRead(Initiator, Chunk([0]))) == Open(Sent(conv, k))
  {
    StepSend(conv, k);
    SendOne(conv, k);
    RepeatNext(0 as byte, k);
  }

  lemma SendTick(conv: u32, k: nat)
    ensures TunStep(Unbounded, Open(Sent(conv, k)), OnTick(Initiator, TICK)) == Open(Flushed(conv, k))
  {
    StepFlush(conv, k);
    TickOpen(Unbounded, Open(Sent(conv, k)).ini, true);
  }

  lemma AckTick(conv: u32, k: nat)
    ensures TunStep(Unbounded, Open(Taken(conv, k)), OnTick(Responder, TICK)) == Open(Acked(conv, k))
  {
    StepAck(conv, k);
    TickOpen(Unbounded, Open(Taken(conv, k)).rsp, false);
  }

  /** A single segment is written. */
  lemma DrainOne(m: Arith, cb: Cb, sn: int)
    requires cb.rcvQueue == [InSeg(sn, 0, [0])] && cb.rcvBuf == []
    ensures Drain(m, cb, Healthy) == Drained(cb.(rcvQueue := []), [0], [0], true)
  {
    RecvSingle(m, cb, [0], BUF);
    DrainNothing(m, cb.(rcvQueue := []), Healthy);
    var out: seq<byte> := [0];
    assert out + [] == out;
  }

  lemma WriteOne(conv: u32, k: nat)
    ensures TunStep(Unbounded, Open(Flushed(conv, k)), OnDatagram(Responder, Initiator, k, Healthy))
         == Open(Taken(conv, k))
  {
    HoldOne(conv, k);
    DrainOne(Unbounded, Holding(conv, k), k);
    RepeatNext(0 as byte, k);
    var s := Open(Flushed(conv, k)).rsp;
    assert s.controls + AsSet([]) == s.controls;
  }

  lemma TakeAck(conv: u32, k: nat)
    ensures TunStep(Unbounded, Open(Acked(conv, k)), OnDatagram(Initiator, Responder, k, Healthy))
         == Open(StateAt(conv, k + 1))
  {
    DropOne(conv, k);
    DrainNothing(Unbounded, SenderAt(conv, k + 1), Healthy);
    var s := Open(Acked(conv, k)).ini;
    assert s.controls + AsSet([]) == s.controls;
    assert s.party.delivered + [] == [] && s.written + [] == [];
  }

  // ----------------------------------------------------------------- whole runs

  /** The run is clear and leads to `t`. */
  ghost predicate TunLeads(conv: u32, es: seq<Event>, t: Tun) {
    ClearTunRun(NewTunnel(conv), es) && TunRun(Unbounded, NewTunnel(conv), es) == t
  }

  lemma TunLeadsOn(conv: u32, es: seq<Event>, t: Tun, e: Event, u: Tun)
    requires TunLeads(conv, es, t) && ClearEvent(t, e) && TunStep(Unbounded, t, e) == u
    ensures TunLeads(conv, es + [e], u)
  {
    assert (es + [e])[..|es|] == es;
  }

  /** The handshake. */
  function Greeting(): seq<Event> {
    [OnTick(Initiator, TICK)] + [OnControl(Responder, Initiator, Hello, Healthy)]
    + [OnControl(Initiator, Responder, HelloAck, Healthy)]
  }

  lemma Greeted(conv: u32)
    ensures TunLeads(conv, Greeting(), Open(StateAt(conv, 0)))
  {
    var t0 := NewTunnel(conv);
    var t1 := t0.(ini := t0.ini.(flags := t0.ini.flags.(helloSent := true), controls := {Hello}));
    assert AsSet([Hello]) == {Hello} && AsSet([HelloAck]) == {HelloAck} && AsSet([]) == {};
    assert TunLeads(conv, [], t0);
    TunLeadsOn(conv, [], t0, OnTick(Initiator, TICK), t1);
    var t2 := t1.(rsp := t1.rsp.(flags := ReadyFlags(false), controls := {HelloAck}));
    TunLeadsOn(conv, [OnTick(Initiator, TICK)], t1, OnControl(Responder, Initiator, Hello, Healthy), t2);
    assert StateAt(conv, 0) == Init(conv);
    TunLeadsOn(conv, [OnTick(Initiator, TICK)] + [OnControl(Responder, Initiator, Hello, Healthy)], t2,
               OnControl(Initiator, Responder, HelloAck, Healthy), Open(Init(conv)));
  }

  /** A byte is read and its segment sent. */
  lemma HalfTunRound(conv: u32, k: nat, es: seq<Event>)
    requires TunLeads(conv, es, Open(StateAt(conv, k)))
    ensures TunLeads(conv, es + [OnRead(Initiator, Chunk([0]))] + [OnTick(Initiator, TICK)], Open(Flushed(conv, k)))
  {
    ReadOne(conv, k);
    TunLeadsOn(conv, es, Open(StateAt(conv, k)), OnRead(Initiator, Chunk([0])), Open(Sent(conv, k)));
    SendTick(conv, k);
    TunLeadsOn(conv, es + [OnRead(Initiator, Chunk([0]))], Open(Sent(conv, k)), OnTick(Initiator, TICK),
               Open(Flushed(conv, k)));
  }

  /** The segment is written and acknowledged. */
  lemma TunRoundEnds(conv: u32, k: nat, es: seq<Event>) returns (more: seq<Event>)
    requires TunLeads(conv, es, Open(Flushed(conv, k)))
    ensures TunLeads(conv, more, Open(StateAt(conv, k + 1)))
  {
    var data, ack := OnDatagram(Responder, Initiator, k, Healthy), OnDatagram(Initiator, Responder, k, Healthy);
    DataIsClear(conv, k);
    WriteOne(conv, k);
    TunLeadsOn(conv, es, Open(Flushed(conv, k)), data, Open(Taken(conv, k)));
    AckTick(conv, k);
    TunLeadsOn(conv, es + [data], Open(Taken(conv, k)), OnTick(Responder, TICK), Open(Acked(conv, k)));
    AckIsClear(conv, k);
    TakeAck(conv, k);
    more := es + [data] + [OnTick(Responder, TICK)] + [ack];
    TunLeadsOn(conv, es + [data] + [OnTick(Responder, TICK)], Open(Acked(conv, k)), ack, Open(StateAt(conv, k + 1)));
  }

  /** A clear run in which `k` bytes are read, written and acknowledged. */
  lemma {:induction false} TunRounds(conv: u32, k: nat) returns (es: seq<Event>)
    ensures TunLeads(conv, es, Open(StateAt(conv, k)))
  {
    if k == 0 {
      Greeted(conv);
      es := Greeting();
    } else {
      var before := TunRounds(conv, k - 1);
      HalfTunRound(conv, k - 1, before);
      es := TunRoundEnds(conv, k - 1, before + [OnRead(Initiator, Chunk([0]))] + [OnTick(Initiator, TICK)]);
    }
  }

  // ------------------------------------------------------------------- too old

  lemma TunRunOn(m: Arith, t: Tun, es: seq<Event>, e: Event)
    ensures TunRun(m, t, es + [e]) == TunStep(m, TunRun(m, t, es), e)
  {
    assert (es + [e])[..|es|] == es;
  }

  /** Some run repeats data: after 2^32 segments the very first datagram arrives once more, and more is written than
      the peer ever read. */
  lemma ReplayWritesMore(conv: u32) returns (es: seq<Event>)
    ensures var t := After(conv, es); !(t.rsp.written <= t.ini.read)
  {
    var before := TunRounds(conv, TWO32);
    TunRunRefines(conv, before);
    var again := OnDatagram(Responder, Initiator, 0, Healthy);
    es := before + [again];
    TunRunOn(Wrapping, NewTunnel(conv), before, again);
    WritesAgain(conv);
  }

  lemma WritesAgain(conv: u32)
    ensures var t := TunStep(Wrapping, TunShadow(Open(StateAt(conv, TWO32))),
                             OnDatagram(Responder, Initiator, 0, Healthy));
            |t.rsp.written| == TWO32 + 1 && |t.ini.read| == TWO32
  {
    ShadowAtTurn(conv);
    var cb := CbShadow(ReceiverAt(conv, TWO32));
    var t := TunShadow(Open(StateAt(conv, TWO32)));
    assert t.rsp.party.cb == cb && t.ini.party.log[0] == [DataWire(conv, 0)];
    ReceiveOne(cb, DataWire(conv, 0));
    FirstAgain(conv);
    DrainOne(Wrapping, InputSeg(Wrapping, cb, DataWire(conv, 0)), 0);
  }

  /** The writing end of a tunnel that has lost its last byte, waiting for nothing. */
  ghost predicate Lost(t: Tun) {
    && t.ini.flags == ReadyFlags(true) && t.rsp.flags == ReadyFlags(false) && !t.ini.closed && !t.rsp.closed
    && WaitSnd(t.ini.party.cb) == 0 && t.rsp.party.cb.rcvQueue == [] && |t.rsp.written| < |t.ini.read|
  }

  /** The very first acknowledgement, 2^31 + 2 segments later. */
  lemma LateAck(conv: u32)
    ensures Lost(TunStep(Wrapping, TunShadow(Open(Flushed(conv, LATE))), OnDatagram(Initiator, Responder, 0, Healthy)))
  {
    var t := TunShadow(Open(Flushed(conv, LATE)));
    ShadowOfFirstAck(conv);
    var cb := CbShadow(Sending(conv, LATE));
    assert t.ini.party.cb == cb && t.rsp.party.log[0] == [AckedWire(conv, 0)];
    ReceiveOne(cb, AckedWire(conv, 0));
    OldUnaDrops(conv);
    DrainNothing(Wrapping, InputSeg(Wrapping, cb, AckedWire(conv, 0)), Healthy);
  }

  /** The reading side meets end-of-file and, as nothing waits, closes; the writing side obeys. */
  lemma EndsEarly(t: Tun)
    requires Lost(t)
    ensures var t1 := TunStep(Wrapping, t, OnRead(Initiator, Eof));
            var t2 := TunStep(Wrapping, t1, OnTick(Initiator, IDLE));
            var t3 := TunStep(Wrapping, t2, OnControl(Responder, Initiator, Close, Healthy));
            t3.rsp.shutdown && |t3.rsp.written| < |t3.ini.read|
  {
    var t1 := TunStep(Wrapping, t, OnRead(Initiator, Eof));
    var t2 := TunStep(Wrapping, t1, OnTick(Initiator, IDLE));
    assert t1 == t.(ini := t.ini.(flags := t.ini.flags.(localEof := true)));
    assert Close in t2.ini.controls by {
      assert Close in AsSet(Tick(Wrapping, t1.ini.party.cb, t1.ini.flags, IDLE).sent);
    }
    DrainNothing(Wrapping, t.rsp.party.cb, Healthy);
  }

  /** Some run ends a stream early: the write half is shut down although a byte that the peer read was never
      written. */
  lemma OldAckEndsEarly(conv: u32) returns (es: seq<Event>)
    ensures var t := After(conv, es); t.rsp.shutdown && |t.rsp.written| < |t.ini.read|
  {
    var before := TunRounds(conv, LATE);
    HalfTunRound(conv, LATE, before);
    before := before + [OnRead(Initiator, Chunk([0]))] + [OnTick(Initiator, TICK)];
    TunRunRefines(conv, before);
    LateAck(conv);
    var late, eof := OnDatagram(Initiator, Responder, 0, Healthy), OnRead(Initiator, Eof);
    var tick, close := OnTick(Initiator, IDLE), OnControl(Responder, Initiator, Close, Healthy);
    es := before + [late] + [eof] + [tick] + [close];
    TunRunOn(Wrapping, NewTunnel(conv), before, late);
    TunRunOn(Wrapping, NewTunnel(conv), before + [late], eof);
    TunRunOn(Wrapping, NewTunnel(conv), before + [late] + [eof], tick);
    TunRunOn(Wrapping, NewTunnel(conv), before + [late] + [eof] + [tick], close);
    EndsEarly(After(conv, before + [late]));
  }
}
