/** What the tunnel guarantees in every run of the 32-bit, byte-level protocol. */
module TunnelTheorems {
  import opened SerialNumbers
  import opened Bytes
  import opened KcpModel
  import opened KcpSystem
  import opened KcpInvariant
  import opened KcpRefinement
  import opened Tunnel
  import opened TunnelProofs

  // -------------------------------------------------------------- refinement

  function StreamShadow(s: Stream): Stream {
    s.(party := PartyShadow(s.party))
  }

  function TunShadow(t: Tun): Tun {
    Tun(StreamShadow(t.ini), StreamShadow(t.rsp))
  }

  function OutcomeShadow(o: Outcome): Outcome {
    o.(cb := CbShadow(o.cb))
  }

  lemma {:induction false} DrainShadow(cb: Cb, sink: Sink, hist: seq<seq<byte>>)
    requires ReceiverOk(cb, hist)
    ensures var d := Drain(Unbounded, cb, sink); Drain(Wrapping, CbShadow(cb), sink) == d.(cb := CbShadow(d.cb))
    decreases |cb.rcvQueue| + |cb.rcvBuf|
  {
    PeekSizeShadow(cb);
    if 0 <= PeekSize(cb) <= BUF {
      RecvShadow(cb, BUF, hist);
      RecvTakesOne(cb, BUF, hist);
      var (c, n, out) := Recv(Unbounded, cb, BUF);
      if n >= 0 && !WriteFails(sink, out) {
        RecvShrinks(Unbounded, cb, BUF);
        DrainShadow(c, if out == [] then sink else AfterWrite(sink), hist);
      }
    }
  }

  lemma DataShadow(x: Stream, y: Stream, which: nat, sink: Sink)
    requires Pair(x.party, y.party) && which < |y.party.log|
    requires Clear(x.party.cb, y.party.log[which])
    ensures ProcessData(Wrapping, CbShadow(x.party.cb), x.flags, LogShadow(y.party.log)[which], sink)
         == OutcomeShadow(ProcessData(Unbounded, x.party.cb, x.flags, y.party.log[which], sink))
  {
    ReceiveShadow(x.party, y.party, which);
    InputKeeps(x.party, y.party, which);
    DrainShadow(Receive(Unbounded, x.party.cb, y.party.log[which]).0, sink, y.party.hist);
  }

  lemma ApplyShadow(s: Stream, o: Outcome)
    ensures Apply(StreamShadow(s), OutcomeShadow(o)) == StreamShadow(Apply(s, o))
  {
  }

  lemma ArriveDataShadow(x: Stream, y: Stream, which: nat, sink: Sink)
    requires Pair(x.party, y.party) && which < |y.party.log|
    requires Clear(x.party.cb, y.party.log[which])
    ensures Arrive(Wrapping, StreamShadow(x), Data(LogShadow(y.party.log)[which]), sink)
         == StreamShadow(Arrive(Unbounded, x, Data(y.party.log[which]), sink))
  {
    if x.flags.ready {
      DataShadow(x, y, which, sink);
      ApplyShadow(x, ProcessData(Unbounded, x.party.cb, x.flags, y.party.log[which], sink));
    } else {
      ApplyShadow(x, Outcome(x.party.cb, x.flags, [], [], [], false, true));
    }
  }

  lemma ArriveControlShadow(x: Stream, ctl: Control, sink: Sink, hist: seq<seq<byte>>)
    requires ReceiverOk(x.party.cb, hist)
    ensures Arrive(Wrapping, StreamShadow(x), Ctl(ctl), sink) == StreamShadow(Arrive(Unbounded, x, Ctl(ctl), sink))
  {
    if ctl == Close && x.flags.ready {
      CloseShadow(x.party.cb, x.flags, sink, hist);
      ApplyShadow(x, ProcessClose(Unbounded, x.party.cb, x.flags, sink));
    } else {
      FlagsShadow(x.party.cb, x.flags, ctl);
      ApplyShadow(x, ProcessFlags(x.party.cb, x.flags, ctl));
    }
  }

  lemma CloseShadow(cb: Cb, fl: Flags, sink: Sink, hist: seq<seq<byte>>)
    requires ReceiverOk(cb, hist)
    ensures ProcessClose(Wrapping, CbShadow(cb), fl, sink) == OutcomeShadow(ProcessClose(Unbounded, cb, fl, sink))
  {
    DrainShadow(cb, sink, hist);
  }

  lemma FlagsShadow(cb: Cb, fl: Flags, ctl: Control)
    ensures ProcessFlags(CbShadow(cb), fl, ctl) == OutcomeShadow(ProcessFlags(cb, fl, ctl))
  {
  }

  lemma PumpShadow(x: Stream, r: Read)
    ensures Pump(StreamShadow(x), r) == StreamShadow(Pump(x, r))
  {
    if r.Chunk? {
      SendShadow(x.party, r.data);
    }
  }

  lemma TickShadow(cb: Cb, fl: Flags, t: TickChoice, hist: seq<seq<byte>>)
    requires SenderOk(cb, hist) && 0 <= cb.rmtWnd
    ensures var r, w := Tick(Unbounded, cb, fl, t), Tick(Wrapping, CbShadow(cb), fl, t);
            w.flags == r.flags && w.sent == r.sent
  {
    UpdateCbShadow(cb, t.flushDue, t.flush, hist);
    var (greeted, hello) := TickHello(fl, t);
    EndShadow(Tick(Unbounded, cb, fl, t).cb, greeted, t, hello);
  }

  lemma EndShadow(cb: Cb, fl: Flags, t: TickChoice, sent: seq<Control>)
    ensures TickEnd(CbShadow(cb), fl, t, sent) == TickEnd(cb, fl, t, sent)
  {
  }

  lemma TickingShadow(x: Stream, t: TickChoice, peerHist: seq<seq<byte>>)
    requires PartyOk(x.party, peerHist)
    ensures Ticking(Wrapping, StreamShadow(x), t) == StreamShadow(Ticking(Unbounded, x, t))
  {
    TickShadow(x.party.cb, x.flags, t, x.party.hist);
    UpdateShadow(x.party, t.flushDue, t.flush, peerHist);
  }

  /** The event, if it delivers a datagram, delivers a clear one. */
  ghost predicate ClearEvent(t: Tun, e: Event) {
    e.OnDatagram? && e.from != e.side ==>
      var x, y := End(t, e.side), End(t, e.from);
      e.which < |y.party.log| ==> Clear(x.party.cb, y.party.log[e.which])
  }

  ghost predicate ClearTunRun(t: Tun, es: seq<Event>)
    decreases |es|
  {
    es == [] ||
    (ClearTunRun(t, es[..|es| - 1]) && ClearEvent(TunRun(Unbounded, t, es[..|es| - 1]), es[|es| - 1]))
  }

  lemma PutEndShadow(t: Tun, i: Side, s: Stream)
    ensures PutEnd(TunShadow(t), i, StreamShadow(s)) == TunShadow(PutEnd(t, i, s))
    ensures End(TunShadow(t), i) == StreamShadow(End(t, i))
  {
  }

  lemma DatagramShadow(t: Tun, i: Side, from: Side, which: nat, sink: Sink)
    requires TunInv(t) && ClearEvent(t, OnDatagram(i, from, which, sink)) && !End(t, i).closed
    ensures var e := OnDatagram(i, from, which, sink);
            TunStep(Wrapping, TunShadow(t), e) == TunShadow(TunStep(Unbounded, t, e))
  {
    var x, y := End(t, i), End(t, from);
    if from != i && which < |y.party.log| {
      ArriveDataShadow(x, y, which, sink);
      PutEndShadow(t, i, Arrive(Unbounded, x, Data(y.party.log[which]), sink));
    }
  }

  lemma ControlShadow(t: Tun, i: Side, from: Side, ctl: Control, sink: Sink)
    requires TunInv(t) && !End(t, i).closed
    ensures var e := OnControl(i, from, ctl, sink);
            TunStep(Wrapping, TunShadow(t), e) == TunShadow(TunStep(Unbounded, t, e))
  {
    var x, y := End(t, i), End(t, from);
    if from != i && ctl in y.controls {
      ArriveControlShadow(x, ctl, sink, y.party.hist);
      PutEndShadow(t, i, Arrive(Unbounded, x, Ctl(ctl), sink));
    }
  }

  lemma LocalShadow(t: Tun, e: Event)
    requires TunInv(t) && !End(t, e.side).closed && !e.OnDatagram? && !e.OnControl?
    ensures TunStep(Wrapping, TunShadow(t), e) == TunShadow(TunStep(Unbounded, t, e))
  {
    var i := e.side;
    var x, y := End(t, i), End(t, Other(i));
    if e.OnRead? {
      PumpShadow(x, e.read);
      PutEndShadow(t, i, Pump(x, e.read));
    } else if e.OnTick? {
      TickingShadow(x, e.tick, y.party.hist);
      PutEndShadow(t, i, Ticking(Unbounded, x, e.tick));
    } else if e.OnAbort? {
      PutEndShadow(t, i, Abort(x));
    } else {
      PutEndShadow(t, i, x.(closed := true));
    }
  }

  lemma TunStepShadow(t: Tun, e: Event)
    requires TunInv(t) && ClearEvent(t, e)
    ensures TunStep(Wrapping, TunShadow(t), e) == TunShadow(TunStep(Unbounded, t, e))
  {
    if !End(t, e.side).closed {
      if e.OnDatagram? {
        DatagramShadow(t, e.side, e.from, e.which, e.sink);
      } else if e.OnControl? {
        ControlShadow(t, e.side, e.from, e.ctl, e.sink);
      } else {
        LocalShadow(t, e);
      }
    }
  }

  lemma {:induction false} TunRunRefines(conv: u32, es: seq<Event>)
    requires ClearTunRun(NewTunnel(conv), es)
    ensures TunRun(Wrapping, NewTunnel(conv), es) == TunShadow(TunRun(Unbounded, NewTunnel(conv), es))
    decreases |es|
  {
    if es == [] {
      InitShadow(conv);
    } else {
      var before := es[..|es| - 1];
      TunRunRefines(conv, before);
      TunRunKeeps(conv, before);
      TunStepShadow(TunRun(Unbounded, NewTunnel(conv), before), es[|es| - 1]);
    }
  }

  // ---------------------------------------------------------------- theorems

  /** The 32-bit state of the tunnel after the events. */
  function After(conv: u32, es: seq<Event>): Tun {
    TunRun(Wrapping, NewTunnel(conv), es)
  }

  lemma AfterKnown(conv: u32, es: seq<Event>)
    requires ClearTunRun(NewTunnel(conv), es)
    ensures var t := TunRun(Unbounded, NewTunnel(conv), es); TunInv(t) && After(conv, es) == TunShadow(t)
  {
    TunRunKeeps(conv, es);
    TunRunRefines(conv, es);
  }

  /** At every moment each side has written to its TCP socket a prefix of what the other side read. */
  lemma WrittenIsPrefix(conv: u32, es: seq<Event>, i: Side)
    requires ClearTunRun(NewTunnel(conv), es)
    ensures End(After(conv, es), i).written <= End(After(conv, es), Other(i)).read
  {
    AfterKnown(conv, es);
    PrefixInside(TunRun(Unbounded, NewTunnel(conv), es), i);
  }

  lemma PrefixInside(t: Tun, i: Side)
    requires TunInv(t)
    ensures End(t, i).written <= End(t, Other(i)).read
  {
    WrittenBelowRead(End(t, i), End(t, Other(i)));
  }

  /** A side shuts down its TCP write half only after writing exactly the whole stream that the peer read
      before its end-of-file. */
  lemma EofAfterEverything(conv: u32, es: seq<Event>, i: Side)
    requires ClearTunRun(NewTunnel(conv), es) && End(After(conv, es), i).shutdown
    ensures var peer := End(After(conv, es), Other(i));
            peer.flags.localEof && End(After(conv, es), i).written == peer.read
  {
    AfterKnown(conv, es);
  }

  /** When either side considers the stream done, both directions were delivered in full. */
  lemma DoneMeansDelivered(conv: u32, es: seq<Event>, i: Side)
    requires ClearTunRun(NewTunnel(conv), es)
    requires var s := End(After(conv, es), i); IsDone(s.party.cb, s.flags)
    ensures var s, peer := End(After(conv, es), i), End(After(conv, es), Other(i));
            && s.flags.localEof && peer.flags.localEof
            && s.written == peer.read && peer.written == s.read
            && s.shutdown && peer.shutdown
  {
    AfterKnown(conv, es);
  }

  /** Back-pressure: at most 130 segments wait, and KCP takes every chunk that is read while reading is
      allowed, so reading never fails the stream. */
  lemma BackPressure(conv: u32, es: seq<Event>, i: Side, data: seq<byte>)
    requires ClearTunRun(NewTunnel(conv), es)
    ensures var s := End(After(conv, es), i);
            && WaitSnd(s.party.cb) <= WAIT_LIMIT
            && (0 < |data| <= BUF ==> Send(s.party.cb, data).1 == |data|)
  {
    AfterKnown(conv, es);
    PressureInside(TunRun(Unbounded, NewTunnel(conv), es), i, data);
  }

  lemma PressureInside(t: Tun, i: Side, data: seq<byte>)
    requires TunInv(t)
    ensures var cb := CbShadow(End(t, i).party.cb);
            WaitSnd(cb) <= WAIT_LIMIT && (0 < |data| <= BUF ==> Send(cb, data).1 == |data|)
  {
    SendAccepts(End(t, i).party.cb, data);
  }

  lemma CloseSucceeds(x: Stream, y: Stream)
    requires Pair(x.party, y.party)
    ensures ProcessClose(Wrapping, CbShadow(x.party.cb), x.flags, Healthy).ok
  {
    DrainShadow(x.party.cb, Healthy, y.party.hist);
    DrainKeeps(x.party, y.party, Healthy);
  }

  /** A clear datagram fails the stream only if the local TCP write fails: never because of KCP input, an
      oversized chunk, or KCP receive. */
  lemma DataNeverFails(conv: u32, es: seq<Event>, i: Side, which: nat)
    requires ClearTunRun(NewTunnel(conv), es)
    requires which < |End(After(conv, es), Other(i)).party.log|
    requires ClearEvent(TunRun(Unbounded, NewTunnel(conv), es), OnDatagram(i, Other(i), which, Healthy))
    ensures var s, peer := End(After(conv, es), i), End(After(conv, es), Other(i));
            Process(Wrapping, s.party.cb, s.flags, Data(peer.party.log[which]), Healthy).ok
  {
    AfterKnown(conv, es);
    var t := TunRun(Unbounded, NewTunnel(conv), es);
    DataShadow(End(t, i), End(t, Other(i)), which, Healthy);
    var p, q := End(t, i).party, End(t, Other(i)).party;
    InputKeeps(p, q, which);
    DrainKeeps(PartyInput(Unbounded, p, q, which), q, Healthy);
  }

  /** A control frame fails the stream exactly when it is a reset for a ready stream or the local TCP
      write fails. */
  lemma ControlFailsOnlyOnReset(conv: u32, es: seq<Event>, i: Side, ctl: Control)
    requires ClearTunRun(NewTunnel(conv), es)
    ensures var s := End(After(conv, es), i);
            !Process(Wrapping, s.party.cb, s.flags, Ctl(ctl), Healthy).ok <==> ctl == Reset && s.flags.ready
  {
    AfterKnown(conv, es);
    var t := TunRun(Unbounded, NewTunnel(conv), es);
    CloseSucceeds(End(t, i), End(t, Other(i)));
    ControlOutcome(CbShadow(End(t, i).party.cb), End(t, i).flags, ctl);
  }

  lemma ControlOutcome(cb: Cb, fl: Flags, ctl: Control)
    requires ProcessClose(Wrapping, cb, fl, Healthy).ok
    ensures !Process(Wrapping, cb, fl, Ctl(ctl), Healthy).ok <==> ctl == Reset && fl.ready
  {
  }
}
