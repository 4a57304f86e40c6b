/** End-of-file is passed on only after every byte was delivered. */
module TunnelProofs {
  import opened SerialNumbers
  import opened Bytes
  import opened KcpModel
  import opened KcpSystem
  import opened KcpInvariant
  import opened Tunnel

  const WAIT_LIMIT: int := 130

  // ------------------------------------------------------------- the invariant

  /** What one end keeps about itself and its peer. */
  ghost predicate EndOk(x: Stream, y: Stream) {
    && x.read == x.party.accepted
    && x.written <= x.party.delivered
    && (!x.closed ==> x.written == x.party.delivered && x.party.cb.rcvQueue == [])
    && WaitSnd(x.party.cb) <= WAIT_LIMIT
    && (Close in x.controls ==> x.flags.localEof && WaitSnd(x.party.cb) == 0)
    && (CloseAck in x.controls ==> x.flags.remoteClose)
    && (x.flags.remoteClose ==> Close in y.controls && x.written == y.read)
    && (x.shutdown <==> x.flags.remoteClose)
    && (x.flags.closeAcked ==> CloseAck in y.controls)
  }

  ghost predicate TunInv(t: Tun) {
    && Pair(t.ini.party, t.rsp.party) && EndOk(t.ini, t.rsp) && EndOk(t.rsp, t.ini)
    && t.ini.flags.initiator && !t.rsp.flags.initiator
  }

  // ----------------------------------------------------------------- draining

  /** Draining keeps the party; when it succeeds the receive queue is empty and everything taken was
      written, and it fails only if the TCP socket does. */
  lemma {:induction false} DrainKeeps(p: Party, q: Party, sink: Sink)
    requires PartyOk(p, q.hist) && GoodChunks(q.hist)
    ensures var d := Drain(Unbounded, p.cb, sink);
            var p' := p.(cb := d.cb, delivered := p.delivered + d.received);
            && PartyOk(p', q.hist) && Grows(p.cb, d.cb)
            && (forall sn :: InFlight(p.cb, sn) ==> InFlight(d.cb, sn))
            && d.cb.sndBuf == p.cb.sndBuf && d.cb.sndQueue == p.cb.sndQueue
            && d.written <= d.received && (d.ok ==> d.written == d.received && d.cb.rcvQueue == [])
            && (sink.Healthy? ==> d.ok)
    decreases |p.cb.rcvQueue| + |p.cb.rcvBuf|
  {
    if p.cb.rcvQueue == [] {
      assert p.delivered + [] == p.delivered;
      assert p.(cb := p.cb, delivered := p.delivered + []) == p;
    } else {
      assert p.cb.rcvQueue[0].frg == 0 && GoodChunk(p.cb.rcvQueue[0].data);
      RecvTakesOne(p.cb, BUF, q.hist);
      RecvKeeps(p, BUF, q.hist);
      var (c, n, out) := Recv(Unbounded, p.cb, BUF);
      var p1 := p.(cb := c, delivered := p.delivered + out);
      if !WriteFails(sink, out) {
        RecvShrinks(Unbounded, p.cb, BUF);
        DrainKeeps(p1, q, AfterWrite(sink));
        var rest := Drain(Unbounded, c, AfterWrite(sink));
        Associative(p.delivered, out, rest.received);
        PrefixUnderPrefix(out, rest.written, rest.received);
      }
    }
  }

  /** With an empty receive queue there is nothing to drain. */
  lemma DrainNothing(m: Arith, cb: Cb, sink: Sink)
    requires cb.rcvQueue == []
    ensures Drain(m, cb, sink) == Drained(cb, [], [], true)
  {
  }

  lemma PrefixUnderPrefix(a: seq<byte>, b: seq<byte>, c: seq<byte>)
    requires b <= c
    ensures a + b <= a + c
  {
  }

  /** Once the sender has nothing unacknowledged, an empty receive queue means everything was taken. */
  lemma DrainedAll(p: Party, q: Party)
    requires Pair(p, q) && p.cb.rcvQueue == [] && WaitSnd(q.cb) == 0
    ensures p.delivered == q.accepted
  {
    if p.cb.rcvNxt < |q.hist| {
      NextIsHeld(p, q);
      assert false;
    }
    assert q.hist[..p.cb.rcvNxt] == q.hist;
  }

  lemma NextIsHeld(p: Party, q: Party)
    requires Pair(p, q) && WaitSnd(q.cb) == 0 && p.cb.rcvNxt < |q.hist|
    ensures p.cb.rcvBuf != [] && p.cb.rcvBuf[0].sn == p.cb.rcvNxt
  {
    var nxt := p.cb.rcvNxt;
    assert !InFlight(q.cb, nxt);
    assert Held(p.cb, nxt);
    var i :| 0 <= i < |p.cb.rcvBuf| && p.cb.rcvBuf[i].sn == nxt;
    assert Storable(p.cb.rcvBuf[0], nxt, q.hist);
  }

  // -------------------------------------------------------------------- steps

  lemma AbortKeeps(x: Stream, y: Stream)
    requires EndOk(x, y)
    ensures EndOk(Abort(x), y)
  {
  }

  lemma PeerUnaffected(x: Stream, x': Stream, y: Stream)
    requires EndOk(y, x) && x.controls <= x'.controls
    requires y.flags.remoteClose ==> x'.read == x.read
    ensures EndOk(y, x')
  {
  }

  lemma PumpKeeps(x: Stream, y: Stream, r: Read)
    requires Pair(x.party, y.party) && EndOk(x, y) && EndOk(y, x) && !x.closed
    ensures var x' := Pump(x, r);
            Pair(x'.party, y.party) && EndOk(x', y) && EndOk(y, x') && x'.flags.initiator == x.flags.initiator
  {
    var x' := Pump(x, r);
    if CanSendData(x.party.cb, x.flags) && r.Chunk? && 0 < |r.data| <= BUF {
      SendKeeps(x.party, r.data, y.party.hist);
      SendAccepts(x.party.cb, r.data);
      assert SegmentCount(|r.data|) <= 3;
      PartyStepKeeps(x.party, y.party, PartySend(x.party, r.data));
      assert r.data[..|r.data|] == r.data;
      assert x'.party == PartySend(x.party, r.data) && !x'.closed;
    } else if CanSendData(x.party.cb, x.flags) && r.Error? {
      AbortKeeps(x, y);
    }
    PeerUnaffected(x, x', y);
  }

  /** A close is sent only at end-of-file with nothing left to send or be acknowledged. */
  lemma TickEffects(m: Arith, cb: Cb, fl: Flags, t: TickChoice)
    ensures var r := Tick(m, cb, fl, t);
            && r.flags == fl.(helloSent := r.flags.helloSent, closeSent := r.flags.closeSent)
            && (Close in r.sent ==> fl.localEof && WaitSnd(r.cb) == 0) && CloseAck !in r.sent
            && r.cb == if fl.ready && t.updateDue then Update(m, cb, t.flushDue, t.flush).0 else cb
  {
  }

  lemma TickApplied(x: Stream, y: Stream, x': Stream, sent: set<Control>)
    requires EndOk(x, y) && EndOk(y, x) && !x.closed
    requires x' == x.(party := x'.party, flags := x'.flags, controls := x.controls + sent)
    requires x'.flags == x.flags.(helloSent := x'.flags.helloSent, closeSent := x'.flags.closeSent)
    requires x'.party.accepted == x.party.accepted && x'.party.delivered == x.party.delivered
    requires WaitSnd(x'.party.cb) == WaitSnd(x.party.cb) && x'.party.cb.rcvQueue == x.party.cb.rcvQueue
    requires (Close in sent ==> x.flags.localEof && WaitSnd(x'.party.cb) == 0) && CloseAck !in sent
    ensures EndOk(x', y) && EndOk(y, x')
  {
  }

  lemma TickKeeps(x: Stream, y: Stream, t: TickChoice)
    requires Pair(x.party, y.party) && EndOk(x, y) && EndOk(y, x) && !x.closed
    ensures var x' := Ticking(Unbounded, x, t);
            Pair(x'.party, y.party) && EndOk(x', y) && EndOk(y, x') && x'.flags.initiator == x.flags.initiator
  {
    var r := Tick(Unbounded, x.party.cb, x.flags, t);
    var p := if x.flags.ready && t.updateDue then PartyUpdate(Unbounded, x.party, t.flushDue, t.flush) else x.party;
    if x.flags.ready && t.updateDue {
      UpdateKeeps(x.party, t.flushDue, t.flush, y.party.hist);
      PartyStepKeeps(x.party, y.party, p);
      UpdateWaits(x.party, t.flushDue, t.flush);
    }
    TickEffects(Unbounded, x.party.cb, x.flags, t);
    TickApplied(x, y, x.(party := p, flags := r.flags, controls := x.controls + AsSet(r.sent)), AsSet(r.sent));
  }

  /** A flush only moves payloads from the send queue to the send buffer. */
  lemma UpdateWaits(p: Party, due: bool, ch: FlushChoice)
    requires SenderOk(p.cb, p.hist)
    ensures WaitSnd(PartyUpdate(Unbounded, p, due, ch).cb) == WaitSnd(p.cb)
    ensures PartyUpdate(Unbounded, p, due, ch).cb.rcvQueue == p.cb.rcvQueue
  {
    AdmitCount(p.cb.(updated := true), EffectiveWindow(p.cb, ch));
  }

  lemma {:induction false} AdmitCount(cb: Cb, cwnd: int)
    ensures WaitSnd(Admit(Unbounded, cb, cwnd)) == WaitSnd(cb) && Admit(Unbounded, cb, cwnd).rcvQueue == cb.rcvQueue
    decreases |cb.sndQueue|
  {
    if CanAdmit(Unbounded, cb, cwnd) {
      AdmitCount(AdmitOne(Unbounded, cb), cwnd);
    }
  }

  /** The bytes written never exceed what the peer read. */
  lemma WrittenBelowRead(x: Stream, y: Stream)
    requires Pair(x.party, y.party) && x.written <= x.party.delivered && y.read == y.party.accepted
    ensures x.written <= y.read
  {
    DeliveredIsPrefix(x.party, y.party);
  }

  /** An outcome that only takes bytes from KCP and writes them. */
  ghost predicate Takes(x: Stream, o: Outcome) {
    && o.flags == x.flags && o.sent == [] && !o.shutdown
    && o.written <= o.received && (o.ok ==> o.written == o.received && o.cb.rcvQueue == [])
    && WaitSnd(o.cb) <= WaitSnd(x.party.cb)
  }

  lemma TakesKeeps(x: Stream, y: Stream, o: Outcome)
    requires EndOk(x, y) && EndOk(y, x) && !x.closed && Takes(x, o) && Pair(Absorb(x.party, o), y.party)
    ensures var x' := Apply(x, o); Pair(x'.party, y.party) && EndOk(x', y) && EndOk(y, x')
  {
    var x' := Apply(x, o);
    PrefixUnderPrefix(x.written, o.written, o.received);
    if x'.flags.remoteClose {
      WrittenBelowRead(x', y);
      assert x'.written == x.written;
    }
    PeerUnaffected(x, x', y);
  }

  lemma DataTakes(x: Stream, y: Stream, which: nat, sink: Sink)
    requires Pair(x.party, y.party) && which < |y.party.log|
    ensures var o := ProcessData(Unbounded, x.party.cb, x.flags, y.party.log[which], sink);
            Takes(x, o) && Pair(Absorb(x.party, o), y.party)
  {
    var p, q := x.party, y.party;
    InputKeeps(p, q, which);
    var p1 := PartyInput(Unbounded, p, q, which);
    DrainKeeps(p1, q, sink);
    var d := Drain(Unbounded, p1.cb, sink);
    PartyStepKeeps(p1, q, p1.(cb := d.cb, delivered := p1.delivered + d.received));
  }

  lemma ArriveDataKeeps(x: Stream, y: Stream, which: nat, sink: Sink)
    requires Pair(x.party, y.party) && EndOk(x, y) && EndOk(y, x) && !x.closed && which < |y.party.log|
    ensures var x' := Arrive(Unbounded, x, Data(y.party.log[which]), sink);
            Pair(x'.party, y.party) && EndOk(x', y) && EndOk(y, x') && x'.flags.initiator == x.flags.initiator
  {
    if x.flags.ready {
      DataTakes(x, y, which, sink);
      TakesKeeps(x, y, ProcessData(Unbounded, x.party.cb, x.flags, y.party.log[which], sink));
    } else {
      var o := Outcome(x.party.cb, x.flags, [], [], [], false, true);
      assert Absorb(x.party, o) == x.party;
      TakesKeeps(x, y, o);
    }
  }

  lemma ArriveCloseKeeps(x: Stream, y: Stream, sink: Sink)
    requires Pair(x.party, y.party) && EndOk(x, y) && EndOk(y, x) && !x.closed && Close in y.controls
    ensures var x' := Apply(x, ProcessClose(Unbounded, x.party.cb, x.flags, sink));
            Pair(x'.party, y.party) && EndOk(x', y) && EndOk(y, x') && x'.flags.initiator == x.flags.initiator
  {
    var p, q := x.party, y.party;
    var o := ProcessClose(Unbounded, p.cb, x.flags, sink);
    DrainKeeps(p, q, sink);
    PartyStepKeeps(p, q, Absorb(p, o));
    if o.ok {
      DrainedAll(Absorb(p, o), q);
      CloseApplied(x, y, o);
    } else {
      TakesKeeps(x, y, o);
    }
  }

  /** The moment the TCP write half is shut down: everything the peer read has been written. */
  lemma CloseApplied(x: Stream, y: Stream, o: Outcome)
    requires EndOk(x, y) && EndOk(y, x) && !x.closed && Close in y.controls
    requires o.ok && o.written == o.received && Absorb(x.party, o).delivered == y.party.accepted
    requires o.flags == x.flags.(remoteClose := true) && o.sent == [CloseAck] && o.shutdown == !x.flags.remoteClose
    requires WaitSnd(o.cb) <= WaitSnd(x.party.cb) && o.cb.rcvQueue == []
    ensures EndOk(Apply(x, o), y) && EndOk(y, Apply(x, o))
  {
    var x' := Apply(x, o);
    assert x'.written == y.read;
    PeerUnaffected(x, x', y);
  }

  lemma ArriveFlagsKeeps(x: Stream, y: Stream, ctl: Control)
    requires Pair(x.party, y.party) && EndOk(x, y) && EndOk(y, x) && !x.closed && ctl in y.controls
    ensures var x' := Apply(x, ProcessFlags(x.party.cb, x.flags, ctl));
            Pair(x'.party, y.party) && EndOk(x', y) && EndOk(y, x') && x'.flags.initiator == x.flags.initiator
  {
    FlagsOnly(x, ctl);
    var x' := Apply(x, ProcessFlags(x.party.cb, x.flags, ctl));
    FlagsKeepEnd(x, x', y);
    PeerUnaffected(x, x', y);
  }

  /** An outcome that moves no bytes. */
  lemma QuietApply(x: Stream, o: Outcome)
    requires o.cb == x.party.cb && o.received == [] && o.written == [] && !o.shutdown
    requires (HelloAck in o.sent || o.sent == [])
    requires CloseAck !in o.sent && Close !in o.sent
    ensures var x' := Apply(x, o);
            && x'.party == x.party && x'.read == x.read && x'.written == x.written && x'.shutdown == x.shutdown
            && x.controls <= x'.controls && (Close in x'.controls <==> Close in x.controls)
            && (CloseAck in x'.controls <==> CloseAck in x.controls)
            && x'.flags == o.flags.(resetSent := x'.flags.resetSent) && (x.closed ==> x'.closed)
  {
    QuietIs(x, o);
    var n := Quiet(x, o);
    assert Close in n.controls <==> Close in x.controls;
    assert CloseAck in n.controls <==> CloseAck in x.controls;
  }

  function Quiet(x: Stream, o: Outcome): Stream {
    x.(flags := o.flags, controls := x.controls + AsSet(o.sent))
  }

  lemma QuietIs(x: Stream, o: Outcome)
    requires o.cb == x.party.cb && o.received == [] && o.written == [] && !o.shutdown
    ensures Apply(x, o) == if o.ok then Quiet(x, o) else Abort(Quiet(x, o))
  {
    assert x.written + [] == x.written && x.party.delivered + [] == x.party.delivered;
  }

  /** Only flags, control frames and teardown change. */
  lemma FlagsOnly(x: Stream, ctl: Control)
    ensures var x' := Apply(x, ProcessFlags(x.party.cb, x.flags, ctl));
            && x'.party == x.party && x'.read == x.read && x'.written == x.written && x'.shutdown == x.shutdown
            && x.controls <= x'.controls && (Close in x'.controls <==> Close in x.controls)
            && (CloseAck in x'.controls <==> CloseAck in x.controls)
            && x'.flags.initiator == x.flags.initiator && x'.flags.localEof == x.flags.localEof
            && x'.flags.remoteClose == x.flags.remoteClose && (x.closed ==> x'.closed)
            && (x'.flags.closeAcked ==> x.flags.closeAcked || ctl == CloseAck)
  {
    QuietApply(x, ProcessFlags(x.party.cb, x.flags, ctl));
  }

  lemma FlagsKeepEnd(x: Stream, x': Stream, y: Stream)
    requires EndOk(x, y) && !x.closed
    requires x'.party == x.party && x'.read == x.read && x'.written == x.written && x'.shutdown == x.shutdown
    requires (Close in x'.controls <==> Close in x.controls) && (CloseAck in x'.controls <==> CloseAck in x.controls)
    requires x'.flags.localEof == x.flags.localEof && x'.flags.remoteClose == x.flags.remoteClose
    requires x'.flags.closeAcked ==> x.flags.closeAcked || CloseAck in y.controls
    ensures EndOk(x', y)
  {
  }

  lemma ArriveControlKeeps(x: Stream, y: Stream, ctl: Control, sink: Sink)
    requires Pair(x.party, y.party) && EndOk(x, y) && EndOk(y, x) && !x.closed && ctl in y.controls
    ensures var x' := Arrive(Unbounded, x, Ctl(ctl), sink);
            Pair(x'.party, y.party) && EndOk(x', y) && EndOk(y, x') && x'.flags.initiator == x.flags.initiator
  {
    if ctl == Close && x.flags.ready {
      ArriveCloseKeeps(x, y, sink);
    } else {
      ArriveFlagsKeeps(x, y, ctl);
    }
  }

  /** A step of one end. */
  lemma EndStepKeeps(t: Tun, i: Side, x': Stream)
    requires TunInv(t)
    requires var y := End(t, Other(i));
             && Pair(x'.party, y.party) && EndOk(x', y) && EndOk(y, x')
             && x'.flags.initiator == End(t, i).flags.initiator
    ensures TunInv(PutEnd(t, i, x'))
  {
  }

  lemma DatagramStep(t: Tun, i: Side, which: nat, sink: Sink)
    requires TunInv(t) && !End(t, i).closed && which < |End(t, Other(i)).party.log|
    ensures TunInv(PutEnd(t, i, Arrive(Unbounded, End(t, i), Data(End(t, Other(i)).party.log[which]), sink)))
  {
    var x, y := End(t, i), End(t, Other(i));
    ArriveDataKeeps(x, y, which, sink);
    EndStepKeeps(t, i, Arrive(Unbounded, x, Data(y.party.log[which]), sink));
  }

  lemma ControlStep(t: Tun, i: Side, ctl: Control, sink: Sink)
    requires TunInv(t) && !End(t, i).closed && ctl in End(t, Other(i)).controls
    ensures TunInv(PutEnd(t, i, Arrive(Unbounded, End(t, i), Ctl(ctl), sink)))
  {
    var x, y := End(t, i), End(t, Other(i));
    ArriveControlKeeps(x, y, ctl, sink);
    EndStepKeeps(t, i, Arrive(Unbounded, x, Ctl(ctl), sink));
  }

  lemma ReadStep(t: Tun, i: Side, r: Read)
    requires TunInv(t) && !End(t, i).closed
    ensures TunInv(PutEnd(t, i, Pump(End(t, i), r)))
  {
    PumpKeeps(End(t, i), End(t, Other(i)), r);
    EndStepKeeps(t, i, Pump(End(t, i), r));
  }

  lemma TickStep(t: Tun, i: Side, tick: TickChoice)
    requires TunInv(t) && !End(t, i).closed
    ensures TunInv(PutEnd(t, i, Ticking(Unbounded, End(t, i), tick)))
  {
    TickKeeps(End(t, i), End(t, Other(i)), tick);
    EndStepKeeps(t, i, Ticking(Unbounded, End(t, i), tick));
  }

  lemma TeardownStep(t: Tun, e: Event)
    requires TunInv(t) && !End(t, e.side).closed && (e.OnAbort? || e.OnDone?)
    ensures TunInv(TunStep(Unbounded, t, e))
  {
    var x, y := End(t, e.side), End(t, Other(e.side));
    if e.OnAbort? {
      AbortKeeps(x, y);
      PeerUnaffected(x, Abort(x), y);
      EndStepKeeps(t, e.side, Abort(x));
    } else {
      PeerUnaffected(x, x.(closed := true), y);
    }
  }

  lemma TunStepKeeps(t: Tun, e: Event)
    requires TunInv(t)
    ensures TunInv(TunStep(Unbounded, t, e))
  {
    var i := e.side;
    if !End(t, i).closed {
      if e.OnDatagram? {
        if e.from != i && e.which < |End(t, Other(i)).party.log| {
          DatagramStep(t, i, e.which, e.sink);
        }
      } else if e.OnControl? {
        if e.from != i && e.ctl in End(t, Other(i)).controls {
          ControlStep(t, i, e.ctl, e.sink);
        }
      } else if e.OnRead? {
        ReadStep(t, i, e.read);
      } else if e.OnTick? {
        TickStep(t, i, e.tick);
      } else {
        TeardownStep(t, e);
      }
    }
  }

  lemma {:induction false} TunRunKeeps(conv: u32, es: seq<Event>)
    ensures TunInv(TunRun(Unbounded, NewTunnel(conv), es))
    decreases |es|
  {
    if es == [] {
      InitOk(conv);
    } else {
      TunRunKeeps(conv, es[..|es| - 1]);
      TunStepKeeps(TunRun(Unbounded, NewTunnel(conv), es[..|es| - 1]), es[|es| - 1]);
    }
  }
}
