/** No open tunnel is stuck: whatever was lost, both ends can still read what they like and come to an orderly end. */
module TunnelRecovery {
  import opened Common
  import opened SerialNumbers
  import opened Bytes
  import opened KcpModel
  import opened KcpSystem
  import opened KcpInvariant
  import opened KcpRefinement
  import opened KcpEffects
  import opened KcpRecovery
  import opened Tunnel
  import opened TunnelProofs
  import opened TunnelTheorems

  // ------------------------------------------------------ how a run continues

  /** The event of a working tunnel delivers no datagram sent before `t` and meets no failure. */
  predicate TunLater(t: Tun, e: Event) {
    && !e.OnAbort? && !e.OnDone? && (e.OnRead? ==> !e.read.Error?)
    && (e.OnDatagram? ==> e.which >= |End(t, e.from).party.log| && e.sink.Healthy?)
    && (e.OnControl? ==> e.sink.Healthy?)
  }

  /** The event makes side `from` send the control frame. */
  ghost predicate Sends(m: Arith, t: Tun, e: Event, from: Side, ctl: Control) {
    var s := End(t, from);
    && e.side == from && !s.closed
    && match e
       case OnTick(_, tick) => ctl in Tick(m, s.party.cb, s.flags, tick).sent
       case OnControl(_, peer, received, sink) =>
         && peer != from && received in End(t, peer).controls
         && ctl in Process(m, s.party.cb, s.flags, Ctl(received), sink).sent
       case _ => false
  }

  ghost predicate SentIn(m: Arith, t: Tun, es: seq<Event>, from: Side, ctl: Control)
    decreases |es|
  {
    es != [] &&
    (var before := es[..|es| - 1];
     Sends(m, TunRun(m, t, before), es[|es| - 1], from, ctl) || SentIn(m, t, before, from, ctl))
  }

  /** Every control frame that the events deliver was sent by one of them before. */
  ghost predicate Resent(m: Arith, t: Tun, es: seq<Event>)
    decreases |es|
  {
    es == [] ||
    (var before, e := es[..|es| - 1], es[|es| - 1];
     Resent(m, t, before) && (e.OnControl? ==> SentIn(m, t, before, e.from, e.ctl)))
  }

  ghost predicate LogsGrow(t: Tun, u: Tun) {
    |t.ini.party.log| <= |u.ini.party.log| && |t.rsp.party.log| <= |u.rsp.party.log|
  }

  /** The events lead from `s` to `t`, delivering only what is sent meanwhile. */
  ghost predicate TunGoes(s: Tun, more: seq<Event>, t: Tun) {
    && TunRun(Unbounded, s, more) == t && ClearTunRun(s, more) && TunInv(t) && LogsGrow(s, t)
    && Resent(Unbounded, s, more) && forall e :: e in more ==> TunLater(s, e)
  }

  lemma TunLogs(t: Tun, e: Event)
    ensures LogsGrow(t, TunStep(Unbounded, t, e))
  {
  }

  lemma TunGoOn(s: Tun, more: seq<Event>, t: Tun, e: Event)
    requires TunGoes(s, more, t) && TunLater(s, e) && ClearEvent(t, e)
    requires e.OnControl? ==> SentIn(Unbounded, s, more, e.from, e.ctl)
    ensures TunGoes(s, more + [e], TunStep(Unbounded, t, e))
  {
    assert (more + [e])[..|more|] == more;
    TunStepKeeps(t, e);
    TunLogs(t, e);
  }

  /** One end goes on without reading or ending. */
  ghost predicate EndGoes(x: Stream, y: Stream) {
    && y.read == x.read && WaitSnd(y.party.cb) <= WaitSnd(x.party.cb) && y.closed == x.closed
    && y.flags.localEof == x.flags.localEof && (x.flags.ready ==> y.flags.ready)
    && (x.flags.closeAcked ==> y.flags.closeAcked) && (x.flags.remoteClose ==> y.flags.remoteClose)
  }

  ghost predicate BothGo(t: Tun, u: Tun) {
    EndGoes(t.ini, u.ini) && EndGoes(t.rsp, u.rsp)
  }

  /** One end takes data and writes it, and nothing else happens. */
  ghost predicate OnlyData(x: Stream, y: Stream) {
    y == x.(party := y.party, written := y.written)
  }

  predicate UpEnd(x: Stream) {
    x.flags.ready && !x.closed
  }

  /** The tunnel whose side `i` is `x` and whose other side is `y`. */
  function Ends(i: Side, x: Stream, y: Stream): (t: Tun)
    ensures End(t, i) == x && End(t, Other(i)) == y
  {
    if i.Initiator? then Tun(x, y) else Tun(y, x)
  }

  predicate Up(t: Tun) {
    t.ini.flags.ready && t.rsp.flags.ready && !t.ini.closed && !t.rsp.closed
  }

  // --------------------------------------------------------------------- ticks

  /** A tick at which everything is due but a keep-alive. */
  function Flushing(ch: FlushChoice): TickChoice {
    TickChoice(true, true, true, ch, true, false)
  }

  lemma TickParty(x: Stream, ch: FlushChoice, hist: seq<seq<byte>>)
    requires x.flags.ready && PartyOk(x.party, hist)
    ensures var y := Ticking(Unbounded, x, Flushing(ch));
            EndGoes(x, y) && y.party == PartyUpdate(Unbounded, x.party, true, ch)
  {
    UpdateWaits(x.party, true, ch);
  }

  lemma TickOn(s: Tun, more: seq<Event>, t: Tun, i: Side, ch: FlushChoice) returns (more': seq<Event>, u: Tun)
    requires TunGoes(s, more, t) && Up(t)
    ensures TunGoes(s, more', u) && Up(u) && BothGo(t, u)
    ensures End(u, i).party == PartyUpdate(Unbounded, End(t, i).party, true, ch) && End(u, Other(i)) == End(t, Other(i))
  {
    more' := more + [OnTick(i, Flushing(ch))];
    u := TunStep(Unbounded, t, OnTick(i, Flushing(ch)));
    TickParty(End(t, i), ch, End(t, Other(i)).party.hist);
    TunGoOn(s, more, t, OnTick(i, Flushing(ch)));
  }

  // ----------------------------------------------------------------- datagrams

  /** Draining only takes messages. */
  lemma {:induction false} DrainGains(p: Party, q: Party)
    requires PartyOk(p, q.hist) && GoodChunks(q.hist)
    ensures OnlyReceived(p.cb, Drain(Unbounded, p.cb, Healthy).cb)
    decreases |p.cb.rcvQueue| + |p.cb.rcvBuf|
  {
    if p.cb.rcvQueue != [] {
      assert p.cb.rcvQueue[0].frg == 0 && GoodChunk(p.cb.rcvQueue[0].data);
      RecvTakesOne(p.cb, BUF, q.hist);
      RecvKeeps(p, BUF, q.hist);
      RecvAnnounces(Unbounded, p.cb, BUF);
      RecvShrinks(Unbounded, p.cb, BUF);
      DrainGains(PartyRecv(Unbounded, p, BUF), q);
    }
  }

  lemma ArrivedDrained(cb: Cb, c: Cb, d: Cb, ws: seq<Wire>, una: int, wnd: int, nxt: int)
    requires Arrived(cb, c, ws, una, wnd, nxt) && ws != [] && OnlyReceived(c, d) && Grows(c, d)
    ensures Arrived(cb, d, ws, una, wnd, nxt)
  {
    assert Gains(c, d);
    if nxt <= cb.rcvNxt + RCV_WND {
      forall k | 0 <= k < |ws|
        ensures Took(d, ws[k])
      {
        TookStays(c, d, ws[k]);
      }
    }
  }

  /** The datagram comes from a flush of `q` at `una`, and finds `p` ready for it. */
  ghost predicate MayTake(p: Party, q: Party, which: nat, una: int, wnd: int) {
    && which < |q.log| && AllRecent(q.log[which], una, wnd, |q.hist|)
    && p.cb.sndNxt <= una + 192 && Harmless(p.cb, q.log[which], una)
  }

  ghost predicate HasTaken(p: Party, r: Party, q: Party, which: nat, una: int, wnd: int)
    requires which < |q.log|
  {
    && q.log[which] != [] && r.log == p.log && r.hist == p.hist && r.cb.rcvQueue == []
    && Arrived(p.cb, r.cb, q.log[which], una, wnd, |q.hist|)
  }

  /** A datagram that can be written moves nothing but data. */
  lemma DataOnly(x: Stream, ws: seq<Wire>)
    requires x.flags.ready && ProcessData(Unbounded, x.party.cb, x.flags, ws, Healthy).ok
    ensures var r := Arrive(Unbounded, x, Data(ws), Healthy); r == x.(party := r.party, written := r.written)
  {
    assert x.controls + AsSet([]) == x.controls;
  }

  /** What a datagram does to the party at the end of the tunnel that takes it. */
  lemma DataTaken(x: Stream, y: Stream, which: nat, una: int, wnd: int)
    requires Pair(x.party, y.party) && x.flags.ready && MayTake(x.party, y.party, which, una, wnd)
    ensures var r := Arrive(Unbounded, x, Data(y.party.log[which]), Healthy);
            && Clear(x.party.cb, y.party.log[which]) && HasTaken(x.party, r.party, y.party, which, una, wnd)
            && r == x.(party := r.party, written := r.written)
  {
    var p, q := x.party, y.party;
    DatagramTaken(p, q, which, una, wnd);
    InputKeeps(p, q, which);
    var p1 := PartyInput(Unbounded, p, q, which);
    DrainKeeps(p1, q, Healthy);
    DrainGains(p1, q);
    DataOnly(x, q.log[which]);
    ArrivedDrained(p.cb, p1.cb, Drain(Unbounded, p1.cb, Healthy).cb, q.log[which], una, wnd, |q.hist|);
  }

  /** Likewise for all datagrams from `from` on. */
  ghost predicate MayTakeAll(p: Party, q: Party, from: nat, una: int, wnd: int) {
    && from <= |q.log| && RecentLog(q.log, from, una, wnd, |q.hist|)
    && p.cb.sndNxt <= una + 192 && HarmlessLog(p.cb, q.log, from, una) && p.cb.rcvQueue == []
  }

  ghost predicate HasTakenAll(p: Party, r: Party, q: Party, from: nat, una: int, wnd: int) {
    && r.log == p.log && r.hist == p.hist && r.cb.rcvQueue == []
    && ArrivedAll(p.cb, r.cb, q.log, from, una, wnd, |q.hist|)
  }

  lemma TakesFirst(p: Party, q: Party, from: nat, una: int, wnd: int)
    requires MayTakeAll(p, q, from, una, wnd) && from < |q.log|
    ensures MayTake(p, q, from, una, wnd)
  {
  }

  lemma TakesOthers(p: Party, p1: Party, q: Party, from: nat, una: int, wnd: int)
    requires MayTakeAll(p, q, from, una, wnd) && from < |q.log| && HasTaken(p, p1, q, from, una, wnd)
    ensures MayTakeAll(p1, q, from + 1, una, wnd)
  {
  }

  lemma TakenBoth(p: Party, p1: Party, r: Party, q: Party, from: nat, una: int, wnd: int)
    requires from < |q.log| && HasTaken(p, p1, q, from, una, wnd) && HasTakenAll(p1, r, q, from + 1, una, wnd)
    ensures HasTakenAll(p, r, q, from, una, wnd)
  {
    ArrivedMore(p.cb, p1.cb, r.cb, q.log, from, una, wnd, |q.hist|);
  }

  lemma DataStep(i: Side, x: Stream, y: Stream, which: nat)
    requires !x.closed && which < |y.party.log|
    ensures TunStep(Unbounded, Ends(i, x, y), OnDatagram(i, Other(i), which, Healthy))
         == Ends(i, Arrive(Unbounded, x, Data(y.party.log[which]), Healthy), y)
    ensures Clear(x.party.cb, y.party.log[which]) ==>
              ClearEvent(Ends(i, x, y), OnDatagram(i, Other(i), which, Healthy))
  {
  }

  lemma DatagramOn(s: Tun, more: seq<Event>, i: Side, x: Stream, y: Stream, which: nat, una: int, wnd: int)
    returns (more': seq<Event>, x': Stream)
    requires TunGoes(s, more, Ends(i, x, y)) && UpEnd(x) && |End(s, Other(i)).party.log| <= which < |y.party.log|
    requires MayTakeAll(x.party, y.party, which, una, wnd)
    ensures TunGoes(s, more', Ends(i, x', y)) && OnlyData(x, x')
    ensures HasTaken(x.party, x'.party, y.party, which, una, wnd)
    ensures MayTakeAll(x'.party, y.party, which + 1, una, wnd)
  {
    var t, e := Ends(i, x, y), OnDatagram(i, Other(i), which, Healthy);
    TakesFirst(x.party, y.party, which, una, wnd);
    x' := Arrive(Unbounded, x, Data(y.party.log[which]), Healthy);
    DataTaken(x, y, which, una, wnd);
    TakesOthers(x.party, x'.party, y.party, which, una, wnd);
    DataStep(i, x, y, which);
    TunGoOn(s, more, t, e);
    more' := more + [e];
  }

  /** The network delivers the datagrams from `from` on, in order. */
  lemma {:induction false} TunDeliver(s: Tun, more: seq<Event>, i: Side, x: Stream, y: Stream, from: nat, una: int,
                                      wnd: int) returns (more': seq<Event>, x': Stream)
    requires TunGoes(s, more, Ends(i, x, y)) && UpEnd(x) && |End(s, Other(i)).party.log| <= from
    requires MayTakeAll(x.party, y.party, from, una, wnd)
    ensures TunGoes(s, more', Ends(i, x', y)) && OnlyData(x, x')
    ensures HasTakenAll(x.party, x'.party, y.party, from, una, wnd)
    decreases |y.party.log| - from
  {
    if from == |y.party.log| {
      NothingTaken(x.party, y.party, una, wnd);
      more', x' := more, x;
    } else {
      var more1, x1 := DatagramOn(s, more, i, x, y, from, una, wnd);
      more', x' := TunDeliver(s, more1, i, x1, y, from + 1, una, wnd);
      TakenBoth(x.party, x1.party, x'.party, y.party, from, una, wnd);
    }
  }

  lemma NothingTaken(p: Party, q: Party, una: int, wnd: int)
    requires p.cb.rcvQueue == []
    ensures HasTakenAll(p, p, q, |q.log|, una, wnd)
  {
  }

  // -------------------------------------------------------------------- rounds

  /** The sender pushes all it may, and nothing is delivered yet. */
  lemma TunAskFlush(s: Tun, more: seq<Event>, t: Tun, i: Side) returns (more': seq<Event>, u: Tun, p1: Party)
    requires TunGoes(s, more, t) && Up(t)
    ensures TunGoes(s, more', u) && Up(u) && BothGo(t, u) && End(u, Other(i)) == End(t, Other(i))
    ensures var p, r := End(t, i).party, End(u, i).party;
            && Pushed(p, r, |p1.log|) && |p.log| <= |p1.log|
            && PartyOk(p1, End(t, Other(i)).party.hist) && r == PartyUpdate(Unbounded, p1, true, Everything(p1.cb))
  {
    var p := End(t, i).party;
    PushEverything(p, End(t, Other(i)).party.hist);
    var more1, t1 := TickOn(s, more, t, i, QUIET);
    p1 := End(t1, i).party;
    more', u := TickOn(s, more1, t1, i, Everything(p1.cb));
  }

  /** Everything is pushed and arrives. */
  lemma TunAsk(s: Tun, more: seq<Event>, t: Tun, i: Side) returns (more': seq<Event>, u: Tun)
    requires TunGoes(s, more, t) && Up(t)
    ensures TunGoes(s, more', u) && Up(u) && BothGo(t, u) && Answers(End(u, i).party, End(u, Other(i)).party)
    ensures var p, r := End(t, i).party.cb, End(u, i).party.cb;
            && |r.sndQueue| <= |p.sndQueue| && (Idle(p) && p.sndQueue != [] ==> |r.sndQueue| < |p.sndQueue|)
  {
    var j := Other(i);
    var more1, t1, p1 := TunAskFlush(s, more, t, i);
    var r, q := End(t1, i).party, End(t1, j).party;
    WindowBound(q.cb, r.cb, q.hist);
    var y: Stream;
    more', y := TunDeliver(s, more1, j, End(t1, j), End(t1, i), |p1.log|, r.cb.rcvNxt, Free(r.cb));
    u := Ends(j, y, End(t1, i));
    AskDelivered(p1, r, q, End(u, j).party, r.cb.rcvNxt, Free(r.cb));
  }

  /** The answer arrives, if there is one to expect. */
  lemma TunAnswer(s: Tun, more: seq<Event>, t: Tun, i: Side) returns (more': seq<Event>, u: Tun)
    requires TunGoes(s, more, t) && Up(t) && Answers(End(t, i).party, End(t, Other(i)).party)
    ensures TunGoes(s, more', u) && Up(u) && BothGo(t, u)
    ensures End(u, i).party.cb.sndQueue == End(t, i).party.cb.sndQueue
    ensures WaitSnd(End(u, i).party.cb) == 0 || Idle(End(u, i).party.cb)
  {
    var j := Other(i);
    var p, q := End(t, i).party, End(t, j).party;
    AnswerFlush(q, p.hist);
    var more1, t1 := TickOn(s, more, t, j, QUIET);
    var x: Stream;
    more', x := TunDeliver(s, more1, i, End(t1, i), End(t1, j), |q.log|, |p.hist|, RCV_WND);
    u := Ends(i, x, End(t1, j));
  }

  /** Asking and answering in turn, until side `i` waits for nothing. */
  lemma {:induction false} TunFinish(s: Tun, more: seq<Event>, t: Tun, i: Side) returns (more': seq<Event>, u: Tun)
    requires TunGoes(s, more, t) && Up(t)
    ensures TunGoes(s, more', u) && Up(u) && BothGo(t, u) && WaitSnd(End(u, i).party.cb) == 0
    decreases |End(t, i).party.cb.sndQueue|, if Idle(End(t, i).party.cb) then 0 else 1
  {
    if WaitSnd(End(t, i).party.cb) == 0 {
      return more, t;
    }
    var more1, t1 := TunAsk(s, more, t, i);
    var more2, t2 := TunAnswer(s, more1, t1, i);
    if WaitSnd(End(t2, i).party.cb) == 0 {
      return more2, t2;
    }
    more', u := TunFinish(s, more2, t2, i);
  }

  // -------------------------------------------------------------------- reading

  /** One end reads `data`, and end-of-file if `eof`. */
  ghost predicate Reads(x: Stream, y: Stream, data: seq<byte>, eof: bool) {
    && y.read == x.read + data && y.closed == x.closed && y.flags.localEof == (x.flags.localEof || eof)
    && (x.flags.ready ==> y.flags.ready)
    && (x.flags.closeAcked ==> y.flags.closeAcked) && (x.flags.remoteClose ==> y.flags.remoteClose)
  }

  lemma PumpChunk(x: Stream, data: seq<byte>)
    requires CanSendData(x.party.cb, x.flags) && 0 < |data| <= BUF && GoodChunks(x.party.cb.sndQueue)
    ensures Pump(x, Chunk(data)) == x.(party := PartySend(x.party, data), read := x.read + data)
  {
    SendAccepts(x.party.cb, data);
    assert SegmentCount(|data|) <= 3;
  }

  lemma ReadOn(s: Tun, more: seq<Event>, i: Side, x: Stream, y: Stream, r: Read)
    requires TunGoes(s, more, Ends(i, x, y)) && UpEnd(x) && (r.Eof? || r.Chunk?)
    ensures TunGoes(s, more + [OnRead(i, r)], Ends(i, Pump(x, r), y))
  {
    TunGoOn(s, more, Ends(i, x, y), OnRead(i, r));
  }

  /** Side `i` waits until nothing is left to send, then reads once. */
  lemma ReadOnce(s: Tun, more: seq<Event>, t: Tun, i: Side, r: Read) returns (more': seq<Event>, u: Tun)
    requires TunGoes(s, more, t) && Up(t) && !End(t, i).flags.localEof
    requires r.Eof? || (r.Chunk? && 0 < |r.data| <= BUF)
    ensures TunGoes(s, more', u) && Up(u) && EndGoes(End(t, Other(i)), End(u, Other(i)))
    ensures Reads(End(t, i), End(u, i), if r.Chunk? then r.data else [], r.Eof?)
  {
    var more1, t1 := TunFinish(s, more, t, i);
    var x, y := End(t1, i), End(t1, Other(i));
    if r.Chunk? {
      PumpChunk(x, r.data);
    }
    ReadOn(s, more1, i, x, y, r);
    more', u := more1 + [OnRead(i, r)], Ends(i, Pump(x, r), y);
  }

  lemma ReadsOn(x: Stream, y: Stream, z: Stream, first: seq<byte>, rest: seq<byte>)
    requires Reads(x, y, first, false) && Reads(y, z, rest, false)
    ensures Reads(x, z, first + rest, false)
  {
    assert x.read + first + rest == x.read + (first + rest);
  }

  lemma {:induction false} ReadAll(s: Tun, more: seq<Event>, t: Tun, i: Side, data: seq<byte>)
    returns (more': seq<Event>, u: Tun)
    requires TunGoes(s, more, t) && Up(t) && (data != [] ==> !End(t, i).flags.localEof)
    ensures TunGoes(s, more', u) && Up(u) && EndGoes(End(t, Other(i)), End(u, Other(i)))
    ensures Reads(End(t, i), End(u, i), data, false)
    decreases |data|
  {
    if data == [] {
      more', u := more, t;
    } else {
      var n := Min(|data|, BUF);
      var first, rest := data[..n], data[n..];
      assert first + rest == data;
      var more1, t1 := ReadOnce(s, more, t, i, Chunk(first));
      more', u := ReadAll(s, more1, t1, i, rest);
      ReadsOn(End(t, i), End(t1, i), End(u, i), first, rest);
    }
  }

  /** Side `i` reads `data` and then meets end-of-file. */
  lemma ReadToEnd(s: Tun, more: seq<Event>, t: Tun, i: Side, data: seq<byte>) returns (more': seq<Event>, u: Tun)
    requires TunGoes(s, more, t) && Up(t) && (data != [] ==> !End(t, i).flags.localEof)
    ensures TunGoes(s, more', u) && Up(u) && EndGoes(End(t, Other(i)), End(u, Other(i)))
    ensures Reads(End(t, i), End(u, i), data, true)
  {
    more', u := ReadAll(s, more, t, i, data);
    if !End(u, i).flags.localEof {
      var t1 := u;
      more', u := ReadOnce(s, more', t1, i, Eof);
    }
  }

  // -------------------------------------------------------------------- closing

  lemma TickIs(i: Side, x: Stream, y: Stream, tick: TickChoice)
    requires !x.closed
    ensures TunStep(Unbounded, Ends(i, x, y), OnTick(i, tick)) == Ends(i, Ticking(Unbounded, x, tick), y)
  {
  }

  lemma ControlIs(i: Side, x: Stream, y: Stream, ctl: Control)
    requires !x.closed && ctl in y.controls
    ensures TunStep(Unbounded, Ends(i, x, y), OnControl(i, Other(i), ctl, Healthy))
         == Ends(i, Arrive(Unbounded, x, Ctl(ctl), Healthy), y)
  {
  }

  lemma SentLast(s: Tun, more: seq<Event>, e: Event, from: Side, ctl: Control)
    requires Sends(Unbounded, TunRun(Unbounded, s, more), e, from, ctl)
    ensures SentIn(Unbounded, s, more + [e], from, ctl)
  {
    assert (more + [e])[..|more|] == more;
  }

  /** A tick sends CLOSE when the stream has ended, nothing waits and no CLOSE_ACK came. */
  lemma CloseOn(s: Tun, more: seq<Event>, i: Side, x: Stream, y: Stream) returns (more': seq<Event>, x': Stream)
    requires TunGoes(s, more, Ends(i, x, y)) && UpEnd(x) && UpEnd(y)
    requires x.flags.localEof && !x.flags.closeAcked && WaitSnd(x.party.cb) == 0
    ensures TunGoes(s, more', Ends(i, x', y)) && UpEnd(x') && EndGoes(x, x')
    ensures Close in x'.controls && SentIn(Unbounded, s, more', i, Close)
  {
    var e := OnTick(i, Flushing(QUIET));
    x' := Ticking(Unbounded, x, Flushing(QUIET));
    TickParty(x, QUIET, y.party.hist);
    CloseSent(x);
    TickIs(i, x, y, Flushing(QUIET));
    SentLast(s, more, e, i, Close);
    TunGoOn(s, more, Ends(i, x, y), e);
    more' := more + [e];
  }

  lemma CloseSent(x: Stream)
    requires UpEnd(x) && x.flags.localEof && !x.flags.closeAcked && WaitSnd(x.party.cb) == 0
    ensures Close in Tick(Unbounded, x.party.cb, x.flags, Flushing(QUIET)).sent
    ensures Close in Ticking(Unbounded, x, Flushing(QUIET)).controls
  {
    AdmitExact(Updated(x.party.cb), EffectiveWindow(Updated(x.party.cb), QUIET));
    assert Close in AsSet(Tick(Unbounded, x.party.cb, x.flags, Flushing(QUIET)).sent);
  }

  /** What CLOSE does to a ready end. */
  lemma CloseTaken(x: Stream, y: Stream)
    requires UpEnd(x) && Pair(x.party, y.party)
    ensures var r := Arrive(Unbounded, x, Ctl(Close), Healthy);
            && EndGoes(x, r) && r.flags.remoteClose && CloseAck in r.controls
            && CloseAck in Process(Unbounded, x.party.cb, x.flags, Ctl(Close), Healthy).sent
  {
    DrainKeeps(x.party, y.party, Healthy);
    assert CloseAck in AsSet([CloseAck]);
  }

  lemma CloseArrives(s: Tun, more: seq<Event>, i: Side, x: Stream, y: Stream) returns (more': seq<Event>, x': Stream)
    requires TunGoes(s, more, Ends(i, x, y)) && UpEnd(x) && Close in y.controls
    requires SentIn(Unbounded, s, more, Other(i), Close)
    ensures TunGoes(s, more', Ends(i, x', y)) && EndGoes(x, x') && x'.flags.remoteClose
    ensures CloseAck in x'.controls && SentIn(Unbounded, s, more', i, CloseAck)
  {
    var e := OnControl(i, Other(i), Close, Healthy);
    x' := Arrive(Unbounded, x, Ctl(Close), Healthy);
    CloseTaken(x, y);
    ControlIs(i, x, y, Close);
    SentLast(s, more, e, i, CloseAck);
    TunGoOn(s, more, Ends(i, x, y), e);
    more' := more + [e];
  }

  lemma AckArrives(s: Tun, more: seq<Event>, i: Side, x: Stream, y: Stream) returns (more': seq<Event>, x': Stream)
    requires TunGoes(s, more, Ends(i, x, y)) && UpEnd(x) && CloseAck in y.controls
    requires SentIn(Unbounded, s, more, Other(i), CloseAck)
    ensures TunGoes(s, more', Ends(i, x', y)) && EndGoes(x, x') && x'.flags.closeAcked
  {
    var e := OnControl(i, Other(i), CloseAck, Healthy);
    x' := Arrive(Unbounded, x, Ctl(CloseAck), Healthy);
    AckTaken(x);
    ControlIs(i, x, y, CloseAck);
    TunGoOn(s, more, Ends(i, x, y), e);
    more' := more + [e];
  }

  lemma AckTaken(x: Stream)
    requires UpEnd(x)
    ensures var r := Arrive(Unbounded, x, Ctl(CloseAck), Healthy); EndGoes(x, r) && r.flags.closeAcked
  {
  }

  /** Side `i`, having read to the end and waiting for nothing, closes its direction. */
  lemma CloseOneWay(s: Tun, more: seq<Event>, t: Tun, i: Side) returns (more': seq<Event>, u: Tun)
    requires TunGoes(s, more, t) && Up(t) && End(t, i).flags.localEof && WaitSnd(End(t, i).party.cb) == 0
    ensures TunGoes(s, more', u) && Up(u) && BothGo(t, u)
    ensures End(u, i).flags.closeAcked && End(u, Other(i)).flags.remoteClose
  {
    var x, y := End(t, i), End(t, Other(i));
    if x.flags.closeAcked {
      return more, t;
    }
    var more1, x1 := CloseOn(s, more, i, x, y);
    var more2, y2 := CloseArrives(s, more1, Other(i), y, x1);
    var more3, x3 := AckArrives(s, more2, i, x1, y2);
    more', u := more3, Ends(i, x3, y2);
  }

  /** Both ends read to the end of their input, deliver everything and close. */
  lemma FinishTunnel(s: Tun, more: seq<Event>, t: Tun, a: seq<byte>, b: seq<byte>) returns (more': seq<Event>, u: Tun)
    requires TunGoes(s, more, t) && Up(t)
    requires (a != [] ==> !t.ini.flags.localEof) && (b != [] ==> !t.rsp.flags.localEof)
    ensures TunGoes(s, more', u) && u.ini.read == t.ini.read + a && u.rsp.read == t.rsp.read + b
    ensures IsDone(u.ini.party.cb, u.ini.flags) && IsDone(u.rsp.party.cb, u.rsp.flags)
  {
    var more1, t1 := ReadToEnd(s, more, t, Initiator, a);
    var more2, t2 := ReadToEnd(s, more1, t1, Responder, b);
    var more3, t3 := TunFinish(s, more2, t2, Initiator);
    var more4, t4 := TunFinish(s, more3, t3, Responder);
    var more5, t5 := CloseOneWay(s, more4, t4, Initiator);
    more', u := CloseOneWay(s, more5, t5, Responder);
  }

  // ------------------------------------------------------------------ handshake

  /** Who is ready has been answered. */
  ghost predicate Greets(t: Tun) {
    (HelloAck in t.rsp.controls ==> t.rsp.flags.ready) && (t.ini.flags.ready ==> HelloAck in t.rsp.controls)
  }

  /** The same readiness, and no new HELLO_ACK. */
  ghost predicate SameGreeting(x: Stream, r: Stream) {
    r.flags.ready == x.flags.ready && (HelloAck in r.controls <==> HelloAck in x.controls)
  }

  lemma TickGreets(x: Stream, tick: TickChoice)
    ensures SameGreeting(x, Ticking(Unbounded, x, tick))
  {
    var r := Tick(Unbounded, x.party.cb, x.flags, tick);
    assert HelloAck !in r.sent && r.flags.ready == x.flags.ready;
    assert HelloAck !in AsSet(r.sent);
  }

  lemma PumpGreets(x: Stream, r: Read)
    ensures SameGreeting(x, Pump(x, r)) && SameGreeting(x, Abort(x))
  {
  }

  lemma ArriveGreets(x: Stream, msg: Message, sink: Sink)
    ensures var r := Arrive(Unbounded, x, msg, sink);
            && (x.flags.ready ==> r.flags.ready)
            && (r.flags.ready && !x.flags.ready ==>
                  msg.Ctl? && if x.flags.initiator then msg.ctl == HelloAck else msg.ctl == Hello)
            && (HelloAck in r.controls && HelloAck !in x.controls ==> r.flags.ready && !x.flags.initiator)
            && (HelloAck in x.controls ==> HelloAck in r.controls)
  {
    var o := Process(Unbounded, x.party.cb, x.flags, msg, sink);
    if msg.Data? {
      DataGreets(x.party.cb, x.flags, msg.ws, sink);
    } else {
      ControlGreets(x.party.cb, x.flags, msg.ctl, sink);
    }
    ApplyGreets(x, o);
    assert Arrive(Unbounded, x, msg, sink) == Apply(x, o);
  }

  lemma DataGreets(cb: Cb, fl: Flags, ws: seq<Wire>, sink: Sink)
    ensures var o := Process(Unbounded, cb, fl, Data(ws), sink); o.flags == fl && o.sent == []
  {
  }

  lemma ControlGreets(cb: Cb, fl: Flags, ctl: Control, sink: Sink)
    ensures var o := Process(Unbounded, cb, fl, Ctl(ctl), sink);
            && (o.flags.ready <==> fl.ready || ctl == if fl.initiator then HelloAck else Hello)
            && (HelloAck in o.sent <==> ctl == Hello && !fl.initiator)
  {
    if ctl == Close && fl.ready {
      CloseGreets(cb, fl, sink);
    } else {
      FlagsGreets(cb, fl, ctl);
    }
  }

  lemma CloseGreets(cb: Cb, fl: Flags, sink: Sink)
    ensures var o := ProcessClose(Unbounded, cb, fl, sink); o.flags.ready == fl.ready && HelloAck !in o.sent
  {
  }

  lemma FlagsGreets(cb: Cb, fl: Flags, ctl: Control)
    ensures var o := ProcessFlags(cb, fl, ctl);
            && (o.flags.ready <==> fl.ready || ctl == if fl.initiator then HelloAck else Hello)
            && (HelloAck in o.sent <==> ctl == Hello && !fl.initiator)
  {
    if ctl == Hello {
      assert ProcessFlags(cb, fl, ctl).sent == if fl.initiator then [] else [HelloAck];
    } else {
      assert ProcessFlags(cb, fl, ctl).sent == [];
    }
  }

  lemma ApplyGreets(x: Stream, o: Outcome)
    ensures var r := Apply(x, o);
            r.flags.ready == o.flags.ready && (HelloAck in r.controls <==> HelloAck in x.controls || HelloAck in o.sent)
  {
    assert HelloAck in AsSet(o.sent) <==> HelloAck in o.sent;
  }

  lemma GreetsKeeps(t: Tun, e: Event)
    requires TunInv(t) && Greets(t)
    ensures Greets(TunStep(Unbounded, t, e))
  {
    var x := End(t, e.side);
    if !x.closed {
      match e
      case OnDatagram(i, from, which, sink) =>
        if from != i && which < |End(t, from).party.log| {
          ArriveGreets(x, Data(End(t, from).party.log[which]), sink);
        }
      case OnControl(i, from, ctl, sink) => ArriveGreets(x, Ctl(ctl), sink);
      case OnTick(i, tick) => TickGreets(x, tick);
      case OnRead(i, r) => PumpGreets(x, r);
      case OnAbort(i) => PumpGreets(x, WouldBlock);
      case OnDone(i) =>
    }
  }

  lemma {:induction false} RunGreets(conv: u32, es: seq<Event>)
    ensures Greets(TunRun(Unbounded, NewTunnel(conv), es))
    decreases |es|
  {
    if es != [] {
      RunGreets(conv, es[..|es| - 1]);
      TunRunKeeps(conv, es[..|es| - 1]);
      GreetsKeeps(TunRun(Unbounded, NewTunnel(conv), es[..|es| - 1]), es[|es| - 1]);
    }
  }

  lemma HelloOn(s: Tun, more: seq<Event>, x: Stream, y: Stream) returns (more': seq<Event>, x': Stream)
    requires TunGoes(s, more, Ends(Initiator, x, y)) && !x.closed && !x.flags.ready
    ensures TunGoes(s, more', Ends(Initiator, x', y)) && EndGoes(x, x')
    ensures Hello in x'.controls && SentIn(Unbounded, s, more', Initiator, Hello)
  {
    var e := OnTick(Initiator, Flushing(QUIET));
    x' := Ticking(Unbounded, x, Flushing(QUIET));
    assert Hello in AsSet(Tick(Unbounded, x.party.cb, x.flags, Flushing(QUIET)).sent);
    TickIs(Initiator, x, y, Flushing(QUIET));
    SentLast(s, more, e, Initiator, Hello);
    TunGoOn(s, more, Ends(Initiator, x, y), e);
    more' := more + [e];
  }

  lemma HelloTaken(x: Stream)
    requires !x.closed && !x.flags.initiator
    ensures var r := Arrive(Unbounded, x, Ctl(Hello), Healthy);
            && EndGoes(x, r) && r.flags.ready && HelloAck in r.controls
            && HelloAck in Process(Unbounded, x.party.cb, x.flags, Ctl(Hello), Healthy).sent
  {
    assert HelloAck in AsSet([HelloAck]);
  }

  lemma HelloArrives(s: Tun, more: seq<Event>, x: Stream, y: Stream) returns (more': seq<Event>, x': Stream)
    requires TunGoes(s, more, Ends(Responder, x, y)) && !x.closed && Hello in y.controls
    requires SentIn(Unbounded, s, more, Initiator, Hello)
    ensures TunGoes(s, more', Ends(Responder, x', y)) && EndGoes(x, x') && x'.flags.ready
    ensures HelloAck in x'.controls && SentIn(Unbounded, s, more', Responder, HelloAck)
  {
    var e := OnControl(Responder, Initiator, Hello, Healthy);
    x' := Arrive(Unbounded, x, Ctl(Hello), Healthy);
    HelloTaken(x);
    ControlIs(Responder, x, y, Hello);
    SentLast(s, more, e, Responder, HelloAck);
    TunGoOn(s, more, Ends(Responder, x, y), e);
    more' := more + [e];
  }

  lemma HelloAckArrives(s: Tun, more: seq<Event>, x: Stream, y: Stream) returns (more': seq<Event>, x': Stream)
    requires TunGoes(s, more, Ends(Initiator, x, y)) && !x.closed && HelloAck in y.controls
    requires SentIn(Unbounded, s, more, Responder, HelloAck)
    ensures TunGoes(s, more', Ends(Initiator, x', y)) && EndGoes(x, x') && x'.flags.ready
  {
    var e := OnControl(Initiator, Responder, HelloAck, Healthy);
    x' := Arrive(Unbounded, x, Ctl(HelloAck), Healthy);
    ControlIs(Initiator, x, y, HelloAck);
    TunGoOn(s, more, Ends(Initiator, x, y), e);
    more' := more + [e];
  }

  /** The initiator greets, again if need be, until both sides are ready. */
  lemma Handshake(t: Tun) returns (more: seq<Event>, u: Tun)
    requires TunInv(t) && Greets(t) && !t.ini.closed && !t.rsp.closed
    ensures TunGoes(t, more, u) && Up(u) && BothGo(t, u)
  {
    if t.ini.flags.ready {
      return [], t;
    }
    var more1, x1 := HelloOn(t, [], t.ini, t.rsp);
    var more2, y2 := HelloArrives(t, more1, t.rsp, x1);
    var more3, x3 := HelloAckArrives(t, more2, x1, y2);
    more, u := more3, Tun(x3, y2);
  }

  // ------------------------------------------------------------- control frames

  /** Before the handshake only the greeting meant for the own role has an effect. */
  lemma IgnoredUntilReady(m: Arith, cb: Cb, fl: Flags, msg: Message, sink: Sink)
    requires !fl.ready && !(msg.Ctl? && msg.ctl == (if fl.initiator then HelloAck else Hello))
    ensures Process(m, cb, fl, msg, sink) == Outcome(cb, fl, [], [], [], false, true)
  {
  }

  /** A control frame that arrives once more changes no flag, and only repeats the reply, if there is one. */
  lemma RepeatsChangeNothing(m: Arith, cb: Cb, fl: Flags, ctl: Control)
    requires cb.rcvQueue == []
    ensures var once := Process(m, cb, fl, Ctl(ctl), Healthy);
            var twice := Process(m, once.cb, once.flags, Ctl(ctl), Healthy);
            && twice == once.(shutdown := false)
            && once.sent == (if ctl == Hello && !fl.initiator then [HelloAck]
                             else if ctl == Close && fl.ready then [CloseAck] else [])
            && once.ok == !(ctl == Reset && fl.ready) && once.cb == cb && once.received == [] && once.written == []
  {
    DrainNothing(m, cb, Healthy);
  }

  /** What a tick sends: the greeting while it is unanswered, the close while it is unacknowledged and nothing waits,
      each first at once and then when due, and keep-alives when due. */
  lemma TickSends(m: Arith, cb: Cb, fl: Flags, t: TickChoice)
    ensures var r := Tick(m, cb, fl, t);
            && (Hello in r.sent <==> fl.initiator && !fl.ready && (!fl.helloSent || t.helloDue))
            && (Close in r.sent <==> fl.ready && fl.localEof && !fl.closeAcked && WaitSnd(r.cb) == 0
                                     && (!fl.closeSent || t.closeDue))
            && (KeepAlive in r.sent <==> fl.ready && t.keepAliveDue)
            && (HelloAck !in r.sent && CloseAck !in r.sent && Reset !in r.sent)
  {
  }

  /** When one end of an open tunnel fails, or its socket does, it tells the other, which ends as well and does not
      answer. */
  lemma FailureEndsBoth(t: Tun, i: Side)
    requires Up(t) && !End(t, i).flags.resetSent && !End(t, i).flags.resetReceived
    requires Reset !in End(t, Other(i)).controls
    ensures var u := TunStep(Unbounded, t, OnAbort(i));
            var w := TunStep(Unbounded, u, OnControl(Other(i), i, Reset, Healthy));
            && (CanSendData(End(t, i).party.cb, End(t, i).flags) ==> TunStep(Unbounded, t, OnRead(i, Error)) == u)
            && w.ini.closed && w.rsp.closed && Reset in End(u, i).controls && Reset !in End(w, Other(i)).controls
  {
    var y := End(t, Other(i));
    assert y.controls + AsSet([]) == y.controls;
  }

  // ------------------------------------------------------------------- theorems

  lemma SendsShadow(t: Tun, e: Event, from: Side, ctl: Control)
    requires TunInv(t) && Sends(Unbounded, t, e, from, ctl)
    ensures Sends(Wrapping, TunShadow(t), e, from, ctl)
  {
    var s := End(t, from);
    if e.OnTick? {
      TickShadow(s.party.cb, s.flags, e.tick, s.party.hist);
    } else {
      CloseShadow(s.party.cb, s.flags, e.sink, End(t, Other(from)).party.hist);
      FlagsShadow(s.party.cb, s.flags, e.ctl);
    }
  }

  lemma {:induction false} RefinesFrom(t: Tun, es: seq<Event>)
    requires TunInv(t) && ClearTunRun(t, es)
    ensures TunRun(Wrapping, TunShadow(t), es) == TunShadow(TunRun(Unbounded, t, es))
    ensures TunInv(TunRun(Unbounded, t, es))
    decreases |es|
  {
    if es != [] {
      var before, e := es[..|es| - 1], es[|es| - 1];
      RefinesFrom(t, before);
      TunStepKeeps(TunRun(Unbounded, t, before), e);
      TunStepShadow(TunRun(Unbounded, t, before), e);
    }
  }

  lemma {:induction false} SentShadow(t: Tun, es: seq<Event>, from: Side, ctl: Control)
    requires TunInv(t) && ClearTunRun(t, es) && SentIn(Unbounded, t, es, from, ctl)
    ensures SentIn(Wrapping, TunShadow(t), es, from, ctl)
    decreases |es|
  {
    var before, e := es[..|es| - 1], es[|es| - 1];
    RefinesFrom(t, before);
    if Sends(Unbounded, TunRun(Unbounded, t, before), e, from, ctl) {
      SendsShadow(TunRun(Unbounded, t, before), e, from, ctl);
    } else {
      SentShadow(t, before, from, ctl);
    }
  }

  lemma {:induction false} ResentShadow(t: Tun, es: seq<Event>)
    requires TunInv(t) && ClearTunRun(t, es) && Resent(Unbounded, t, es)
    ensures Resent(Wrapping, TunShadow(t), es)
    decreases |es|
  {
    if es != [] {
      var before, e := es[..|es| - 1], es[|es| - 1];
      ResentShadow(t, before);
      if e.OnControl? {
        SentShadow(t, before, e.from, e.ctl);
      }
    }
  }

  lemma {:induction false} TunAppend(t: Tun, es: seq<Event>, more: seq<Event>)
    requires ClearTunRun(t, es) && ClearTunRun(TunRun(Unbounded, t, es), more)
    ensures ClearTunRun(t, es + more)
    ensures forall m :: TunRun(m, t, es + more) == TunRun(m, TunRun(m, t, es), more)
    decreases |more|
  {
    if more == [] {
      assert es + more == es;
    } else {
      assert (es + more)[..|es + more| - 1] == es + more[..|more| - 1];
      TunAppend(t, es, more[..|more| - 1]);
    }
  }

  /** Both ends of the tunnel count as done. */
  predicate BothDone(t: Tun) {
    IsDone(t.ini.party.cb, t.ini.flags) && IsDone(t.rsp.party.cb, t.rsp.flags)
  }

  /** From every state that a clear run reaches with both ends open, whatever the network lost, there is a clear way on
      in which the two sides read any further input, and which ends with both sides done.  Nothing is delivered on the
      way that was not sent on it. */
  lemma AlwaysFinishes(conv: u32, es: seq<Event>, a: seq<byte>, b: seq<byte>) returns (more: seq<Event>)
    requires ClearTunRun(NewTunnel(conv), es)
    requires var t := After(conv, es);
             && !t.ini.closed && !t.rsp.closed
             && (a != [] ==> !t.ini.flags.localEof) && (b != [] ==> !t.rsp.flags.localEof)
    ensures ClearTunRun(NewTunnel(conv), es + more)
    ensures var t, u := After(conv, es), After(conv, es + more);
            && (forall e :: e in more ==> TunLater(t, e)) && Resent(Wrapping, t, more)
            && u.ini.read == t.ini.read + a && u.rsp.read == t.rsp.read + b && BothDone(u)
  {
    AfterKnown(conv, es);
    RunGreets(conv, es);
    var t := TunRun(Unbounded, NewTunnel(conv), es);
    var more1, t1 := Handshake(t);
    var u: Tun;
    more, u := FinishTunnel(t, more1, t1, a, b);
    TunAppend(NewTunnel(conv), es, more);
    RefinesFrom(t, more);
    ResentShadow(t, more);
    LaterShadow(t, more);
  }

  lemma LaterShadow(t: Tun, more: seq<Event>)
    requires forall e :: e in more ==> TunLater(t, e)
    ensures forall e :: e in more ==> TunLater(TunShadow(t), e)
  {
    forall e | e in more
      ensures TunLater(TunShadow(t), e)
    {
      assert TunLater(t, e);
    }
  }

  /** For any two inputs there is a clear run that carries each whole to the other side and ends with both done. */
  lemma Carries(conv: u32, a: seq<byte>, b: seq<byte>) returns (es: seq<Event>)
    ensures ClearTunRun(NewTunnel(conv), es)
    ensures var t := After(conv, es);
            && BothDone(t) && t.ini.read == a && t.rsp.read == b && t.rsp.written == a && t.ini.written == b
            && t.ini.shutdown && t.rsp.shutdown
  {
    es := AlwaysFinishes(conv, [], a, b);
    assert [] + es == es;
    assert [] + a == a && [] + b == b;
    DoneMeansDelivered(conv, es, Initiator);
  }
}
