/** No reachable state of KCP is stuck: even if the network loses everything sent so far, the two sides can go on so
    that all accepted bytes are delivered and nothing is left waiting. */
module KcpRecovery {
  import opened SerialNumbers
  import opened Bytes
  import opened KcpModel
  import opened KcpWire
  import opened KcpSystem
  import opened KcpInvariant
  import opened KcpRefinement
  import opened KcpEffects

  // ------------------------------------------------------ how a run continues

  /** The action accepts no new bytes and delivers no datagram sent before `s`. */
  predicate Later(s: Sys, a: Action) {
    !a.DoSend? && (a.DoInput? ==> a.which >= |Get(s, Other(a.side)).log|)
  }

  /** What one party does without accepting bytes. */
  ghost predicate PartyGoes(p: Party, q: Party) {
    q.accepted == p.accepted && |p.log| <= |q.log| && WaitSnd(q.cb) <= WaitSnd(p.cb)
  }

  /** The actions lead from `s` to `t`, delivering only what is sent meanwhile. */
  ghost predicate Goes(s: Sys, more: seq<Action>, t: Sys) {
    && Run(Unbounded, s, more) == t && ClearRun(s, more) && Inv(t)
    && (forall a :: a in more ==> Later(s, a))
    && PartyGoes(s.ini, t.ini) && PartyGoes(s.rsp, t.rsp)
  }

  lemma GoesNowhere(s: Sys)
    requires Inv(s)
    ensures Goes(s, [], s)
  {
  }

  lemma RecvGoes(p: Party, len: int)
    ensures PartyGoes(p, PartyRecv(Unbounded, p, len))
  {
    MoveReadyFrame(Unbounded, if len < 0 then p.cb else p.cb.(rcvQueue := p.cb.rcvQueue[MessageLen(p.cb.rcvQueue)..]));
  }

  lemma UpdateGoes(p: Party, due: bool, ch: FlushChoice)
    ensures PartyGoes(p, PartyUpdate(Unbounded, p, due, ch))
  {
    var ready := p.cb.(updated := true);
    AdmitExact(ready, EffectiveWindow(ready, ch));
  }

  lemma StepGoes(s: Sys, a: Action)
    requires Inv(s) && !a.DoSend?
    ensures var t := Step(Unbounded, s, a); Inv(t) && PartyGoes(s.ini, t.ini) && PartyGoes(s.rsp, t.rsp)
  {
    StepKeeps(s, a);
    var p, q := Get(s, a.side), Get(s, Other(a.side));
    match a
    case DoRecv(i, len) => RecvGoes(p, len);
    case DoUpdate(i, due, ch) => UpdateGoes(p, due, ch);
    case DoInput(i, which) =>
      if which < |q.log| {
        InputKeeps(p, q, which);
      }
    case DoSend(i, data) =>
  }

  lemma GoOn(s: Sys, more: seq<Action>, t: Sys, a: Action)
    requires Goes(s, more, t) && Later(s, a) && ClearAction(t, a)
    ensures Goes(s, more + [a], Step(Unbounded, t, a))
  {
    assert (more + [a])[..|more|] == more;
    StepGoes(t, a);
  }

  // ------------------------------------------------------------ taking messages

  /** The receiving half of a control block changed, and its wish to announce the window. */
  ghost predicate OnlyReceived(c: Cb, d: Cb) {
    d == c.(rcvBuf := d.rcvBuf, rcvQueue := d.rcvQueue, rcvNxt := d.rcvNxt, tell := d.tell) && (c.tell ==> d.tell)
  }

  lemma RecvOne(p: Party, peerHist: seq<seq<byte>>)
    requires PartyOk(p, peerHist) && p.cb.rcvQueue != [] && GoodChunks(peerHist)
    ensures var q := PartyRecv(Unbounded, p, MSS);
            && OnlyReceived(p.cb, q.cb) && q == p.(cb := q.cb, delivered := q.delivered) && Grows(p.cb, q.cb)
            && |q.cb.rcvQueue| + |q.cb.rcvBuf| < |p.cb.rcvQueue| + |p.cb.rcvBuf|
  {
    assert GoodChunk(p.cb.rcvQueue[0].data);
    RecvTakesOne(p.cb, MSS, peerHist);
    RecvShrinks(Unbounded, p.cb, MSS);
    RecvAnnounces(Unbounded, p.cb, MSS);
  }

  /** The application takes messages until none is left. */
  lemma {:induction false} TakeAll(s: Sys, more: seq<Action>, t: Sys, i: Side) returns (more': seq<Action>, u: Sys)
    requires Goes(s, more, t)
    ensures Goes(s, more', u) && Get(u, Other(i)) == Get(t, Other(i))
    ensures var p, q := Get(t, i), Get(u, i);
            && q.cb.rcvQueue == [] && OnlyReceived(p.cb, q.cb) && Grows(p.cb, q.cb)
            && q == p.(cb := q.cb, delivered := q.delivered)
    decreases |Get(t, i).cb.rcvQueue| + |Get(t, i).cb.rcvBuf|
  {
    var p := Get(t, i);
    if p.cb.rcvQueue == [] {
      more', u := more, t;
    } else {
      var a := DoRecv(i, MSS);
      RecvOne(p, Get(t, Other(i)).hist);
      GoOn(s, more, t, a);
      more', u := TakeAll(s, more + [a], Step(Unbounded, t, a), i);
    }
  }

  // -------------------------------------------------------- datagrams just sent

  /** A segment of a flush by a party that has numbered `nxt` payloads and expects number `una`. */
  ghost predicate Recent(w: Wire, una: int, wnd: int, nxt: int) {
    w.una == una && w.wnd == wnd && (w.cmd == 81 ==> nxt - SND_WND <= w.sn < nxt)
  }

  ghost predicate AllRecent(ws: seq<Wire>, una: int, wnd: int, nxt: int) {
    forall k :: 0 <= k < |ws| ==> Recent(ws[k], una, wnd, nxt)
  }

  ghost predicate NoAcks(ws: seq<Wire>) {
    forall k :: 0 <= k < |ws| ==> ws[k].cmd != 82
  }

  /** Single acknowledgements do no harm: the cumulative one covers everything. */
  ghost predicate Harmless(cb: Cb, ws: seq<Wire>, una: int) {
    una == cb.sndNxt || NoAcks(ws)
  }

  lemma RecentClear(cb: Cb, w: Wire, wnd: int, nxt: int, hist: seq<seq<byte>>)
    requires SenderOk(cb, hist) && Recent(w, w.una, wnd, nxt) && Harmless(cb, [w], w.una)
    requires cb.sndNxt <= w.una + 192 && cb.rcvNxt <= nxt
    ensures SegClear(cb, w)
  {
    if w.cmd == CMD_ACK {
      assert [w][0] == w;
      DropsAll(cb.sndBuf, w.una);
    }
  }

  lemma {:induction false} DropsAll(buf: seq<OutSeg>, una: int)
    requires forall i :: 0 <= i < |buf| ==> buf[i].sn < una
    ensures DropBelow(Unbounded, buf, una) == []
  {
    if buf != [] {
      DropsAll(buf[1..], una);
    }
  }

  /** A cumulative acknowledgement of everything empties the send buffer. */
  lemma EverythingLeaves(cb: Cb, w: Wire)
    requires forall i :: 0 <= i < |cb.sndBuf| ==> cb.sndBuf[i].sn < w.una
    ensures InputSeg(Unbounded, cb, w).sndBuf == []
  {
    DropsAll(cb.sndBuf, w.una);
    PushFrame(Unbounded, ShrinkBuf(ParseUna(Unbounded, cb.(rmtWnd := w.wnd), w.una)), w);
  }

  /** The receiver has what the segment brings. */
  ghost predicate Took(cb: Cb, w: Wire) {
    (w.cmd == 81 ==> Held(cb, w.sn) && cb.acks != []) && (w.cmd == 83 ==> cb.tell)
  }

  ghost predicate Gains(c: Cb, d: Cb) {
    Grows(c, d) && |c.acks| <= |d.acks| && (c.tell ==> d.tell)
  }

  lemma TookStays(c: Cb, d: Cb, w: Wire)
    requires Took(c, w) && Gains(c, d)
    ensures Took(d, w)
  {
  }

  lemma SegTaken(cb: Cb, w: Wire, peerHist: seq<seq<byte>>)
    requires ReceiverOk(cb, peerHist)
    requires w.cmd == 81 ==> 0 <= w.sn < |peerHist| && w.data == peerHist[w.sn] && w.frg == 0
    ensures w.cmd == 81 ==> w.sn < cb.rcvNxt + RCV_WND ==> Took(InputSeg(Unbounded, cb, w), w)
    ensures w.cmd != 81 ==> Took(InputSeg(Unbounded, cb, w), w)
    ensures |cb.acks| <= |InputSeg(Unbounded, cb, w).acks| && (cb.tell ==> InputSeg(Unbounded, cb, w).tell)
  {
    AcknowledgesExactly(Unbounded, cb, w);
    AnswersExactly(Unbounded, cb, w);
    HoldsExactly(cb, w, peerHist, w.sn);
  }

  /** What is delivered stays taken, what `una` covers is dropped. */
  ghost predicate Arrived(cb: Cb, c: Cb, ws: seq<Wire>, una: int, wnd: int, nxt: int) {
    && Gains(cb, c) && c.sndQueue == cb.sndQueue && c.sndNxt == cb.sndNxt && |c.sndBuf| <= |cb.sndBuf|
    && (nxt <= cb.rcvNxt + RCV_WND ==> forall k :: 0 <= k < |ws| ==> Took(c, ws[k]))
    && (if ws == [] then c == cb else c.rmtWnd == wnd && (una == cb.sndNxt ==> c.sndBuf == []))
  }

  lemma SegArrives(cb: Cb, w: Wire, wnd: int, hist: seq<seq<byte>>, peer: Cb, peerHist: seq<seq<byte>>)
    requires SenderOk(cb, hist) && Conserved(cb, peer, hist) && ReceiverOk(cb, peerHist) && AcksOk(cb)
    requires WireOk(w, peer, peerHist) && Recent(w, w.una, wnd, |peerHist|) && cb.sndNxt <= w.una + 192
    requires Harmless(cb, [w], w.una)
    ensures SegClear(cb, w) && Arrived(cb, InputSeg(Unbounded, cb, w), [w], w.una, wnd, |peerHist|)
  {
    RecentClear(cb, w, wnd, |peerHist|, hist);
    SegTaken(cb, w, peerHist);
    InputWindow(Unbounded, cb, w);
    InputSegKeeps(cb, w, hist, peer, peerHist);
    if w.una == cb.sndNxt {
      EverythingLeaves(cb, w);
    }
  }

  lemma ArrivedAfter(cb: Cb, c: Cb, d: Cb, w: Wire, ws: seq<Wire>, una: int, wnd: int, nxt: int)
    requires Arrived(cb, c, [w], una, wnd, nxt) && Arrived(c, d, ws, una, wnd, nxt)
    ensures Arrived(cb, d, [w] + ws, una, wnd, nxt)
  {
    assert [w][0] == w;
    if nxt <= cb.rcvNxt + RCV_WND {
      TookStays(c, d, w);
      forall k | 0 <= k < |[w] + ws|
        ensures Took(d, ([w] + ws)[k])
      {
        if k > 0 {
          assert ([w] + ws)[k] == ws[k - 1];
        }
      }
    }
  }

  lemma {:induction false} DatagramArrives(cb: Cb, ws: seq<Wire>, una: int, wnd: int, hist: seq<seq<byte>>, peer: Cb,
                                           peerHist: seq<seq<byte>>)
    requires SenderOk(cb, hist) && Conserved(cb, peer, hist) && ReceiverOk(cb, peerHist) && AcksOk(cb)
    requires WiresOk(ws, peer, peerHist) && AllRecent(ws, una, wnd, |peerHist|) && cb.sndNxt <= una + 192
    requires Harmless(cb, ws, una)
    ensures Clear(cb, ws) && Arrived(cb, InputSegs(Unbounded, cb, ws), ws, una, wnd, |peerHist|)
    decreases |ws|
  {
    if ws != [] {
      var w, rest := ws[0], ws[1..];
      var c := InputSeg(Unbounded, cb, w);
      assert Harmless(cb, [w], una);
      SegArrives(cb, w, wnd, hist, peer, peerHist);
      InputSegKeeps(cb, w, hist, peer, peerHist);
      DatagramArrives(c, rest, una, wnd, hist, peer, peerHist);
      ArrivedAfter(cb, c, InputSegs(Unbounded, c, rest), w, rest, una, wnd, |peerHist|);
      assert [w] + rest == ws;
    }
  }

  /** The datagrams of `log` from `from` on come from flushes at `una`. */
  ghost predicate RecentLog(log: seq<seq<Wire>>, from: nat, una: int, wnd: int, nxt: int) {
    forall k :: from <= k < |log| ==> AllRecent(log[k], una, wnd, nxt)
  }

  ghost predicate HarmlessLog(cb: Cb, log: seq<seq<Wire>>, from: nat, una: int) {
    una == cb.sndNxt || forall k :: from <= k < |log| ==> NoAcks(log[k])
  }

  /** All these datagrams have arrived. */
  ghost predicate ArrivedAll(cb: Cb, c: Cb, log: seq<seq<Wire>>, from: nat, una: int, wnd: int, nxt: int) {
    && Gains(cb, c) && c.sndQueue == cb.sndQueue && c.sndNxt == cb.sndNxt && |c.sndBuf| <= |cb.sndBuf|
    && (nxt <= cb.rcvNxt + RCV_WND ==>
          forall k, j :: from <= k < |log| && 0 <= j < |log[k]| ==> Took(c, log[k][j]))
    && (if from >= |log| then c == cb else c.rmtWnd == wnd && (una == cb.sndNxt ==> c.sndBuf == []))
  }

  lemma ArrivedMore(cb: Cb, c: Cb, d: Cb, log: seq<seq<Wire>>, from: nat, una: int, wnd: int, nxt: int)
    requires from < |log| && log[from] != [] && Arrived(cb, c, log[from], una, wnd, nxt)
    requires ArrivedAll(c, d, log, from + 1, una, wnd, nxt)
    ensures ArrivedAll(cb, d, log, from, una, wnd, nxt)
  {
    if nxt <= cb.rcvNxt + RCV_WND {
      forall k, j | from <= k < |log| && 0 <= j < |log[k]|
        ensures Took(d, log[k][j])
      {
        if k == from {
          TookStays(c, d, log[from][j]);
        }
      }
    }
  }

  /** No message was taken. */
  ghost predicate SameBase(cb: Cb, c: Cb) {
    c.rcvNxt - |c.rcvQueue| == cb.rcvNxt - |cb.rcvQueue|
  }

  lemma DatagramTaken(p: Party, q: Party, which: nat, una: int, wnd: int)
    requires Pair(p, q) && which < |q.log| && AllRecent(q.log[which], una, wnd, |q.hist|)
    requires p.cb.sndNxt <= una + 192 && Harmless(p.cb, q.log[which], una)
    ensures q.log[which] != [] && Clear(p.cb, q.log[which])
    ensures var c := InputSegs(Unbounded, p.cb, q.log[which]);
            Arrived(p.cb, c, q.log[which], una, wnd, |q.hist|) && SameBase(p.cb, c)
  {
    assert WiresOk(q.log[which], q.cb, q.hist) && q.log[which] != [];
    DatagramArrives(p.cb, q.log[which], una, wnd, p.hist, q.cb, q.hist);
    InputSegsKeep(p.cb, q.log[which], p.hist, q.cb, q.hist);
  }

  lemma DeliverOne(s: Sys, more: seq<Action>, t: Sys, i: Side, which: nat, una: int, wnd: int)
    requires Goes(s, more, t) && |Get(s, Other(i)).log| <= which < |Get(t, Other(i)).log|
    requires var q := Get(t, Other(i)); AllRecent(q.log[which], una, wnd, |q.hist|)
    requires Get(t, i).cb.sndNxt <= una + 192 && Harmless(Get(t, i).cb, Get(t, Other(i)).log[which], una)
    ensures var a, p, q := DoInput(i, which), Get(t, i), Get(t, Other(i));
            var c := InputSegs(Unbounded, p.cb, q.log[which]);
            && Goes(s, more + [a], Put(t, i, p.(cb := c)))
            && q.log[which] != [] && Arrived(p.cb, c, q.log[which], una, wnd, |q.hist|) && SameBase(p.cb, c)
  {
    DatagramTaken(Get(t, i), Get(t, Other(i)), which, una, wnd);
    assert Step(Unbounded, t, DoInput(i, which))
        == Put(t, i, Get(t, i).(cb := InputSegs(Unbounded, Get(t, i).cb, Get(t, Other(i)).log[which])));
    GoOn(s, more, t, DoInput(i, which));
  }

  /** The network delivers the datagrams from `from` on, in order. */
  lemma {:induction false} Deliver(s: Sys, more: seq<Action>, t: Sys, i: Side, from: nat, una: int, wnd: int)
    returns (more': seq<Action>, u: Sys)
    requires Goes(s, more, t) && |Get(s, Other(i)).log| <= from <= |Get(t, Other(i)).log|
    requires var q := Get(t, Other(i)); RecentLog(q.log, from, una, wnd, |q.hist|)
    requires Get(t, i).cb.sndNxt <= una + 192 && HarmlessLog(Get(t, i).cb, Get(t, Other(i)).log, from, una)
    ensures Goes(s, more', u) && Get(u, Other(i)) == Get(t, Other(i))
    ensures var p, q, r := Get(t, i), Get(t, Other(i)), Get(u, i);
            r == p.(cb := r.cb) && ArrivedAll(p.cb, r.cb, q.log, from, una, wnd, |q.hist|) && SameBase(p.cb, r.cb)
    decreases |Get(t, Other(i)).log| - from
  {
    var p, q := Get(t, i), Get(t, Other(i));
    if from == |q.log| {
      more', u := more, t;
    } else {
      var c := InputSegs(Unbounded, p.cb, q.log[from]);
      DeliverOne(s, more, t, i, from, una, wnd);
      more', u := Deliver(s, more + [DoInput(i, from)], Put(t, i, p.(cb := c)), i, from + 1, una, wnd);
      ArrivedMore(p.cb, c, Get(u, i).cb, q.log, from, una, wnd, |q.hist|);
    }
  }

  // -------------------------------------------------------------------- flushes

  lemma {:induction false} UnpackedFrom(ds: seq<seq<Wire>>, w: Wire) returns (k: nat, j: nat)
    requires w in Unpacked(ds)
    ensures k < |ds| && j < |ds[k]| && ds[k][j] == w
  {
    if w in ds[0] {
      k := 0;
      j :| j < |ds[0]| && ds[0][j] == w;
    } else {
      k, j := UnpackedFrom(ds[1..], w);
      k := k + 1;
    }
  }

  /** What a flush makes of `cb`. */
  ghost predicate FlushedState(cb: Cb, d: Cb, n: nat) {
    && n <= |cb.sndQueue| && d.sndQueue == cb.sndQueue[n..] && d.sndNxt == cb.sndNxt + n
    && d.acks == [] && !d.tell && d.updated && d.rmtWnd == cb.rmtWnd && d.sndUna == cb.sndUna && d.conv == cb.conv
    && d.rcvNxt == cb.rcvNxt && d.rcvBuf == cb.rcvBuf && d.rcvQueue == cb.rcvQueue
    && |d.sndBuf| == |cb.sndBuf| + n
  }

  /** What a flush sends. */
  ghost predicate FlushedSent(cb: Cb, d: Cb, sent: seq<seq<Wire>>) {
    && RecentLog(sent, 0, cb.rcvNxt, Free(cb), d.sndNxt)
    && (cb.acks == [] ==> forall k :: 0 <= k < |sent| ==> NoAcks(sent[k]))
    && (cb.acks != [] || cb.tell ==> sent != [])
  }

  lemma FlushState(cb: Cb, ch: FlushChoice)
    requires cb.updated
    ensures FlushedState(cb, Flush(Unbounded, cb, ch).0, Admitted(cb, EffectiveWindow(cb, ch)))
  {
    AdmitExact(cb, EffectiveWindow(cb, ch));
  }

  /** The numbers in the send buffer are recent. */
  ghost predicate InSendWindow(c: Cb) {
    forall i :: 0 <= i < |c.sndBuf| ==> c.sndNxt - SND_WND <= c.sndBuf[i].sn < c.sndNxt && |c.sndBuf[i].data| <= MSS
  }

  lemma AdmittedRecent(cb: Cb, ch: FlushChoice, hist: seq<seq<byte>>)
    requires SenderOk(cb, hist)
    ensures var c := Admit(Unbounded, cb, EffectiveWindow(cb, ch));
            InSendWindow(c) && c.rcvNxt == cb.rcvNxt && c.rcvQueue == cb.rcvQueue
  {
    AdmitOk(cb, EffectiveWindow(cb, ch), hist);
    var c := Admit(Unbounded, cb, EffectiveWindow(cb, ch));
    var hist' := hist + cb.sndQueue[..|cb.sndQueue| - |c.sndQueue|];
    assert SenderOk(c, hist');
    forall i | 0 <= i < |c.sndBuf|
      ensures |c.sndBuf[i].data| <= MSS
    {
      assert GoodChunk(hist'[c.sndBuf[i].sn]);
    }
  }

  lemma FlushSends(cb: Cb, ch: FlushChoice, hist: seq<seq<byte>>)
    requires SenderOk(cb, hist) && cb.updated
    ensures var (d, sent) := Flush(Unbounded, cb, ch); FlushedSent(cb, d, sent)
  {
    var sent := Flush(Unbounded, cb, ch).1;
    var c := Admit(Unbounded, cb, EffectiveWindow(cb, ch));
    AdmittedRecent(cb, ch, hist);
    var at := Transmitted(cb, ch, hist);
    assert cb.acks != [] || cb.tell ==> Unpacked(sent) != [];
    forall k, j | 0 <= k < |sent| && 0 <= j < |sent[k]|
      ensures Recent(sent[k][j], cb.rcvNxt, Free(cb), c.sndNxt) && (cb.acks == [] ==> sent[k][j].cmd != 82)
    {
      UnpackedContains(sent, k, j);
      TransmittedRecent(Unpacked(sent), cb, c, ch, at, sent[k][j]);
    }
  }

  lemma Transmitted(cb: Cb, ch: FlushChoice, hist: seq<seq<byte>>) returns (at: seq<nat>)
    requires SenderOk(cb, hist) && cb.updated
    ensures var c := Admit(Unbounded, cb, EffectiveWindow(cb, ch));
            && DuePositions(c.sndBuf, 0, ch, at)
            && Transmits(Unpacked(Flush(Unbounded, cb, ch).1), cb, c, ch, at)
  {
    forall i | 0 <= i < |cb.sndBuf|
      ensures |cb.sndBuf[i].data| <= MSS
    {
      assert GoodChunk(hist[cb.sndBuf[i].sn]);
    }
    at := FlushTransmits(Unbounded, cb, ch);
  }

  lemma TransmittedRecent(ws: seq<Wire>, cb: Cb, c: Cb, ch: FlushChoice, at: seq<nat>, w: Wire)
    requires DuePositions(c.sndBuf, 0, ch, at) && Transmits(ws, cb, c, ch, at) && w in ws
    requires InSendWindow(c) && c.rcvNxt == cb.rcvNxt && c.rcvQueue == cb.rcvQueue
    ensures Recent(w, cb.rcvNxt, Free(cb), c.sndNxt) && (cb.acks == [] ==> w.cmd != 82)
  {
    var k :| 0 <= k < |ws| && ws[k] == w;
    if k + |at| < |ws| {
      ControlRecent(ws, cb, c, ch, at, k);
    } else {
      DataRecent(ws, cb, c, ch, at, k);
    }
  }

  lemma DataRecent(ws: seq<Wire>, cb: Cb, c: Cb, ch: FlushChoice, at: seq<nat>, k: nat)
    requires DuePositions(c.sndBuf, 0, ch, at) && Transmits(ws, cb, c, ch, at) && k < |ws| <= k + |at|
    requires InSendWindow(c) && c.rcvNxt == cb.rcvNxt && c.rcvQueue == cb.rcvQueue
    ensures Recent(ws[k], cb.rcvNxt, Free(cb), c.sndNxt) && ws[k].cmd == 81
  {
    var p := |ws| - |at|;
    assert ws[k] == ws[p..][k - p] == DataSegment(c, c.sndBuf[at[k - p]], ch.now);
  }

  lemma ControlRecent(ws: seq<Wire>, cb: Cb, c: Cb, ch: FlushChoice, at: seq<nat>, k: nat)
    requires DuePositions(c.sndBuf, 0, ch, at) && Transmits(ws, cb, c, ch, at) && k + |at| < |ws|
    ensures ws[k].una == cb.rcvNxt && ws[k].wnd == Free(cb) && ws[k].cmd != 81
    ensures cb.acks == [] ==> ws[k].cmd != 82
  {
    if k < |cb.acks| {
      assert IsControl(ws[k], cb, 82);
    } else if cb.rmtWnd == 0 && ch.probeDue && k == |cb.acks| {
      assert IsControl(ws[k], cb, 83);
    } else {
      assert IsControl(ws[k], cb, 84);
    }
  }

  lemma DueTransmitted(ws: seq<Wire>, cb: Cb, c: Cb, ch: FlushChoice, at: seq<nat>, i: nat) returns (k: nat)
    requires DuePositions(c.sndBuf, 0, ch, at) && Transmits(ws, cb, c, ch, at)
    requires i < |c.sndBuf| && Due(c.sndBuf, i, ch)
    ensures k < |ws| && ws[k] == DataSegment(c, c.sndBuf[i], ch.now)
  {
    assert i in at;
    var x :| 0 <= x < |at| && at[x] == i;
    var p := |ws| - |at|;
    k := p + x;
    assert ws[p..][x] == ws[k];
  }

  /** A segment that is due is in one of the datagrams. */
  lemma DueIsSent(cb: Cb, ch: FlushChoice, hist: seq<seq<byte>>, i: nat) returns (k: nat, j: nat)
    requires SenderOk(cb, hist) && cb.updated
    requires var c := Admit(Unbounded, cb, EffectiveWindow(cb, ch)); i < |c.sndBuf| && Due(c.sndBuf, i, ch)
    ensures var sent, c := Flush(Unbounded, cb, ch).1, Admit(Unbounded, cb, EffectiveWindow(cb, ch));
            k < |sent| && j < |sent[k]| && sent[k][j].cmd == 81 && sent[k][j].sn == c.sndBuf[i].sn
  {
    var at := Transmitted(cb, ch, hist);
    var sent, c := Flush(Unbounded, cb, ch).1, Admit(Unbounded, cb, EffectiveWindow(cb, ch));
    var x := DueTransmitted(Unpacked(sent), cb, c, ch, at, i);
    k, j := UnpackedFrom(sent, Unpacked(sent)[x]);
  }

  /** A closed window is asked for. */
  lemma ProbeIsSent(cb: Cb, ch: FlushChoice, hist: seq<seq<byte>>) returns (k: nat, j: nat)
    requires SenderOk(cb, hist) && cb.updated && cb.rmtWnd == 0 && ch.probeDue
    ensures var sent := Flush(Unbounded, cb, ch).1; k < |sent| && j < |sent[k]| && sent[k][j].cmd == 83
  {
    var at := Transmitted(cb, ch, hist);
    var sent := Flush(Unbounded, cb, ch).1;
    k, j := UnpackedFrom(sent, Unpacked(sent)[|cb.acks|]);
  }

  // --------------------------------------------------------------------- rounds

  /** A receiver with an empty queue has caught up with everything that its sender gave up. */
  lemma CaughtUp(p: Party, q: Party)
    requires Pair(p, q) && q.cb.rcvQueue == []
    ensures p.cb.sndUna <= q.cb.rcvNxt
  {
    var sn := q.cb.rcvNxt;
    if sn < p.cb.sndUna {
      assert !InFlight(p.cb, sn);
      HeldIsNext(q.cb, p.hist);
    }
  }

  /** If the next number is held, the queue is full. */
  lemma HeldIsNext(cb: Cb, hist: seq<seq<byte>>)
    requires ReceiverOk(cb, hist) && Held(cb, cb.rcvNxt)
    ensures |cb.rcvQueue| == RCV_WND
  {
    var i :| 0 <= i < |cb.rcvBuf| && cb.rcvBuf[i].sn == cb.rcvNxt;
    assert Storable(cb.rcvBuf[0], cb.rcvNxt, hist);
  }

  /** A flush that numbers nothing and resends nothing. */
  const QUIET: FlushChoice := FlushChoice(0, false, 0, {})

  function Updated(cb: Cb): Cb {
    cb.(updated := true)
  }

  lemma UpdateParty(p: Party, ch: FlushChoice, peerHist: seq<seq<byte>>)
    requires PartyOk(p, peerHist)
    ensures var cb, q, sent := Updated(p.cb), PartyUpdate(Unbounded, p, true, ch),
                               Flush(Unbounded, Updated(p.cb), ch).1;
            && FlushedState(cb, q.cb, Admitted(cb, EffectiveWindow(cb, ch)))
            && q.log == p.log + sent && FlushedSent(cb, q.cb, sent)
  {
    FlushState(Updated(p.cb), ch);
    FlushSends(Updated(p.cb), ch, p.hist);
  }

  lemma UpdateGoesOn(s: Sys, more: seq<Action>, t: Sys, i: Side, ch: FlushChoice)
    requires Goes(s, more, t)
    ensures Goes(s, more + [DoUpdate(i, true, ch)], Put(t, i, PartyUpdate(Unbounded, Get(t, i), true, ch)))
  {
    GoOn(s, more, t, DoUpdate(i, true, ch));
  }

  function FirstPositions(n: nat): (r: set<nat>)
    ensures forall k: nat :: k in r <==> k < n
  {
    if n == 0 then {} else FirstPositions(n - 1) + {n - 1}
  }

  /** A flush of everything unacknowledged, and a question for the window if it is closed. */
  function Everything(cb: Cb): FlushChoice {
    FlushChoice(64, true, 0, FirstPositions(WaitSnd(cb)))
  }

  /** Everything that `p` sent in becoming `p'` was taken. */
  ghost predicate TookAll(p: Party, p': Party, c: Cb) {
    forall k, j :: |p.log| <= k < |p'.log| && 0 <= j < |p'.log[k]| ==> Took(c, p'.log[k][j])
  }

  lemma SentTaken(p: Party, p': Party, sent: seq<seq<Wire>>, c: Cb, k: nat, j: nat)
    requires p'.log == p.log + sent && TookAll(p, p', c) && k < |sent| && j < |sent[k]|
    ensures Took(c, sent[k][j])
  {
    assert p'.log[|p.log| + k] == sent[k];
  }

  lemma SegmentTaken(p: Party, p': Party, c: Cb, peerHist: seq<seq<byte>>, i: nat)
    requires PartyOk(p, peerHist) && p' == PartyUpdate(Unbounded, p, true, Everything(p.cb))
    requires TookAll(p, p', c) && i < |p'.cb.sndBuf|
    ensures Held(c, p'.cb.sndBuf[i].sn) && c.acks != []
  {
    var cb, ch := Updated(p.cb), Everything(p.cb);
    FlushState(cb, ch);
    var k, j := DueIsSent(cb, ch, p.hist, i);
    SentTaken(p, p', Flush(Unbounded, cb, ch).1, c, k, j);
  }

  lemma ProbeTaken(p: Party, p': Party, c: Cb, peerHist: seq<seq<byte>>)
    requires PartyOk(p, peerHist) && p' == PartyUpdate(Unbounded, p, true, Everything(p.cb))
    requires TookAll(p, p', c) && p.cb.rmtWnd == 0
    ensures c.tell
  {
    var k, j := ProbeIsSent(Updated(p.cb), Everything(p.cb), p.hist);
    SentTaken(p, p', Flush(Unbounded, Updated(p.cb), Everything(p.cb)).1, c, k, j);
  }

  /** After a flush of everything whose segments all arrive, the peer has all numbered payloads, and if the sender
      still waits for something, a reason to answer. */
  lemma AllTaken(p: Party, p': Party, c: Cb, peerHist: seq<seq<byte>>)
    requires PartyOk(p, peerHist) && p' == PartyUpdate(Unbounded, p, true, Everything(p.cb))
    requires Conserved(p'.cb, c, p'.hist) && TookAll(p, p', c)
    ensures forall sn :: 0 <= sn < |p'.hist| ==> Held(c, sn)
    ensures WaitSnd(p'.cb) == 0 || c.acks != [] || c.tell
  {
    forall sn | 0 <= sn < |p'.hist|
      ensures Held(c, sn)
    {
      if InFlight(p'.cb, sn) {
        var i :| 0 <= i < |p'.cb.sndBuf| && p'.cb.sndBuf[i].sn == sn;
        SegmentTaken(p, p', c, peerHist, i);
      }
    }
    if p'.cb.sndBuf != [] {
      SegmentTaken(p, p', c, peerHist, 0);
    } else if p'.cb.sndQueue != [] {
      FlushState(Updated(p.cb), Everything(p.cb));
      ProbeTaken(p, p', c, peerHist);
    }
  }

  lemma NewLog(log: seq<seq<Wire>>, sent: seq<seq<Wire>>, cb: Cb, d: Cb)
    requires FlushedSent(cb, d, sent)
    ensures RecentLog(log + sent, |log|, cb.rcvNxt, Free(cb), d.sndNxt)
    ensures cb.acks == [] ==> forall k :: |log| <= k < |log + sent| ==> NoAcks((log + sent)[k])
  {
    forall k | |log| <= k < |log + sent|
      ensures AllRecent((log + sent)[k], cb.rcvNxt, Free(cb), d.sndNxt)
      ensures cb.acks == [] ==> NoAcks((log + sent)[k])
    {
      assert (log + sent)[k] == sent[k - |log|];
    }
  }

  /** A sender with nothing in flight and an open window. */
  predicate Idle(cb: Cb) {
    cb.sndBuf == [] && cb.rmtWnd == RCV_WND
  }

  /** `r` is `p` after a flush of everything, with no acknowledgements among it. */
  ghost predicate Pushed(p: Party, r: Party, from: nat) {
    && from <= |r.log| && RecentLog(r.log, from, r.cb.rcvNxt, Free(r.cb), |r.hist|)
    && (forall k :: from <= k < |r.log| ==> NoAcks(r.log[k]))
    && |r.cb.sndQueue| <= |p.cb.sndQueue|
    && (Idle(p.cb) && p.cb.sndQueue != [] ==> |r.cb.sndQueue| < |p.cb.sndQueue|)
  }

  lemma PushEverything(p: Party, peerHist: seq<seq<byte>>)
    requires PartyOk(p, peerHist)
    ensures var p1 := PartyUpdate(Unbounded, p, true, QUIET);
            var p2 := PartyUpdate(Unbounded, p1, true, Everything(p1.cb));
            PartyOk(p1, peerHist) && |p.log| <= |p1.log| && p1.cb.acks == [] && Pushed(p, p2, |p1.log|)
  {
    var p1 := PartyUpdate(Unbounded, p, true, QUIET);
    UpdateKeeps(p, true, QUIET, peerHist);
    UpdateParty(p, QUIET, peerHist);
    PushAgain(p1, peerHist);
  }

  lemma PushAgain(p: Party, peerHist: seq<seq<byte>>)
    requires PartyOk(p, peerHist) && p.cb.acks == []
    ensures Pushed(p, PartyUpdate(Unbounded, p, true, Everything(p.cb)), |p.log|)
  {
    var r, cb := PartyUpdate(Unbounded, p, true, Everything(p.cb)), Updated(p.cb);
    UpdateKeeps(p, true, Everything(p.cb), peerHist);
    UpdateParty(p, Everything(p.cb), peerHist);
    NewLog(p.log, Flush(Unbounded, cb, Everything(p.cb)).1, cb, r.cb);
  }

  /** The sender pushes all it may, and nothing is delivered yet. */
  lemma AskFlush(s: Sys, more: seq<Action>, t: Sys, i: Side) returns (more': seq<Action>, u: Sys, p1: Party)
    requires Goes(s, more, t)
    ensures Goes(s, more', u) && Get(u, Other(i)) == Get(t, Other(i))
    ensures var p, r := Get(t, i), Get(u, i);
            && Pushed(p, r, |p1.log|) && |p.log| <= |p1.log|
            && PartyOk(p1, Get(t, Other(i)).hist) && r == PartyUpdate(Unbounded, p1, true, Everything(p1.cb))
  {
    var p := Get(t, i);
    PushEverything(p, Get(t, Other(i)).hist);
    p1 := PartyUpdate(Unbounded, p, true, QUIET);
    UpdateGoesOn(s, more, t, i, QUIET);
    UpdateGoesOn(s, more + [DoUpdate(i, true, QUIET)], Put(t, i, p1), i, Everything(p1.cb));
    more' := more + [DoUpdate(i, true, QUIET)] + [DoUpdate(i, true, Everything(p1.cb))];
    u := Put(t, i, PartyUpdate(Unbounded, p1, true, Everything(p1.cb)));
  }

  /** A receiver that holds everything and whose queue is not full expects the next number. */
  lemma AllHeldNext(cb: Cb, hist: seq<seq<byte>>)
    requires ReceiverOk(cb, hist) && |cb.rcvQueue| < RCV_WND
    requires forall sn :: 0 <= sn < |hist| ==> Held(cb, sn)
    ensures cb.rcvNxt == |hist|
  {
    if cb.rcvNxt < |hist| {
      HeldIsNext(cb, hist);
    }
  }

  /** The peer has received all of `p` and, if `p` still waits, will answer. */
  ghost predicate Answers(p: Party, q: Party) {
    q.cb.rcvNxt == |p.hist| && (WaitSnd(p.cb) == 0 || q.cb.acks != [] || q.cb.tell)
  }

  lemma AskDelivered(p1: Party, r: Party, q: Party, q': Party, una: int, wnd: int)
    requires PartyOk(p1, q.hist) && r == PartyUpdate(Unbounded, p1, true, Everything(p1.cb))
    requires Pair(r, q) && Pair(r, q') && q.cb.rcvQueue == [] && |q'.cb.rcvQueue| < RCV_WND
    requires ArrivedAll(q.cb, q'.cb, r.log, |p1.log|, una, wnd, |r.hist|)
    ensures Answers(r, q')
  {
    CaughtUp(r, q);
    AllTaken(p1, r, q'.cb, q.hist);
    AllHeldNext(q'.cb, r.hist);
  }

  /** Everything is pushed and arrives. */
  lemma Ask(s: Sys, more: seq<Action>, t: Sys, i: Side) returns (more': seq<Action>, u: Sys)
    requires Goes(s, more, t)
    ensures Goes(s, more', u) && Answers(Get(u, i), Get(u, Other(i)))
    ensures var p, r := Get(t, i).cb, Get(u, i).cb;
            && |r.sndQueue| <= |p.sndQueue| && (Idle(p) && p.sndQueue != [] ==> |r.sndQueue| < |p.sndQueue|)
  {
    var j := Other(i);
    var more1, t1 := TakeAll(s, more, t, j);
    var more2, t2, p1 := AskFlush(s, more1, t1, i);
    var r, q := Get(t2, i), Get(t2, j);
    WindowBound(q.cb, r.cb, q.hist);
    more', u := Deliver(s, more2, t2, j, |p1.log|, r.cb.rcvNxt, Free(r.cb));
    CaughtUp(r, q);
    AskDelivered(p1, r, q, Get(u, j), r.cb.rcvNxt, Free(r.cb));
  }

  // answers

  lemma AnswerFlush(q: Party, peerHist: seq<seq<byte>>)
    requires PartyOk(q, peerHist) && q.cb.rcvQueue == [] && q.cb.rcvNxt == |peerHist|
    ensures var r := PartyUpdate(Unbounded, q, true, QUIET);
            && RecentLog(r.log, |q.log|, |peerHist|, RCV_WND, |r.hist|) && |q.log| <= |r.log|
            && (q.cb.acks != [] || q.cb.tell ==> |q.log| < |r.log|) && r.cb.rcvQueue == []
  {
    var r := PartyUpdate(Unbounded, q, true, QUIET);
    UpdateKeeps(q, true, QUIET, peerHist);
    UpdateParty(q, QUIET, peerHist);
    NewLog(q.log, Flush(Unbounded, Updated(q.cb), QUIET).1, Updated(q.cb), r.cb);
  }

  /** The answer arrives, if there is one to expect. */
  lemma Answer(s: Sys, more: seq<Action>, t: Sys, i: Side) returns (more': seq<Action>, u: Sys)
    requires Goes(s, more, t) && Answers(Get(t, i), Get(t, Other(i)))
    ensures Goes(s, more', u) && Get(u, i).cb.sndQueue == Get(t, i).cb.sndQueue
    ensures WaitSnd(Get(u, i).cb) == 0 || Idle(Get(u, i).cb)
  {
    var j := Other(i);
    var more1, t1 := TakeAll(s, more, t, j);
    var p, q := Get(t1, i), Get(t1, j);
    assert q.cb.rcvNxt == |p.hist|;
    AnswerFlush(q, p.hist);
    UpdateGoesOn(s, more1, t1, j, QUIET);
    var t2 := Put(t1, j, PartyUpdate(Unbounded, q, true, QUIET));
    more', u := Deliver(s, more1 + [DoUpdate(j, true, QUIET)], t2, i, |q.log|, |p.hist|, RCV_WND);
  }

  /** Asking and answering in turn, until the sender waits for nothing. */
  lemma {:induction false} Finish(s: Sys, more: seq<Action>, t: Sys, i: Side) returns (more': seq<Action>, u: Sys)
    requires Goes(s, more, t)
    ensures Goes(s, more', u) && WaitSnd(Get(u, i).cb) == 0
    decreases |Get(t, i).cb.sndQueue|, if Idle(Get(t, i).cb) then 0 else 1
  {
    if WaitSnd(Get(t, i).cb) == 0 {
      return more, t;
    }
    var more1, t1 := Ask(s, more, t, i);
    var more2, t2 := Answer(s, more1, t1, i);
    if WaitSnd(Get(t2, i).cb) == 0 {
      return more2, t2;
    }
    more', u := Finish(s, more2, t2, i);
  }

  // ------------------------------------------------------------------- theorems

  /** When nothing waits at the sender and the application has taken everything, everything was delivered. */
  lemma Complete(p: Party, q: Party)
    requires Pair(p, q) && WaitSnd(p.cb) == 0 && q.cb.rcvQueue == []
    ensures q.delivered == p.accepted
  {
    CaughtUp(p, q);
    assert p.hist[..q.cb.rcvNxt] == p.hist;
    assert Flatten(p.hist) + [] == Flatten(p.hist);
  }

  /** Nothing waits and everything accepted was delivered, in both directions. */
  ghost predicate AllDone(s: Sys) {
    && WaitSnd(s.ini.cb) == 0 && WaitSnd(s.rsp.cb) == 0 && s.ini.cb.rcvQueue == [] && s.rsp.cb.rcvQueue == []
    && s.ini.delivered == s.rsp.accepted && s.rsp.delivered == s.ini.accepted
  }

  lemma {:induction false} RunAppend(m: Arith, s: Sys, acts: seq<Action>, more: seq<Action>)
    ensures Run(m, s, acts + more) == Run(m, Run(m, s, acts), more)
    decreases |more|
  {
    if more == [] {
      assert acts + more == acts;
    } else {
      assert (acts + more)[..|acts + more| - 1] == acts + more[..|more| - 1];
      RunAppend(m, s, acts, more[..|more| - 1]);
    }
  }

  lemma {:induction false} ClearAppend(s: Sys, acts: seq<Action>, more: seq<Action>)
    requires ClearRun(s, acts) && ClearRun(Run(Unbounded, s, acts), more)
    ensures ClearRun(s, acts + more)
    decreases |more|
  {
    if more == [] {
      assert acts + more == acts;
    } else {
      var front := more[..|more| - 1];
      assert (acts + more)[..|acts + more| - 1] == acts + front;
      ClearAppend(s, acts, front);
      RunAppend(Unbounded, s, acts, front);
    }
  }

  lemma LaterAppend(s: Sys, t: Sys, more: seq<Action>, more': seq<Action>)
    requires |s.ini.log| <= |t.ini.log| && |s.rsp.log| <= |t.rsp.log|
    requires (forall a :: a in more ==> Later(s, a)) && forall a :: a in more' ==> Later(t, a)
    ensures forall a :: a in more + more' ==> Later(s, a)
  {
  }

  lemma GoesTrans(s: Sys, more: seq<Action>, t: Sys, more': seq<Action>, u: Sys)
    requires Goes(s, more, t) && Goes(t, more', u)
    ensures Goes(s, more + more', u)
  {
    RunAppend(Unbounded, s, more, more');
    ClearAppend(s, more, more');
    LaterAppend(s, t, more, more');
  }

  lemma FinishBoth(s: Sys) returns (more: seq<Action>, t: Sys)
    requires Inv(s)
    ensures Goes(s, more, t) && AllDone(t)
  {
    GoesNowhere(s);
    var more1, t1 := Finish(s, [], s, Initiator);
    GoesNowhere(t1);
    var more2, t2 := Finish(t1, [], t1, Responder);
    GoesTrans(s, more1, t1, more2, t2);
    var more3, t3 := TakeAll(s, more1 + more2, t2, Initiator);
    more, t := TakeAll(s, more3, t3, Responder);
    Complete(t.ini, t.rsp);
    Complete(t.rsp, t.ini);
  }

  /** From every state that a clear run reaches there is a clear way on, which accepts nothing more and delivers
      nothing that was sent before, after which all bytes accepted are delivered and nothing is left waiting. */
  lemma AlwaysRecovers(conv: u32, acts: seq<Action>) returns (more: seq<Action>)
    requires ClearRun(Init(conv), acts)
    ensures ClearRun(Init(conv), acts + more)
    ensures forall a :: a in more ==> Later(Run(Wrapping, Init(conv), acts), a)
    ensures var s, t := Run(Wrapping, Init(conv), acts), Run(Wrapping, Init(conv), acts + more);
            AllDone(t) && t.ini.accepted == s.ini.accepted && t.rsp.accepted == s.rsp.accepted
  {
    RunKeeps(conv, acts);
    var s := Run(Unbounded, Init(conv), acts);
    var t: Sys;
    more, t := FinishBoth(s);
    RunAppend(Unbounded, Init(conv), acts, more);
    ClearAppend(Init(conv), acts, more);
    RunRefines(conv, acts);
    RunRefines(conv, acts + more);
    forall a | a in more
      ensures Later(Shadow(s), a)
    {
      assert Later(s, a);
    }
  }
}
