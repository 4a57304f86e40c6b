/** What every step keeps, in the unbounded reading, and what it implies for every run. */
module KcpInvariant {
  import opened SerialNumbers
  import opened Bytes
  import opened KcpModel
  import opened KcpWire
  import opened KcpSystem

  // ------------------------------------------------------------ the invariant

  ghost predicate SortedOut(buf: seq<OutSeg>) {
    forall i, j :: 0 <= i < j < |buf| ==> buf[i].sn < buf[j].sn
  }

  ghost predicate SortedIn(buf: seq<InSeg>) {
    forall i, j :: 0 <= i < j < |buf| ==> buf[i].sn < buf[j].sn
  }

  ghost predicate GoodChunk(c: seq<byte>) {
    0 < |c| <= MSS
  }

  ghost predicate GoodChunks(cs: seq<seq<byte>>) {
    forall i :: 0 <= i < |cs| ==> GoodChunk(cs[i])
  }

  /** The sending half: the send buffer is the unacknowledged part of the numbered history. */
  ghost predicate SenderOk(cb: Cb, hist: seq<seq<byte>>) {
    && 0 <= cb.sndUna <= cb.sndNxt <= cb.sndUna + SND_WND
    && cb.sndNxt == |hist|
    && SortedOut(cb.sndBuf)
    && (forall i :: 0 <= i < |cb.sndBuf| ==>
          cb.sndUna <= cb.sndBuf[i].sn < cb.sndNxt && cb.sndBuf[i].data == hist[cb.sndBuf[i].sn])
    && cb.sndUna == (if cb.sndBuf == [] then cb.sndNxt else cb.sndBuf[0].sn)
    && GoodChunks(hist) && GoodChunks(cb.sndQueue)
  }

  ghost predicate InOrder(q: seq<InSeg>, from: int, hist: seq<seq<byte>>) {
    && 0 <= from && from + |q| <= |hist|
    && forall k :: 0 <= k < |q| ==> q[k] == InSeg(from + k, 0, hist[from + k])
  }

  /** No segment that could be moved to the receive queue is left in the receive buffer. */
  ghost predicate Settled(cb: Cb) {
    cb.rcvBuf != [] && cb.rcvBuf[0].sn == cb.rcvNxt ==> |cb.rcvQueue| == RCV_WND
  }

  /** A segment the receive buffer may hold. */
  ghost predicate Storable(s: InSeg, rcvNxt: int, hist: seq<seq<byte>>) {
    rcvNxt <= s.sn < rcvNxt + RCV_WND && 0 <= s.sn < |hist| && s == InSeg(s.sn, 0, hist[s.sn])
  }

  ghost predicate AllStorable(buf: seq<InSeg>, rcvNxt: int, hist: seq<seq<byte>>) {
    forall i :: 0 <= i < |buf| ==> Storable(buf[i], rcvNxt, hist)
  }

  /** The receiving half, except `Settled`: `hist` is the peer's numbered history. */
  ghost predicate ReceiverShape(cb: Cb, hist: seq<seq<byte>>) {
    && 0 <= cb.rcvNxt <= |hist|
    && |cb.rcvQueue| <= RCV_WND
    && InOrder(cb.rcvQueue, cb.rcvNxt - |cb.rcvQueue|, hist)
    && SortedIn(cb.rcvBuf)
    && AllStorable(cb.rcvBuf, cb.rcvNxt, hist)
  }

  ghost predicate ReceiverOk(cb: Cb, hist: seq<seq<byte>>) {
    ReceiverShape(cb, hist) && Settled(cb)
  }

  /** The receiver has the segment numbered `sn`. */
  ghost predicate Held(cb: Cb, sn: int) {
    sn < cb.rcvNxt || exists i :: 0 <= i < |cb.rcvBuf| && cb.rcvBuf[i].sn == sn
  }

  ghost predicate InFlight(cb: Cb, sn: int) {
    exists i :: 0 <= i < |cb.sndBuf| && cb.sndBuf[i].sn == sn
  }

  /** Acknowledgements waiting to be sent are for segments held. */
  ghost predicate AcksOk(cb: Cb) {
    forall i :: 0 <= i < |cb.acks| ==> 0 <= cb.acks[i].sn && 0 <= cb.acks[i].ts < TWO32 && Held(cb, cb.acks[i].sn)
  }

  /** A segment that a party with control block `cb` and history `hist` may have sent. */
  ghost predicate WireOk(w: Wire, cb: Cb, hist: seq<seq<byte>>) {
    && w.conv == cb.conv && IsCommand(w.cmd) && w.frg == 0 && 0 <= w.wnd <= RCV_WND && 0 <= w.ts < TWO32
    && 0 <= w.una <= cb.rcvNxt && 0 <= w.sn && |w.data| <= MSS
    && (w.cmd == CMD_PUSH ==> w.sn < |hist| && w.data == hist[w.sn])
    && (w.cmd == CMD_ACK ==> Held(cb, w.sn))
  }

  ghost predicate WiresOk(ws: seq<Wire>, cb: Cb, hist: seq<seq<byte>>) {
    forall j :: 0 <= j < |ws| ==> WireOk(ws[j], cb, hist)
  }

  ghost predicate LogOk(log: seq<seq<Wire>>, cb: Cb, hist: seq<seq<byte>>) {
    forall i :: 0 <= i < |log| ==> WiresOk(log[i], cb, hist) && log[i] != [] && Size(log[i]) <= MTU
  }

  /** What one party keeps about itself, given the peer's history. */
  ghost predicate PartyOk(p: Party, peerHist: seq<seq<byte>>) {
    && 0 <= p.cb.conv < TWO32
    && SenderOk(p.cb, p.hist)
    && p.accepted == Flatten(p.hist) + Flatten(p.cb.sndQueue)
    && ReceiverOk(p.cb, peerHist)
    && p.delivered == Flatten(peerHist[..p.cb.rcvNxt - |p.cb.rcvQueue|])
    && AcksOk(p.cb)
    && LogOk(p.log, p.cb, p.hist)
    && 0 <= p.cb.rmtWnd <= RCV_WND
  }

  /** Conservation: every numbered segment is unacknowledged at the sender or held by the receiver. */
  ghost predicate Conserved(sender: Cb, receiver: Cb, hist: seq<seq<byte>>) {
    forall sn :: 0 <= sn < |hist| ==> InFlight(sender, sn) || Held(receiver, sn)
  }

  /** Two connected parties. */
  ghost predicate Pair(p: Party, q: Party) {
    && p.cb.conv == q.cb.conv
    && PartyOk(p, q.hist) && PartyOk(q, p.hist)
    && Conserved(p.cb, q.cb, p.hist) && Conserved(q.cb, p.cb, q.hist)
  }

  ghost predicate Inv(s: Sys) {
    Pair(s.ini, s.rsp)
  }

  // ----------------------------------------------------------------- ikcp_send

  lemma {:induction false} ChunksOk(data: seq<byte>)
    ensures Flatten(Chunks(data)) == data
    ensures GoodChunks(Chunks(data))
    ensures |Chunks(data)| == SegmentCount(|data|)
    decreases |data|
  {
    if |data| == 0 {
    } else if |data| <= MSS {
      FlattenOne(data);
    } else {
      ChunksOk(data[MSS..]);
      assert Chunks(data)[1..] == Chunks(data[MSS..]);
      assert data == data[..MSS] + data[MSS..];
    }
  }

  lemma ExtendLastOk(queue: seq<seq<byte>>, data: seq<byte>)
    requires GoodChunks(queue)
    ensures var r := Room(queue, data);
            && Flatten(ExtendLast(queue, data[..r])) == Flatten(queue) + data[..r]
            && GoodChunks(ExtendLast(queue, data[..r]))
            && |ExtendLast(queue, data[..r])| == |queue|
  {
    var r := Room(queue, data);
    if r == 0 {
      assert data[..r] == [];
    } else {
      var front, last := queue[..|queue| - 1], queue[|queue| - 1];
      assert queue == front + [last];
      FlattenSnoc(front, last);
      FlattenSnoc(front, last + data[..r]);
    }
  }

  /** `ikcp_send` queues exactly the bytes it reports as accepted and touches nothing else. */
  lemma SendAccepts(cb: Cb, data: seq<byte>)
    requires GoodChunks(cb.sndQueue)
    ensures var (c, n) := Send(cb, data);
            && c == cb.(sndQueue := c.sndQueue) && GoodChunks(c.sndQueue) && n <= |data|
            && Flatten(c.sndQueue) == Flatten(cb.sndQueue) + (if n >= 0 then data[..n] else [])
            && (n == |data| || SegmentCount(|data|) >= RCV_WND)
            && |c.sndQueue| <= |cb.sndQueue| + SegmentCount(|data|)
  {
    var room := Room(cb.sndQueue, data);
    var queue := ExtendLast(cb.sndQueue, data[..room]);
    var rest := data[room..];
    ExtendLastOk(cb.sndQueue, data);
    if rest == [] {
      assert data[..room] == data;
    } else if SegmentCount(|rest|) < RCV_WND {
      ChunksOk(rest);
      FlattenAppend(queue, Chunks(rest));
      assert data == data[..room] + rest;
      assert data[..|data|] == data;
      assert Flatten(queue + Chunks(rest)) == Flatten(cb.sndQueue) + data;
    }
  }

  lemma SendKeeps(p: Party, data: seq<byte>, peerHist: seq<seq<byte>>)
    requires PartyOk(p, peerHist)
    ensures var q := PartySend(p, data);
            && PartyOk(q, peerHist) && Grows(p.cb, q.cb) && q.hist == p.hist && q.delivered == p.delivered
            && (forall sn :: InFlight(p.cb, sn) ==> InFlight(q.cb, sn))
  {
    SendAccepts(p.cb, data);
    var (c, n) := Send(p.cb, data);
    var got := if 0 <= n <= |data| then data[..n] else [];
    assert p.accepted + got == Flatten(p.hist) + (Flatten(p.cb.sndQueue) + got);
    SameReceiver(p.cb, c);
    SenderFrameInFlight(p.cb, c);
    LogFrame(p.log, p.cb, c, p.hist, p.hist);
  }

  /** A log stays sound when history and receiver state only grow. */
  lemma LogFrame(log: seq<seq<Wire>>, cb: Cb, cb': Cb, hist: seq<seq<byte>>, hist': seq<seq<byte>>)
    requires LogOk(log, cb, hist) && hist <= hist' && Grows(cb, cb')
    ensures LogOk(log, cb', hist')
  {
    forall i | 0 <= i < |log|
      ensures WiresOk(log[i], cb', hist')
    {
      WiresFrame(log[i], cb, cb', hist, hist');
    }
  }

  lemma WiresFrame(ws: seq<Wire>, cb: Cb, cb': Cb, hist: seq<seq<byte>>, hist': seq<seq<byte>>)
    requires WiresOk(ws, cb, hist) && hist <= hist' && Grows(cb, cb')
    ensures WiresOk(ws, cb', hist')
  {
  }

  /** The receiver half only ever gains segments. */
  ghost predicate Grows(cb: Cb, cb': Cb) {
    && cb'.conv == cb.conv && cb.rcvNxt <= cb'.rcvNxt
    && forall sn :: Held(cb, sn) ==> Held(cb', sn)
  }

  // ----------------------------------------------------------------- ikcp_recv

  lemma MoveOneOk(cb: Cb, hist: seq<seq<byte>>)
    requires ReceiverShape(cb, hist) && CanMove(cb)
    ensures ReceiverShape(MoveOne(Unbounded, cb), hist) && Grows(cb, MoveOne(Unbounded, cb))
  {
    var next := MoveOne(Unbounded, cb);
    forall sn | Held(cb, sn)
      ensures Held(next, sn)
    {
      if sn >= next.rcvNxt {
        var i :| 0 <= i < |cb.rcvBuf| && cb.rcvBuf[i].sn == sn;
        assert next.rcvBuf[i - 1].sn == sn;
      }
    }
  }

  /** Moving segments to the receive queue leaves nothing movable, loses nothing, and keeps the
      position of the queue in the peer's history. */
  lemma {:induction false} MoveReadyOk(cb: Cb, hist: seq<seq<byte>>)
    requires ReceiverShape(cb, hist)
    ensures var c := MoveReady(Unbounded, cb);
            && ReceiverOk(c, hist) && Grows(cb, c)
            && c.rcvNxt - |c.rcvQueue| == cb.rcvNxt - |cb.rcvQueue|
            && c == cb.(rcvBuf := c.rcvBuf, rcvQueue := c.rcvQueue, rcvNxt := c.rcvNxt)
    decreases |cb.rcvBuf|
  {
    if CanMove(cb) {
      MoveOneOk(cb, hist);
      MoveReadyOk(MoveOne(Unbounded, cb), hist);
    }
  }

  /** In stream mode every receive returns exactly the next queued segment. */
  lemma RecvTakesOne(cb: Cb, len: int, hist: seq<seq<byte>>)
    requires ReceiverOk(cb, hist)
    ensures var (c, n, out) := Recv(Unbounded, cb, len);
            if cb.rcvQueue == [] then n == -1 && c == cb && out == []
            else if |cb.rcvQueue[0].data| > (if len < 0 then -len else len) then n == -3 && c == cb && out == []
            else && n == |out| && out == cb.rcvQueue[0].data
                 && ReceiverOk(c, hist) && Grows(cb, c)
                 && c == cb.(rcvBuf := c.rcvBuf, rcvQueue := c.rcvQueue, rcvNxt := c.rcvNxt, tell := c.tell)
                 && c.rcvNxt - |c.rcvQueue| == cb.rcvNxt - |cb.rcvQueue| + (if len < 0 then 0 else 1)
  {
    if cb.rcvQueue != [] {
      var q := cb.rcvQueue;
      assert q[0].frg == 0;
      assert Payloads(q[..1]) == [q[0].data];
      FlattenOne(q[0].data);
      var taken := if len < 0 then cb else cb.(rcvQueue := q[1..]);
      assert InOrder(taken.rcvQueue, taken.rcvNxt - |taken.rcvQueue|, hist);
      MoveReadyOk(taken, hist);
    }
  }

  lemma RecvKeeps(p: Party, len: int, peerHist: seq<seq<byte>>)
    requires PartyOk(p, peerHist)
    ensures var q := PartyRecv(Unbounded, p, len);
            && PartyOk(q, peerHist) && Grows(p.cb, q.cb) && q.hist == p.hist && q.accepted == p.accepted
            && (forall sn :: InFlight(p.cb, sn) ==> InFlight(q.cb, sn))
  {
    RecvTakesOne(p.cb, len, peerHist);
    var (c, n, out) := Recv(Unbounded, p.cb, len);
    SenderFrameInFlight(p.cb, c);
    LogFrame(p.log, p.cb, c, p.hist, p.hist);
    if len >= 0 && n >= 0 {
      FlattenNext(peerHist, p.cb.rcvNxt - |p.cb.rcvQueue|);
    }
  }

  lemma FlattenNext(hist: seq<seq<byte>>, k: nat)
    requires k < |hist|
    ensures Flatten(hist[..k + 1]) == Flatten(hist[..k]) + hist[k]
  {
    assert hist[..k + 1] == hist[..k] + [hist[k]];
    FlattenSnoc(hist[..k], hist[k]);
  }

  // ---------------------------------------------------------------- ikcp_flush

  lemma AdmitOneOk(cb: Cb, hist: seq<seq<byte>>)
    requires SenderOk(cb, hist) && cb.sndQueue != [] && cb.sndNxt < cb.sndUna + SND_WND
    ensures SenderOk(AdmitOne(Unbounded, cb), hist + [cb.sndQueue[0]])
    ensures forall sn :: InFlight(cb, sn) || sn == |hist| ==> InFlight(AdmitOne(Unbounded, cb), sn)
  {
    var next := AdmitOne(Unbounded, cb);
    assert next.sndBuf[|cb.sndBuf|].sn == |hist|;
    forall sn | InFlight(cb, sn)
      ensures InFlight(next, sn)
    {
      var i :| 0 <= i < |cb.sndBuf| && cb.sndBuf[i].sn == sn;
      assert next.sndBuf[i].sn == sn;
    }
  }

  /** Admission numbers a prefix of the queue and appends it to buffer and history. */
  lemma {:induction false} AdmitOk(cb: Cb, cwnd: int, hist: seq<seq<byte>>)
    requires SenderOk(cb, hist) && cwnd <= SND_WND
    ensures var c := Admit(Unbounded, cb, cwnd);
            && |c.sndQueue| <= |cb.sndQueue|
            && var k := |cb.sndQueue| - |c.sndQueue|;
            && c.sndQueue == cb.sndQueue[k..]
            && SenderOk(c, hist + cb.sndQueue[..k])
            && c == cb.(sndQueue := c.sndQueue, sndBuf := c.sndBuf, sndNxt := c.sndNxt)
            && (forall sn :: InFlight(cb, sn) || |hist| <= sn < |hist| + k ==> InFlight(c, sn))
    decreases |cb.sndQueue|
  {
    if CanAdmit(Unbounded, cb, cwnd) {
      AdmitOneOk(cb, hist);
      var next, hist' := AdmitOne(Unbounded, cb), hist + [cb.sndQueue[0]];
      AdmitOk(next, cwnd, hist');
      var k := |next.sndQueue| - |Admit(Unbounded, next, cwnd).sndQueue|;
      assert hist' + next.sndQueue[..k] == hist + cb.sndQueue[..k + 1];
    } else {
      assert hist + cb.sndQueue[..0] == hist;
    }
  }

  lemma {:induction false} PushWiresOk(cb: Cb, i: nat, ch: FlushChoice, hist: seq<seq<byte>>)
    requires i <= |cb.sndBuf| && SenderOk(cb, hist) && 0 <= cb.rcvNxt
    ensures WiresOk(PushWires(cb, i, ch), cb, hist)
    decreases |cb.sndBuf| - i
  {
    if i < |cb.sndBuf| {
      PushWiresOk(cb, i + 1, ch, hist);
      assert GoodChunk(hist[cb.sndBuf[i].sn]);
    }
  }

  /** Everything one flush transmits is sound. */
  lemma FlushWiresOk(cb: Cb, ch: FlushChoice, hist: seq<seq<byte>>)
    requires SenderOk(cb, hist) && AcksOk(cb) && 0 <= cb.rcvNxt
    ensures var c := Admit(Unbounded, cb, EffectiveWindow(cb, ch));
            |c.sndQueue| <= |cb.sndQueue| &&
            WiresOk(FlushWires(Unbounded, cb, ch), c, hist + NewlyNumbered(cb, c))
  {
    var c := Admit(Unbounded, cb, EffectiveWindow(cb, ch));
    AdmitOk(cb, EffectiveWindow(cb, ch), hist);
    PushWiresOk(c, 0, ch, hist + NewlyNumbered(cb, c));
    SameReceiver(cb, c);
    ControlWiresOk(cb, ch, c, hist + NewlyNumbered(cb, c));
  }

  lemma ControlWiresOk(cb: Cb, ch: FlushChoice, c: Cb, hist: seq<seq<byte>>)
    requires AcksOk(cb) && 0 <= cb.rcvNxt && Grows(cb, c)
    ensures WiresOk(AckWires(cb, cb.acks) + ProbeWires(cb, ch), c, hist)
  {
    var acks, probes := AckWires(cb, cb.acks), ProbeWires(cb, ch);
    assert forall j :: 0 <= j < |acks| ==> acks[j] == AckWire(cb, cb.acks[j]) && Held(cb, cb.acks[j].sn);
    assert WiresOk(acks, c, hist);
    assert forall j :: 0 <= j < |probes| ==> probes[j].(cmd := CMD_ACK) == AckWire(cb, LastAck(cb.acks));
  }

  lemma PackedOk(ws: seq<Wire>, cb: Cb, hist: seq<seq<byte>>)
    requires WiresOk(ws, cb, hist)
    ensures LogOk(Pack([], ws), cb, hist)
  {
    PackSound([], ws);
    var ds := Pack([], ws);
    assert [] + ws == ws;
    forall i, j | 0 <= i < |ds| && 0 <= j < |ds[i]|
      ensures WireOk(ds[i][j], cb, hist)
    {
      UnpackedContains(ds, i, j);
    }
  }

  /** The sending half across a flush: nothing accepted or in flight is lost. */
  lemma FlushSender(cb: Cb, ch: FlushChoice, hist: seq<seq<byte>>)
    requires SenderOk(cb, hist) && cb.updated
    ensures var d := Flush(Unbounded, cb, ch).0;
            var hist' := hist + NewlyNumbered(cb, d);
            && SenderOk(d, hist')
            && Flatten(hist') + Flatten(d.sndQueue) == Flatten(hist) + Flatten(cb.sndQueue)
            && (forall sn :: InFlight(cb, sn) || |hist| <= sn < |hist'| ==> InFlight(d, sn))
  {
    var c := Admit(Unbounded, cb, EffectiveWindow(cb, ch));
    var d := Flush(Unbounded, cb, ch).0;
    AdmitOk(cb, EffectiveWindow(cb, ch), hist);
    var k := |cb.sndQueue| - |c.sndQueue|;
    var fresh' := NewlyNumbered(cb, d);
    assert fresh' == cb.sndQueue[..k];
    StampedOk(c, d, ch, hist + fresh');
    SplitFlatten(hist, fresh', c.sndQueue, cb.sndQueue);
  }

  lemma SplitFlatten(a: seq<seq<byte>>, b: seq<seq<byte>>, c: seq<seq<byte>>, bc: seq<seq<byte>>)
    requires |bc| == |b| + |c| && bc[..|b|] == b && bc[|b|..] == c
    ensures Flatten(a + b) + Flatten(c) == Flatten(a) + Flatten(bc)
  {
    assert bc == b + c;
    FlattenAppend(b, c);
    FlattenAppend(a, b);
    Associative(Flatten(a), Flatten(b), Flatten(c));
  }

  lemma Associative(x: seq<byte>, y: seq<byte>, z: seq<byte>)
    ensures (x + y) + z == x + (y + z)
  {
  }

  lemma FlushReceiver(cb: Cb, ch: FlushChoice, hist: seq<seq<byte>>)
    requires SenderOk(cb, hist)
    ensures var d := Flush(Unbounded, cb, ch).0;
            d == cb.(sndQueue := d.sndQueue, sndBuf := d.sndBuf, sndNxt := d.sndNxt, acks := d.acks, tell := d.tell)
            && (cb.updated ==> d.acks == [])
  {
    AdmitOk(cb, EffectiveWindow(cb, ch), hist);
  }

  lemma FlushLog(cb: Cb, ch: FlushChoice, hist: seq<seq<byte>>)
    requires SenderOk(cb, hist) && AcksOk(cb) && 0 <= cb.rcvNxt && cb.updated
    ensures var (d, sent) := Flush(Unbounded, cb, ch); LogOk(sent, d, hist + NewlyNumbered(cb, d))
  {
    var c := Admit(Unbounded, cb, EffectiveWindow(cb, ch));
    var (d, sent) := Flush(Unbounded, cb, ch);
    var hist' := hist + NewlyNumbered(cb, c);
    FlushWiresOk(cb, ch, hist);
    PackedOk(FlushWires(Unbounded, cb, ch), c, hist');
    SameReceiver(c, d);
    LogFrame(sent, c, d, hist', hist');
  }

  lemma ReceiverFrame(cb: Cb, d: Cb, hist: seq<seq<byte>>)
    requires ReceiverOk(cb, hist) && AcksOk(cb)
    requires d.rcvNxt == cb.rcvNxt && d.rcvBuf == cb.rcvBuf && d.rcvQueue == cb.rcvQueue
    ensures ReceiverOk(d, hist)
    ensures d.acks == [] || d.acks == cb.acks ==> AcksOk(d)
  {
    assert forall sn :: Held(cb, sn) ==> Held(d, sn);
  }

  /** A party is kept when its sending half, its new datagrams and its queued bytes are accounted for
      and its receiving half is untouched. */
  lemma SenderStepKeeps(p: Party, q: Party, sent: seq<seq<Wire>>, peerHist: seq<seq<byte>>)
    requires PartyOk(p, peerHist)
    requires q.cb == p.cb.(updated := q.cb.updated, sndQueue := q.cb.sndQueue, sndBuf := q.cb.sndBuf,
                           sndNxt := q.cb.sndNxt, acks := q.cb.acks, tell := q.cb.tell)
    requires q.cb.acks == [] || q.cb.acks == p.cb.acks
    requires SenderOk(q.cb, q.hist) && p.hist <= q.hist
    requires Flatten(q.hist) + Flatten(q.cb.sndQueue) == Flatten(p.hist) + Flatten(p.cb.sndQueue)
    requires q.accepted == p.accepted && q.delivered == p.delivered
    requires q.log == p.log + sent && LogOk(sent, q.cb, q.hist)
    ensures PartyOk(q, peerHist) && Grows(p.cb, q.cb)
  {
    SameReceiver(p.cb, q.cb);
    ReceiverFrame(p.cb, q.cb, peerHist);
    LogFrame(p.log, p.cb, q.cb, p.hist, q.hist);
  }

  lemma UpdateKeeps(p: Party, due: bool, ch: FlushChoice, peerHist: seq<seq<byte>>)
    requires PartyOk(p, peerHist)
    ensures var q := PartyUpdate(Unbounded, p, due, ch);
            && PartyOk(q, peerHist) && Grows(p.cb, q.cb)
            && p.hist <= q.hist && q.accepted == p.accepted && q.delivered == p.delivered
            && (forall sn :: InFlight(p.cb, sn) || |p.hist| <= sn < |q.hist| ==> InFlight(q.cb, sn))
  {
    var ready := p.cb.(updated := true);
    var q := PartyUpdate(Unbounded, p, due, ch);
    assert forall sn :: InFlight(p.cb, sn) ==> InFlight(ready, sn);
    SameReceiver(p.cb, ready);
    if due {
      FlushSender(ready, ch, p.hist);
      FlushReceiver(ready, ch, p.hist);
      FlushLog(ready, ch, p.hist);
      SenderStepKeeps(p, q, Flush(Unbounded, ready, ch).1, peerHist);
    } else {
      assert p.hist + p.cb.sndQueue[..0] == p.hist && p.log + [] == p.log;
      SenderStepKeeps(p, q, [], peerHist);
    }
  }

  /** Transmission changes only the counters of the send buffer. */
  lemma StampedOk(c: Cb, d: Cb, ch: FlushChoice, hist: seq<seq<byte>>)
    requires SenderOk(c, hist)
    requires d == c.(acks := [], tell := false, sndBuf := Stamped(c.sndBuf, ch))
    ensures SenderOk(d, hist)
    ensures forall sn :: InFlight(c, sn) ==> InFlight(d, sn)
  {
    forall sn | InFlight(c, sn)
      ensures InFlight(d, sn)
    {
      var i :| 0 <= i < |c.sndBuf| && c.sndBuf[i].sn == sn;
      assert d.sndBuf[i].sn == sn;
    }
  }

  lemma SameReceiver(a: Cb, b: Cb)
    requires a.conv == b.conv && a.rcvNxt == b.rcvNxt && a.rcvBuf == b.rcvBuf
    ensures Grows(a, b) && Grows(b, a)
  {
    assert forall sn :: Held(a, sn) <==> Held(b, sn);
  }

  // ---------------------------------------------------------------- ikcp_input

  lemma {:induction false} DropBelowOk(buf: seq<OutSeg>, una: int)
    requires SortedOut(buf)
    ensures var r := DropBelow(Unbounded, buf, una);
            && |r| <= |buf| && r == buf[|buf| - |r|..]
            && (forall i :: 0 <= i < |buf| - |r| ==> buf[i].sn < una)
  {
    if buf != [] && una - buf[0].sn > 0 {
      DropBelowOk(buf[1..], una);
      var r := DropBelow(Unbounded, buf, una);
      assert forall i :: 0 < i < |buf| - |r| ==> buf[i] == buf[1..][i - 1];
    }
  }

  lemma ConsSorted(first: OutSeg, rest: seq<OutSeg>)
    requires SortedOut(rest) && forall s :: s in rest ==> first.sn < s.sn
    ensures SortedOut([first] + rest)
  {
  }

  lemma TailAfterHead(buf: seq<OutSeg>)
    requires SortedOut(buf) && buf != []
    ensures SortedOut(buf[1..]) && forall s :: s in buf[1..] ==> buf[0].sn < s.sn
    ensures forall s :: s in buf <==> s == buf[0] || s in buf[1..]
  {
    assert buf == [buf[0]] + buf[1..];
  }

  lemma {:induction false} DropAckedOk(buf: seq<OutSeg>, sn: int)
    requires SortedOut(buf)
    ensures var r := DropAcked(Unbounded, buf, sn);
            && SortedOut(r) && |r| <= |buf| && (forall s :: s in r ==> s in buf)
            && (forall s :: s in buf && s.sn != sn ==> s in r)
  {
    if buf != [] {
      TailAfterHead(buf);
      if buf[0].sn != sn && sn - buf[0].sn >= 0 {
        DropAckedOk(buf[1..], sn);
        ConsSorted(buf[0], DropAcked(Unbounded, buf[1..], sn));
      }
    }
  }

  /** Removing acknowledged segments from the send buffer keeps the sending half and conservation,
      provided the receiver holds whatever was removed. */
  lemma ShrinkKeeps(cb: Cb, buf: seq<OutSeg>, hist: seq<seq<byte>>, peer: Cb)
    requires SenderOk(cb, hist) && Conserved(cb, peer, hist)
    requires SortedOut(buf) && forall i :: 0 <= i < |buf| ==> buf[i] in cb.sndBuf
    requires forall s :: s in cb.sndBuf && s !in buf ==> Held(peer, s.sn)
    ensures var c := ShrinkBuf(cb.(sndBuf := buf)); SenderOk(c, hist) && Conserved(c, peer, hist)
  {
    var c := ShrinkBuf(cb.(sndBuf := buf));
    forall sn | 0 <= sn < |hist|
      ensures InFlight(c, sn) || Held(peer, sn)
    {
      if InFlight(cb, sn) {
        var i :| 0 <= i < |cb.sndBuf| && cb.sndBuf[i].sn == sn;
        assert cb.sndBuf[i] in cb.sndBuf;
        if cb.sndBuf[i] in buf {
          var j :| 0 <= j < |buf| && buf[j] == cb.sndBuf[i];
          assert c.sndBuf[j].sn == sn;
        }
      }
    }
  }

  lemma UnaKeeps(cb: Cb, una: int, hist: seq<seq<byte>>, peer: Cb)
    requires SenderOk(cb, hist) && Conserved(cb, peer, hist) && una <= peer.rcvNxt
    ensures var c := ShrinkBuf(ParseUna(Unbounded, cb, una)); SenderOk(c, hist) && Conserved(c, peer, hist)
  {
    DropBelowOk(cb.sndBuf, una);
    ShrinkKeeps(cb, DropBelow(Unbounded, cb.sndBuf, una), hist, peer);
  }

  lemma AckKeeps(cb: Cb, sn: int, hist: seq<seq<byte>>, peer: Cb)
    requires SenderOk(cb, hist) && Conserved(cb, peer, hist) && Held(peer, sn)
    ensures var c := ShrinkBuf(ParseAck(Unbounded, cb, sn)); SenderOk(c, hist) && Conserved(c, peer, hist)
  {
    DropAckedOk(cb.sndBuf, sn);
    ShrinkKeeps(cb, ParseAck(Unbounded, cb, sn).sndBuf, hist, peer);
  }

  lemma SnocSorted(front: seq<InSeg>, last: InSeg)
    requires SortedIn(front) && forall s :: s in front ==> s.sn < last.sn
    ensures SortedIn(front + [last])
  {
  }

  lemma FrontBeforeLast(buf: seq<InSeg>)
    requires SortedIn(buf) && buf != []
    ensures var front, last := buf[..|buf| - 1], buf[|buf| - 1];
            && SortedIn(front) && (forall s :: s in front ==> s.sn < last.sn)
            && (forall s :: s in buf <==> s in front || s == last)
  {
    assert buf == buf[..|buf| - 1] + [buf[|buf| - 1]];
  }

  /** Insertion keeps the buffer sorted, adds the new segment, and loses nothing. */
  lemma {:induction false} InsertOk(buf: seq<InSeg>, seg: InSeg)
    requires SortedIn(buf)
    ensures var r := Insert(Unbounded, buf, seg);
            && SortedIn(r) && (forall s :: s in r ==> s in buf || s == seg)
            && (forall s :: s in buf ==> s in r)
            && (exists s :: s in r && s.sn == seg.sn)
    decreases |buf|
  {
    if buf == [] {
      assert seg in Insert(Unbounded, buf, seg);
    } else {
      FrontBeforeLast(buf);
      var front, last := buf[..|buf| - 1], buf[|buf| - 1];
      if last.sn == seg.sn {
        assert last in buf;
      } else if seg.sn - last.sn > 0 {
        SnocSorted(buf, seg);
        assert seg in buf + [seg];
      } else {
        InsertOk(front, seg);
        SnocSorted(Insert(Unbounded, front, seg), last);
      }
    }
  }

  lemma InsertHolds(cb: Cb, seg: InSeg, sn: int)
    requires SortedIn(cb.rcvBuf) && (Held(cb, sn) || sn == seg.sn)
    ensures Held(cb.(rcvBuf := Insert(Unbounded, cb.rcvBuf, seg)), sn)
  {
    InsertOk(cb.rcvBuf, seg);
    var r := Insert(Unbounded, cb.rcvBuf, seg);
    if sn >= cb.rcvNxt {
      var s: InSeg;
      if sn == seg.sn {
        s :| s in r && s.sn == sn;
      } else {
        var i :| 0 <= i < |cb.rcvBuf| && cb.rcvBuf[i].sn == sn;
        s := cb.rcvBuf[i];
      }
      assert s in r;
    }
  }

  lemma {:induction false} InsertStorable(buf: seq<InSeg>, seg: InSeg, rcvNxt: int, hist: seq<seq<byte>>)
    requires Storable(seg, rcvNxt, hist) && AllStorable(buf, rcvNxt, hist)
    ensures AllStorable(Insert(Unbounded, buf, seg), rcvNxt, hist)
    decreases |buf|
  {
    if buf != [] {
      InsertStorable(buf[..|buf| - 1], seg, rcvNxt, hist);
      assert Storable(buf[|buf| - 1], rcvNxt, hist);
    }
  }

  lemma InsertShape(cb: Cb, seg: InSeg, hist: seq<seq<byte>>)
    requires ReceiverShape(cb, hist) && Storable(seg, cb.rcvNxt, hist)
    ensures ReceiverShape(cb.(rcvBuf := Insert(Unbounded, cb.rcvBuf, seg)), hist)
  {
    InsertSorted(cb.rcvBuf, seg);
    InsertStorable(cb.rcvBuf, seg, cb.rcvNxt, hist);
  }

  lemma InsertSorted(buf: seq<InSeg>, seg: InSeg)
    requires SortedIn(buf)
    ensures SortedIn(Insert(Unbounded, buf, seg))
  {
    InsertOk(buf, seg);
  }

  lemma ParseDataKeeps(cb: Cb, seg: InSeg, hist: seq<seq<byte>>)
    requires ReceiverOk(cb, hist)
    requires Storable(seg, cb.rcvNxt, hist)
    ensures var c := ParseData(Unbounded, cb, seg);
            && ReceiverOk(c, hist) && Grows(cb, c) && Held(c, seg.sn)
            && c.rcvNxt - |c.rcvQueue| == cb.rcvNxt - |cb.rcvQueue|
            && c == cb.(rcvBuf := c.rcvBuf, rcvQueue := c.rcvQueue, rcvNxt := c.rcvNxt)
  {
    var stored := cb.(rcvBuf := Insert(Unbounded, cb.rcvBuf, seg));
    forall sn | Held(cb, sn) || sn == seg.sn
      ensures Held(stored, sn)
    {
      InsertHolds(cb, seg, sn);
    }
    InsertShape(cb, seg, hist);
    MoveReadyOk(stored, hist);
  }

  /** A data segment is acknowledged only when it is, or is about to be, held. */
  lemma PushKeeps(cb: Cb, w: Wire, hist: seq<seq<byte>>)
    requires ReceiverOk(cb, hist) && AcksOk(cb)
    requires 0 <= w.sn < |hist| && w.data == hist[w.sn] && w.frg == 0 && 0 <= w.ts < TWO32
    ensures var c := InputPush(Unbounded, cb, w);
            && ReceiverOk(c, hist) && AcksOk(c) && Grows(cb, c)
            && c.rcvNxt - |c.rcvQueue| == cb.rcvNxt - |cb.rcvQueue|
            && c == cb.(acks := c.acks, rcvBuf := c.rcvBuf, rcvQueue := c.rcvQueue, rcvNxt := c.rcvNxt)
  {
    if w.sn - (cb.rcvNxt + RCV_WND) < 0 {
      var acked := cb.(acks := cb.acks + [Ack(w.sn, w.ts)]);
      SameReceiver(cb, acked);
      if w.sn - cb.rcvNxt >= 0 {
        ParseDataKeeps(acked, InSeg(w.sn, w.frg, w.data), hist);
      }
    }
  }

  /** One received segment: both directions of the connection are kept. */
  lemma InputSegKeeps(cb: Cb, w: Wire, hist: seq<seq<byte>>, peer: Cb, peerHist: seq<seq<byte>>)
    requires SenderOk(cb, hist) && Conserved(cb, peer, hist)
    requires ReceiverOk(cb, peerHist) && AcksOk(cb)
    requires WireOk(w, peer, peerHist)
    ensures var c := InputSeg(Unbounded, cb, w);
            && SenderOk(c, hist) && Conserved(c, peer, hist)
            && ReceiverOk(c, peerHist) && AcksOk(c) && Grows(cb, c)
            && c.rcvNxt - |c.rcvQueue| == cb.rcvNxt - |cb.rcvQueue|
            && c.sndQueue == cb.sndQueue && c.sndNxt == cb.sndNxt && c.updated == cb.updated
            && |c.sndBuf| <= |cb.sndBuf| && 0 <= c.rmtWnd <= RCV_WND
  {
    var told := cb.(rmtWnd := w.wnd);
    assert forall sn :: InFlight(cb, sn) ==> InFlight(told, sn);
    UnaKeeps(told, w.una, hist, peer);
    var c := ShrinkBuf(ParseUna(Unbounded, told, w.una));
    DropBelowOk(told.sndBuf, w.una);
    SameReceiver(cb, c);
    ReceiverFrame(cb, c, peerHist);
    if w.cmd == CMD_ACK {
      AckKeeps(c, w.sn, hist, peer);
      var d := ShrinkBuf(ParseAck(Unbounded, c, w.sn));
      DropAckedOk(c.sndBuf, w.sn);
      SameReceiver(c, d);
      ReceiverFrame(c, d, peerHist);
    } else if w.cmd == CMD_PUSH {
      PushKeeps(c, w, peerHist);
      SenderFrame(c, InputPush(Unbounded, c, w), hist, peer);
    } else if w.cmd == CMD_WASK {
      var d := c.(tell := true);
      SameReceiver(c, d);
      ReceiverFrame(c, d, peerHist);
      SenderFrame(c, d, hist, peer);
    }
  }

  lemma SenderFrame(cb: Cb, d: Cb, hist: seq<seq<byte>>, peer: Cb)
    requires SenderOk(cb, hist) && Conserved(cb, peer, hist)
    requires d.sndUna == cb.sndUna && d.sndNxt == cb.sndNxt && d.sndBuf == cb.sndBuf && d.sndQueue == cb.sndQueue
    ensures SenderOk(d, hist) && Conserved(d, peer, hist)
  {
    assert forall sn :: InFlight(cb, sn) ==> InFlight(d, sn);
  }

  lemma {:induction false} InputSegsKeep(cb: Cb, ws: seq<Wire>, hist: seq<seq<byte>>, peer: Cb,
                                         peerHist: seq<seq<byte>>)
    requires SenderOk(cb, hist) && Conserved(cb, peer, hist)
    requires ReceiverOk(cb, peerHist) && AcksOk(cb)
    requires WiresOk(ws, peer, peerHist) && 0 <= cb.rmtWnd <= RCV_WND
    ensures var c := InputSegs(Unbounded, cb, ws);
            && SenderOk(c, hist) && Conserved(c, peer, hist)
            && ReceiverOk(c, peerHist) && AcksOk(c) && Grows(cb, c)
            && c.rcvNxt - |c.rcvQueue| == cb.rcvNxt - |cb.rcvQueue|
            && c.sndQueue == cb.sndQueue && c.sndNxt == cb.sndNxt && c.updated == cb.updated
            && |c.sndBuf| <= |cb.sndBuf| && 0 <= c.rmtWnd <= RCV_WND
    decreases |ws|
  {
    if ws != [] {
      InputSegKeeps(cb, ws[0], hist, peer, peerHist);
      InputSegsKeep(InputSeg(Unbounded, cb, ws[0]), ws[1..], hist, peer, peerHist);
    }
  }

  // -------------------------------------------------------------- whole runs

  lemma InitOk(conv: u32)
    ensures Inv(Init(conv))
  {
    var p := NewParty(conv);
    assert p.hist[..0] == [];
    assert PartyOk(p, p.hist);
  }

  /** Conservation survives when the sender keeps its buffer and the receiver only gains. */
  lemma ConservedGrows(sender: Cb, sender': Cb, receiver: Cb, receiver': Cb, hist: seq<seq<byte>>,
                       hist': seq<seq<byte>>)
    requires Conserved(sender, receiver, hist) && hist <= hist'
    requires forall sn :: InFlight(sender, sn) || |hist| <= sn < |hist'| ==> InFlight(sender', sn)
    requires Grows(receiver, receiver')
    ensures Conserved(sender', receiver', hist')
  {
  }

  lemma HistoryGrows(p: Party, hist: seq<seq<byte>>, hist': seq<seq<byte>>)
    requires PartyOk(p, hist) && hist <= hist'
    ensures PartyOk(p, hist')
  {
    var k := p.cb.rcvNxt - |p.cb.rcvQueue|;
    assert hist[..k] == hist'[..k];
  }

  /** A step of one party that grows both halves of the connection. */
  lemma PartyStepKeeps(p: Party, q: Party, p': Party)
    requires Pair(p, q)
    requires PartyOk(p', q.hist) && Grows(p.cb, p'.cb) && p.hist <= p'.hist
    requires forall sn :: InFlight(p.cb, sn) || |p.hist| <= sn < |p'.hist| ==> InFlight(p'.cb, sn)
    ensures Pair(p', q)
  {
    HistoryGrows(q, p.hist, p'.hist);
    ConservedGrows(p.cb, p'.cb, q.cb, q.cb, p.hist, p'.hist);
    ConservedGrows(q.cb, q.cb, p.cb, p'.cb, q.hist, q.hist);
  }

  lemma StepKeeps(s: Sys, a: Action)
    requires Inv(s)
    ensures Inv(Step(Unbounded, s, a))
  {
    var p, q := Get(s, a.side), Get(s, Other(a.side));
    match a
    case DoSend(i, data) =>
      SendKeeps(p, data, q.hist);
      PartyStepKeeps(p, q, PartySend(p, data));
      PutKeeps(s, i, PartySend(p, data));
    case DoRecv(i, len) =>
      RecvKeeps(p, len, q.hist);
      PartyStepKeeps(p, q, PartyRecv(Unbounded, p, len));
      PutKeeps(s, i, PartyRecv(Unbounded, p, len));
    case DoUpdate(i, due, ch) =>
      UpdateKeeps(p, due, ch, q.hist);
      PartyStepKeeps(p, q, PartyUpdate(Unbounded, p, due, ch));
      PutKeeps(s, i, PartyUpdate(Unbounded, p, due, ch));
    case DoInput(i, which) =>
      if which < |q.log| {
        InputKeeps(p, q, which);
      }
      PutKeeps(s, i, PartyInput(Unbounded, p, q, which));
  }

  lemma PutKeeps(s: Sys, i: Side, p: Party)
    requires Pair(p, Get(s, Other(i)))
    ensures Inv(Put(s, i, p))
  {
  }

  lemma SenderFrameInFlight(a: Cb, b: Cb)
    requires a.sndBuf == b.sndBuf
    ensures forall sn :: InFlight(a, sn) ==> InFlight(b, sn)
  {
  }

  lemma InputKeeps(p: Party, q: Party, which: nat)
    requires Pair(p, q) && which < |q.log|
    ensures var p' := PartyInput(Unbounded, p, q, which);
            && Pair(p', q) && p'.cb.sndQueue == p.cb.sndQueue && |p'.cb.sndBuf| <= |p.cb.sndBuf|
  {
    InputSegsKeep(p.cb, q.log[which], p.hist, q.cb, q.hist);
    var p' := PartyInput(Unbounded, p, q, which);
    LogFrame(p.log, p.cb, p'.cb, p.hist, p.hist);
    ConservedGrows(q.cb, q.cb, p.cb, p'.cb, q.hist, q.hist);
  }

  lemma {:induction false} RunKeeps(conv: u32, acts: seq<Action>)
    ensures Inv(Run(Unbounded, Init(conv), acts))
    decreases |acts|
  {
    if acts == [] {
      InitOk(conv);
    } else {
      RunKeeps(conv, acts[..|acts| - 1]);
      StepKeeps(Run(Unbounded, Init(conv), acts[..|acts| - 1]), acts[|acts| - 1]);
    }
  }

  /** Reliability: in every run the bytes delivered on each side are a prefix of the bytes accepted
      on the other. */
  lemma DeliveredIsPrefix(p: Party, q: Party)
    requires PartyOk(p, q.hist) && PartyOk(q, p.hist)
    ensures p.delivered <= q.accepted
  {
    FlattenPrefix(q.hist, p.cb.rcvNxt - |p.cb.rcvQueue|);
  }
}
