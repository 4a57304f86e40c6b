/** What the operations of KCP are for: which segments a flush transmits, how far the windows let it go, what an
    incoming segment removes, stores and has acknowledged, and how bytes fill the queue. */
module KcpEffects {
  import opened Common
  import opened SerialNumbers
  import opened Bytes
  import opened KcpModel
  import opened KcpWire
  import opened KcpSystem
  import opened KcpInvariant
  import opened KcpRefinement
  import opened KcpFormat

  function AtLeastZero(x: int): nat {
    if x < 0 then 0 else x
  }

  /** The room for further segments in the receive queue, as every header announces it. */
  function Free(cb: Cb): int {
    AtLeastZero(128 - |cb.rcvQueue|)
  }

  // ---------------------------------------------------------------- ikcp_flush

  /** The segment at position `i` of the send buffer has to go out: for the first time or again. */
  predicate Due(buf: seq<OutSeg>, i: nat, ch: FlushChoice)
    requires i < |buf|
  {
    buf[i].xmit == 0 || i in ch.resend
  }

  function DataSegment(cb: Cb, s: OutSeg, now: int): Wire {
    Wire(cb.conv, 81, 0, Free(cb), now, s.sn, cb.rcvNxt, s.data)
  }

  ghost predicate Increasing(at: seq<nat>) {
    forall j, k :: 0 <= j < k < |at| ==> at[j] < at[k]
  }

  /** `at` lists exactly the positions from `i` on that are due. */
  ghost predicate DuePositions(buf: seq<OutSeg>, i: nat, ch: FlushChoice, at: seq<nat>) {
    && Increasing(at)
    && (forall k :: 0 <= k < |at| ==> i <= at[k] < |buf| && Due(buf, at[k], ch))
    && (forall k :: i <= k < |buf| && Due(buf, k, ch) ==> k in at)
  }

  ghost predicate DataOf(ws: seq<Wire>, cb: Cb, ch: FlushChoice, at: seq<nat>)
    requires DuePositions(cb.sndBuf, 0, ch, at)
  {
    |ws| == |at| && forall k :: 0 <= k < |at| ==> ws[k] == DataSegment(cb, cb.sndBuf[at[k]], ch.now)
  }

  lemma PositionsNext(buf: seq<OutSeg>, i: nat, ch: FlushChoice, rest: seq<nat>)
    requires i < |buf| && DuePositions(buf, i + 1, ch, rest)
    ensures DuePositions(buf, i, ch, if Due(buf, i, ch) then [i] + rest else rest)
  {
    if Due(buf, i, ch) {
      var at := [i] + rest;
      forall j, k | 0 <= j < k < |at|
        ensures at[j] < at[k]
      {
        assert at[k] == rest[k - 1];
      }
      forall k | i <= k < |buf| && Due(buf, k, ch)
        ensures k in at
      {
        assert k == i || k in rest;
      }
    }
  }

  lemma {:induction false} PushedFrom(cb: Cb, i: nat, ch: FlushChoice) returns (at: seq<nat>)
    requires i <= |cb.sndBuf|
    ensures DuePositions(cb.sndBuf, i, ch, at) && |PushWires(cb, i, ch)| == |at|
    ensures forall k :: 0 <= k < |at| ==> PushWires(cb, i, ch)[k] == DataSegment(cb, cb.sndBuf[at[k]], ch.now)
    decreases |cb.sndBuf| - i
  {
    if i == |cb.sndBuf| {
      at := [];
    } else {
      var rest := PushedFrom(cb, i + 1, ch);
      PositionsNext(cb.sndBuf, i, ch, rest);
      at := if Due(cb.sndBuf, i, ch) then [i] + rest else rest;
      PushedNext(cb, i, ch, rest);
    }
  }

  lemma PushedNext(cb: Cb, i: nat, ch: FlushChoice, rest: seq<nat>)
    requires i < |cb.sndBuf| && |PushWires(cb, i + 1, ch)| == |rest|
    requires forall k :: 0 <= k < |rest| ==> rest[k] < |cb.sndBuf|
    requires forall k :: 0 <= k < |rest| ==>
               PushWires(cb, i + 1, ch)[k] == DataSegment(cb, cb.sndBuf[rest[k]], ch.now)
    ensures var at := if Due(cb.sndBuf, i, ch) then [i] + rest else rest;
            && |PushWires(cb, i, ch)| == |at|
            && forall k :: 0 <= k < |at| ==> PushWires(cb, i, ch)[k] == DataSegment(cb, cb.sndBuf[at[k]], ch.now)
  {
    var more := PushWires(cb, i + 1, ch);
    if Due(cb.sndBuf, i, ch) {
      assert PushWires(cb, i, ch) == [DataSegment(cb, cb.sndBuf[i], ch.now)] + more;
    } else {
      assert PushWires(cb, i, ch) == more;
    }
  }

  /** The header of an acknowledgement or a probe. */
  ghost predicate IsControl(w: Wire, cb: Cb, cmd: int) {
    w.cmd == cmd && w.conv == cb.conv && w.frg == 0 && w.wnd == Free(cb) && w.una == cb.rcvNxt && w.data == []
  }

  /** What one flush of `cb` transmits, when `cb` has become `c` by numbering queued payloads: an acknowledgement for
      each pending one, in order; a question for the window if it is closed and one is due; an answer if one was
      asked for; and, each once and in order, exactly the data segments that are due. */
  ghost predicate Transmits(ws: seq<Wire>, cb: Cb, c: Cb, ch: FlushChoice, at: seq<nat>)
    requires DuePositions(c.sndBuf, 0, ch, at)
  {
    var n := |cb.acks|;
    var ask, tell := if cb.rmtWnd == 0 && ch.probeDue then 1 else 0, if cb.tell then 1 else 0;
    && |ws| == n + ask + tell + |at|
    && (forall k :: 0 <= k < n ==> IsControl(ws[k], cb, 82) && ws[k].sn == cb.acks[k].sn && ws[k].ts == cb.acks[k].ts)
    && (ask == 1 ==> IsControl(ws[n], cb, 83))
    && (tell == 1 ==> IsControl(ws[n + ask], cb, 84))
    && DataOf(ws[n + ask + tell..], c, ch, at)
  }

  /** The send buffer after the transmissions: those at `at` are counted. */
  ghost predicate Counted(buf: seq<OutSeg>, was: seq<OutSeg>, at: seq<nat>) {
    && |buf| == |was|
    && forall i :: 0 <= i < |buf| ==> buf[i] == was[i].(xmit := was[i].xmit + (if i in at then 1 else 0))
  }

  lemma WiresTransmit(m: Arith, cb: Cb, ch: FlushChoice, c: Cb) returns (at: seq<nat>)
    requires c == Admit(m, cb, EffectiveWindow(cb, ch)) && c.conv == cb.conv
    requires c.rcvNxt == cb.rcvNxt && c.rcvQueue == cb.rcvQueue
    ensures DuePositions(c.sndBuf, 0, ch, at) && Transmits(FlushWires(m, cb, ch), cb, c, ch, at)
    ensures Counted(Stamped(c.sndBuf, ch), c.sndBuf, at)
  {
    at := PushedFrom(c, 0, ch);
    var acks, probes, data := AckWires(cb, cb.acks), ProbeWires(cb, ch), PushWires(c, 0, ch);
    Assembled(acks, probes, data);
    assert acks + probes + data == FlushWires(m, cb, ch);
  }

  lemma Assembled(acks: seq<Wire>, probes: seq<Wire>, data: seq<Wire>)
    ensures var ws := acks + probes + data;
            && ws[|acks| + |probes|..] == data
            && (forall k :: 0 <= k < |acks| ==> ws[k] == acks[k])
            && (forall k :: 0 <= k < |probes| ==> ws[|acks| + k] == probes[k])
  {
  }

  lemma {:induction false} AdmitFrame(m: Arith, cb: Cb, cwnd: int)
    ensures var c := Admit(m, cb, cwnd);
            c == cb.(sndQueue := c.sndQueue, sndBuf := c.sndBuf, sndNxt := c.sndNxt)
    decreases |cb.sndQueue|
  {
    if CanAdmit(m, cb, cwnd) {
      AdmitFrame(m, AdmitOne(m, cb), cwnd);
    }
  }

  lemma {:induction false} AdmitSizes(m: Arith, cb: Cb, cwnd: int)
    requires GoodChunks(cb.sndQueue) && forall i :: 0 <= i < |cb.sndBuf| ==> |cb.sndBuf[i].data| <= MSS
    ensures forall i :: 0 <= i < |Admit(m, cb, cwnd).sndBuf| ==> |Admit(m, cb, cwnd).sndBuf[i].data| <= MSS
    decreases |cb.sndQueue|
  {
    if CanAdmit(m, cb, cwnd) {
      AdmitSizes(m, AdmitOne(m, cb), cwnd);
    }
  }

  /** A flush transmits exactly what is due, packed into datagrams without loss, and counts it. */
  lemma FlushTransmits(m: Arith, cb: Cb, ch: FlushChoice) returns (at: seq<nat>)
    requires cb.updated && GoodChunks(cb.sndQueue)
    requires forall i :: 0 <= i < |cb.sndBuf| ==> |cb.sndBuf[i].data| <= MSS
    ensures var (d, sent), c := Flush(m, cb, ch), Admit(m, cb, EffectiveWindow(cb, ch));
            && DuePositions(c.sndBuf, 0, ch, at) && Transmits(Unpacked(sent), cb, c, ch, at)
            && Counted(d.sndBuf, c.sndBuf, at) && d.acks == [] && !d.tell
  {
    var c := Admit(m, cb, EffectiveWindow(cb, ch));
    AdmitFrame(m, cb, EffectiveWindow(cb, ch));
    AdmitSizes(m, cb, EffectiveWindow(cb, ch));
    at := WiresTransmit(m, cb, ch, c);
    var ws := FlushWires(m, cb, ch);
    SmallWires(ws, cb, c, ch, at);
    PackSound([], ws);
    assert [] + ws == ws;
  }

  lemma SmallWires(ws: seq<Wire>, cb: Cb, c: Cb, ch: FlushChoice, at: seq<nat>)
    requires DuePositions(c.sndBuf, 0, ch, at) && Transmits(ws, cb, c, ch, at)
    requires forall i :: 0 <= i < |c.sndBuf| ==> |c.sndBuf[i].data| <= MSS
    ensures forall i :: 0 <= i < |ws| ==> |ws[i].data| <= MSS
  {
    var n, p := |cb.acks|, |ws| - |at|;
    forall i | 0 <= i < |ws|
      ensures |ws[i].data| <= MSS
    {
      if i < n {
        assert IsControl(ws[i], cb, 82);
      } else if i >= p {
        assert ws[i] == ws[p..][i - p] == DataSegment(c, c.sndBuf[at[i - p]], ch.now);
      }
    }
  }

  // ------------------------------------------------------------------- windows

  /** Payloads with consecutive numbers, not yet transmitted. */
  function Numbered(from: int, chunks: seq<seq<byte>>): (r: seq<OutSeg>)
    ensures |r| == |chunks| && forall i :: 0 <= i < |r| ==> r[i] == OutSeg(from + i, 0, chunks[i])
  {
    seq(|chunks|, i requires 0 <= i < |chunks| => OutSeg(from + i, 0, chunks[i]))
  }

  /** How many payloads the window admits. */
  function Admitted(cb: Cb, cwnd: int): (n: nat)
    ensures n <= |cb.sndQueue|
  {
    Min(|cb.sndQueue|, AtLeastZero(cb.sndUna + cwnd - cb.sndNxt))
  }

  /** Numbering stops exactly at the window or at the end of the queue. */
  lemma {:induction false} AdmitExact(cb: Cb, cwnd: int)
    ensures var n := Admitted(cb, cwnd);
            Admit(Unbounded, cb, cwnd)
            == cb.(sndQueue := cb.sndQueue[n..], sndBuf := cb.sndBuf + Numbered(cb.sndNxt, cb.sndQueue[..n]),
                   sndNxt := cb.sndNxt + n)
    decreases |cb.sndQueue|
  {
    var n := Admitted(cb, cwnd);
    if n > 0 {
      AdmitExact(AdmitOne(Unbounded, cb), cwnd);
      AdmitFirst(cb, n);
    } else {
      assert cb.sndBuf + Numbered(cb.sndNxt, cb.sndQueue[..0]) == cb.sndBuf;
    }
  }

  lemma AdmitFirst(cb: Cb, n: nat)
    requires 0 < n <= |cb.sndQueue|
    ensures var one := AdmitOne(Unbounded, cb);
            && one.sndQueue[n - 1..] == cb.sndQueue[n..]
            && one.sndBuf + Numbered(one.sndNxt, one.sndQueue[..n - 1])
               == cb.sndBuf + Numbered(cb.sndNxt, cb.sndQueue[..n])
  {
    var one := AdmitOne(Unbounded, cb);
    var rest, all := Numbered(one.sndNxt, one.sndQueue[..n - 1]), Numbered(cb.sndNxt, cb.sndQueue[..n]);
    assert [OutSeg(cb.sndNxt, 0, cb.sndQueue[0])] + rest == all;
  }

  /** The last window field that reached side `i`. */
  function LastWindow(s: Sys, acts: seq<Action>, i: Side): int
    decreases |acts|
  {
    if acts == [] then Get(s, i).cb.rmtWnd
    else
      var a, log := acts[|acts| - 1], Get(Run(Wrapping, s, acts[..|acts| - 1]), Other(i)).log;
      if a.DoInput? && a.side == i && a.which < |log| && log[a.which] != [] then
        log[a.which][|log[a.which]| - 1].wnd
      else LastWindow(s, acts[..|acts| - 1], i)
  }

  lemma {:induction false} MoveReadyFrame(m: Arith, cb: Cb)
    ensures var c := MoveReady(m, cb); c == cb.(rcvBuf := c.rcvBuf, rcvQueue := c.rcvQueue, rcvNxt := c.rcvNxt)
    decreases |cb.rcvBuf|
  {
    if CanMove(cb) {
      MoveReadyFrame(m, MoveOne(m, cb));
    }
  }

  lemma PushFrame(m: Arith, cb: Cb, w: Wire)
    ensures var c := InputPush(m, cb, w);
            c == cb.(acks := c.acks, rcvBuf := c.rcvBuf, rcvQueue := c.rcvQueue, rcvNxt := c.rcvNxt)
  {
    var acked := cb.(acks := cb.acks + [Ack(w.sn, w.ts)]);
    MoveReadyFrame(m, acked.(rcvBuf := Insert(m, acked.rcvBuf, InSeg(w.sn, w.frg, w.data))));
  }

  lemma InputWindow(m: Arith, cb: Cb, w: Wire)
    ensures InputSeg(m, cb, w).rmtWnd == w.wnd
  {
    PushFrame(m, ShrinkBuf(ParseUna(m, cb.(rmtWnd := w.wnd), w.una)), w);
  }

  /** After a datagram the remote window is the one in its last segment. */
  lemma {:induction false} InputWindows(m: Arith, cb: Cb, ws: seq<Wire>)
    requires ws != []
    ensures InputSegs(m, cb, ws).rmtWnd == ws[|ws| - 1].wnd
    decreases |ws|
  {
    var c := InputSeg(m, cb, ws[0]);
    InputWindow(m, cb, ws[0]);
    if |ws| > 1 {
      InputWindows(m, c, ws[1..]);
    } else {
      assert InputSegs(m, c, ws[1..]) == c;
    }
  }

  lemma StepWindow(s: Sys, a: Action, i: Side, conv: int)
    requires PartyEncodable(s.ini, conv) && PartyEncodable(s.rsp, conv)
    ensures var log := Get(s, Other(i)).log;
            Get(Step(Wrapping, s, a), i).cb.rmtWnd
            == if a.DoInput? && a.side == i && a.which < |log| && log[a.which] != [] then
                 log[a.which][|log[a.which]| - 1].wnd
               else Get(s, i).cb.rmtWnd
  {
    var p, q := Get(s, a.side), Get(s, Other(a.side));
    match a
    case DoSend(j, data) =>
    case DoRecv(j, len) =>
      var n := MessageLen(p.cb.rcvQueue);
      MoveReadyFrame(Wrapping, if len < 0 then p.cb else p.cb.(rcvQueue := p.cb.rcvQueue[n..]));
    case DoUpdate(j, due, ch) =>
      var ready := p.cb.(updated := true);
      AdmitFrame(Wrapping, ready, EffectiveWindow(ready, ch));
    case DoInput(j, which) =>
      if which < |q.log| {
        InputDecodesEncoding(p.cb, q.log[which]);
        InputWindows(Wrapping, p.cb, q.log[which]);
      }
  }

  /** In every run, clear or not, a side knows exactly the last window its peer's segments announced to it. */
  lemma {:induction false} WindowIsLast(conv: u32, acts: seq<Action>, i: Side)
    ensures Get(Run(Wrapping, Init(conv), acts), i).cb.rmtWnd == LastWindow(Init(conv), acts, i)
    decreases |acts|
  {
    if acts != [] {
      var before := acts[..|acts| - 1];
      WindowIsLast(conv, before, i);
      RunEncodable(conv, before);
      StepWindow(Run(Wrapping, Init(conv), before), acts[|acts| - 1], i, conv);
    }
  }

  /** How many payloads a flush may number: those that fit the least of the three windows, less what is in flight. */
  function Allowed(cb: Cb, ch: FlushChoice, window: int): nat {
    Min(|cb.sndQueue|, AtLeastZero(Min(ch.cwnd, Min(64, window)) - Diff(Wrapping, cb.sndNxt, cb.sndUna)))
  }

  /** `d` is `cb` after numbering and transmitting the first `n` payloads of its queue. */
  ghost predicate Numbers(cb: Cb, d: Cb, n: nat) {
    && n <= |cb.sndQueue| && d.sndQueue == cb.sndQueue[n..] && d.sndNxt == (cb.sndNxt + n) % TWO32
    && |d.sndBuf| == |cb.sndBuf| + n
    && forall k :: 0 <= k < n ==>
         d.sndBuf[|cb.sndBuf| + k] == OutSeg((cb.sndNxt + k) % TWO32, 1, cb.sndQueue[k])
  }

  /** Flow control, in every clear run: a flush numbers exactly as many payloads as the congestion window, the send
      window of 64 and the last window announced by the peer allow, in the order of the queue. */
  lemma FlowControl(conv: u32, acts: seq<Action>, i: Side, ch: FlushChoice)
    requires ClearRun(Init(conv), acts)
    ensures var cb := Get(Run(Wrapping, Init(conv), acts), i).cb;
            Numbers(cb, Update(Wrapping, cb, true, ch).0, Allowed(cb, ch, LastWindow(Init(conv), acts, i)))
  {
    RunKeeps(conv, acts);
    RunRefines(conv, acts);
    WindowIsLast(conv, acts, i);
    var p := Get(Run(Unbounded, Init(conv), acts), i);
    assert Get(Run(Wrapping, Init(conv), acts), i).cb == CbShadow(p.cb);
    FlowInside(p.cb, p.hist, ch);
  }

  lemma FlowInside(cb: Cb, hist: seq<seq<byte>>, ch: FlushChoice)
    requires SenderOk(cb, hist) && 0 <= cb.rmtWnd
    ensures var c := CbShadow(cb); Numbers(c, Update(Wrapping, c, true, ch).0, Allowed(c, ch, c.rmtWnd))
  {
    var ready, n := cb.(updated := true), Admitted(cb, EffectiveWindow(cb, ch));
    FlushShadow(ready, ch, hist);
    FlushNumbers(ready, ch);
    NumbersShadow(cb, Flush(Unbounded, ready, ch).0, n);
    assert CbShadow(ready) == CbShadow(cb).(updated := true);
    AllowedShadow(cb, ch);
  }

  lemma AllowedShadow(cb: Cb, ch: FlushChoice)
    requires 0 <= cb.sndUna <= cb.sndNxt <= cb.sndUna + SND_WND
    ensures Allowed(CbShadow(cb), ch, cb.rmtWnd) == Admitted(cb, EffectiveWindow(cb, ch))
  {
    DiffShadow(cb.sndNxt, cb.sndUna, 0);
  }

  ghost predicate NumbersUnbounded(cb: Cb, d: Cb, n: nat) {
    && n <= |cb.sndQueue| && d.sndQueue == cb.sndQueue[n..] && d.sndNxt == cb.sndNxt + n
    && |d.sndBuf| == |cb.sndBuf| + n
    && forall k :: 0 <= k < n ==> d.sndBuf[|cb.sndBuf| + k] == OutSeg(cb.sndNxt + k, 1, cb.sndQueue[k])
  }

  lemma FlushNumbers(cb: Cb, ch: FlushChoice)
    requires cb.updated
    ensures NumbersUnbounded(cb, Flush(Unbounded, cb, ch).0, Admitted(cb, EffectiveWindow(cb, ch)))
  {
    AdmitExact(cb, EffectiveWindow(cb, ch));
    var c := Admit(Unbounded, cb, EffectiveWindow(cb, ch));
    assert Flush(Unbounded, cb, ch).0 == c.(acks := [], tell := false, sndBuf := Stamped(c.sndBuf, ch));
  }

  lemma NumbersShadow(cb: Cb, d: Cb, n: nat)
    requires NumbersUnbounded(cb, d, n)
    ensures Numbers(CbShadow(cb), CbShadow(d), n)
  {
    var c, e := CbShadow(cb), CbShadow(d);
    NumberShadow(cb.sndNxt, n);
    forall k | 0 <= k < n
      ensures e.sndBuf[|c.sndBuf| + k] == OutSeg((c.sndNxt + k) % TWO32, 1, c.sndQueue[k])
    {
      NumberShadow(cb.sndNxt, k);
    }
  }

  lemma NumberShadow(x: int, k: int)
    ensures W(x + k) == (W(x) + k) % TWO32
  {
    ModShift(x + k, -(x / TWO32));
    assert W(x) + k == (x + k) + -(x / TWO32) * TWO32;
  }

  // ---------------------------------------------------------------- ikcp_input

  lemma {:induction false} DropBelowExact(buf: seq<OutSeg>, una: int)
    requires SortedOut(buf)
    ensures forall s :: s in DropBelow(Unbounded, buf, una) <==> s in buf && s.sn >= una
  {
    if buf != [] {
      TailAfterHead(buf);
      if una - buf[0].sn > 0 {
        DropBelowExact(buf[1..], una);
      }
    }
  }

  lemma {:induction false} DropAckedExact(buf: seq<OutSeg>, sn: int)
    requires SortedOut(buf)
    ensures forall s :: s in DropAcked(Unbounded, buf, sn) <==> s in buf && s.sn != sn
  {
    if buf != [] {
      TailAfterHead(buf);
      if sn - buf[0].sn > 0 {
        DropAckedExact(buf[1..], sn);
        var rest := DropAcked(Unbounded, buf[1..], sn);
        assert forall s :: s in DropAcked(Unbounded, buf, sn) <==> s == buf[0] || s in rest;
      }
    }
  }

  /** A segment leaves the send buffer exactly when the peer confirms it: by a cumulative acknowledgement above it, or
      by one of its own. */
  lemma ConfirmedLeave(cb: Cb, w: Wire, hist: seq<seq<byte>>)
    requires SenderOk(cb, hist)
    ensures forall s :: s in InputSeg(Unbounded, cb, w).sndBuf
                   <==> s in cb.sndBuf && s.sn >= w.una && !(w.cmd == 82 && s.sn == w.sn)
  {
    DropBelowExact(cb.sndBuf, w.una);
    DropBelowOk(cb.sndBuf, w.una);
    var buf := DropBelow(Unbounded, cb.sndBuf, w.una);
    assert SortedOut(buf);
    var c := ShrinkBuf(cb.(rmtWnd := w.wnd, sndBuf := buf));
    assert forall s :: s in buf ==> s.sn < c.sndNxt;
    if w.cmd == CMD_ACK {
      AckedLeave(c, w.sn);
      assert InputSeg(Unbounded, cb, w).sndBuf == ParseAck(Unbounded, c, w.sn).sndBuf;
    } else {
      PushFrame(Unbounded, c, w);
      assert InputSeg(Unbounded, cb, w).sndBuf == buf;
    }
  }

  lemma AckedLeave(c: Cb, sn: int)
    requires SortedOut(c.sndBuf) && c.sndUna == (if c.sndBuf == [] then c.sndNxt else c.sndBuf[0].sn)
    requires forall s :: s in c.sndBuf ==> s.sn < c.sndNxt
    ensures forall s :: s in ParseAck(Unbounded, c, sn).sndBuf <==> s in c.sndBuf && s.sn != sn
  {
    DropAckedExact(c.sndBuf, sn);
  }

  /** A data segment inside or behind the window is acknowledged with its own number and time, one beyond it is not,
      and nothing else is. */
  lemma AcknowledgesExactly(m: Arith, cb: Cb, w: Wire)
    ensures InputSeg(m, cb, w).acks
         == cb.acks + (if w.cmd == 81 && Diff(m, w.sn, cb.rcvNxt + 128) < 0 then [Ack(w.sn, w.ts)] else [])
  {
    var c := ShrinkBuf(ParseUna(m, cb.(rmtWnd := w.wnd), w.una));
    if w.cmd == CMD_PUSH && Diff(m, w.sn, cb.rcvNxt + 128) < 0 {
      var acked := c.(acks := c.acks + [Ack(w.sn, w.ts)]);
      MoveReadyFrame(m, acked.(rcvBuf := Insert(m, acked.rcvBuf, InSeg(w.sn, w.frg, w.data))));
    } else {
      assert cb.acks + [] == cb.acks;
    }
  }

  /** A question for the window is answered at the next flush; nothing else asks for an answer. */
  lemma AnswersExactly(m: Arith, cb: Cb, w: Wire)
    ensures InputSeg(m, cb, w).tell <==> cb.tell || w.cmd == 83
  {
    PushFrame(m, ShrinkBuf(ParseUna(m, cb.(rmtWnd := w.wnd), w.una)), w);
  }

  lemma {:induction false} MoveReadyHeld(cb: Cb, sn: int)
    ensures Held(MoveReady(Unbounded, cb), sn) ==> Held(cb, sn)
    decreases |cb.rcvBuf|
  {
    if CanMove(cb) {
      var next := MoveOne(Unbounded, cb);
      MoveReadyHeld(next, sn);
      if Held(next, sn) && sn >= next.rcvNxt {
        var i :| 0 <= i < |next.rcvBuf| && next.rcvBuf[i].sn == sn;
        assert cb.rcvBuf[i + 1].sn == sn;
      }
    }
  }

  /** The receiver gains exactly the data segment inside its window. */
  lemma HoldsExactly(cb: Cb, w: Wire, hist: seq<seq<byte>>, sn: int)
    requires ReceiverOk(cb, hist)
    requires w.cmd == 81 ==> 0 <= w.sn < |hist| && w.data == hist[w.sn] && w.frg == 0
    ensures Held(InputSeg(Unbounded, cb, w), sn)
       <==> Held(cb, sn) || (w.cmd == 81 && sn == w.sn && w.sn < cb.rcvNxt + 128)
  {
    var c := ShrinkBuf(ParseUna(Unbounded, cb.(rmtWnd := w.wnd), w.una));
    var d := InputSeg(Unbounded, cb, w);
    assert Held(c, sn) <==> Held(cb, sn);
    if w.cmd == CMD_PUSH && cb.rcvNxt <= w.sn < cb.rcvNxt + 128 {
      StoresExactly(c.(acks := c.acks + [Ack(w.sn, w.ts)]), InSeg(w.sn, 0, w.data), hist, sn);
    } else {
      assert d.rcvNxt == c.rcvNxt && d.rcvBuf == c.rcvBuf;
    }
  }

  lemma StoresExactly(cb: Cb, seg: InSeg, hist: seq<seq<byte>>, sn: int)
    requires ReceiverOk(cb, hist) && Storable(seg, cb.rcvNxt, hist)
    ensures Held(ParseData(Unbounded, cb, seg), sn) <==> Held(cb, sn) || sn == seg.sn
  {
    ParseDataKeeps(cb, seg, hist);
    var stored := cb.(rcvBuf := Insert(Unbounded, cb.rcvBuf, seg));
    MoveReadyHeld(stored, sn);
    if Held(stored, sn) && sn >= cb.rcvNxt {
      InsertOk(cb.rcvBuf, seg);
      var i :| 0 <= i < |stored.rcvBuf| && stored.rcvBuf[i].sn == sn;
      assert stored.rcvBuf[i] in stored.rcvBuf;
      if stored.rcvBuf[i] != seg {
        var j :| 0 <= j < |cb.rcvBuf| && cb.rcvBuf[j] == stored.rcvBuf[i];
      }
    }
  }

  // ----------------------------------------------------- ikcp_recv and ikcp_send

  /** Taking a message announces the window again exactly when it had been closed and is open now. */
  lemma RecvAnnounces(m: Arith, cb: Cb, len: nat)
    ensures var (c, n, out) := Recv(m, cb, len);
            if n < 0 then c == cb && out == []
            else (c.tell <==> cb.tell || (Free(cb) == 0 && Free(c) > 0))
  {
    MoveReadyFrame(m, cb.(rcvQueue := cb.rcvQueue[MessageLen(cb.rcvQueue)..]));
  }

  /** How many bytes still fit into the last queued segment. */
  function Gap(queue: seq<seq<byte>>): nat {
    if queue == [] then 0 else AtLeastZero(1376 - |queue[|queue| - 1]|)
  }

  /** How many of `len` bytes are accepted: all that complete the last segment and fill at most 127 more, or else only
      the former. */
  function Accepted(queue: seq<seq<byte>>, len: nat): (n: nat) {
    if len - Gap(queue) <= 127 * 1376 then len else Gap(queue)
  }

  lemma {:induction false} ChunksFull(data: seq<byte>)
    ensures forall k :: 0 <= k < |Chunks(data)| - 1 ==> |Chunks(data)[k]| == 1376
    decreases |data|
  {
    if |data| > MSS {
      ChunksFull(data[MSS..]);
      var rest := Chunks(data[MSS..]);
      assert forall k :: 1 <= k < |Chunks(data)| ==> Chunks(data)[k] == rest[k - 1];
    }
  }

  lemma CountBound(len: nat)
    ensures SegmentCount(len) >= RCV_WND <==> len > 127 * 1376
  {
  }

  /** Sending accepts exactly `Accepted` bytes, with the error -2 where that is none of some; it completes the last
      queued segment first, and leaves no segment behind it short except the new last one. */
  lemma SendFills(cb: Cb, data: seq<byte>)
    requires GoodChunks(cb.sndQueue)
    ensures var (c, n), k := Send(cb, data), Accepted(cb.sndQueue, |data|);
            && n == (if k == 0 && data != [] then -2 else k)
            && c == cb.(sndQueue := c.sndQueue) && Flatten(c.sndQueue) == Flatten(cb.sndQueue) + data[..k]
            && |c.sndQueue| >= |cb.sndQueue|
            && (forall j :: 0 <= j < |cb.sndQueue| - 1 ==> c.sndQueue[j] == cb.sndQueue[j])
            && (forall j :: |cb.sndQueue| - 1 <= j < |c.sndQueue| - 1 && 0 <= j ==> |c.sndQueue[j]| == 1376)
  {
    SendAccepts(cb, data);
    var room := Room(cb.sndQueue, data);
    CountBound(|data| - room);
    ChunksFull(data[room..]);
    FilledQueue(cb.sndQueue, data);
  }

  lemma FilledQueue(queue: seq<seq<byte>>, data: seq<byte>)
    requires GoodChunks(queue)
    ensures var room := Room(queue, data);
            var q := ExtendLast(queue, data[..room]);
            && |q| == |queue| && (forall j :: 0 <= j < |queue| - 1 ==> q[j] == queue[j])
            && room == Min(|data|, Gap(queue)) && (room < |data| && queue != [] ==> |q[|q| - 1]| == 1376)
  {
  }
}
