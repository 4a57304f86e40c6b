/** The 32-bit protocol behaves as the unbounded one on every run whose deliveries are clear. */
module KcpRefinement {
  import opened SerialNumbers
  import opened Bytes
  import opened KcpModel
  import opened KcpWire
  import opened KcpSystem
  import opened KcpInvariant

  // ------------------------------------------------------- the 32-bit shadow

  function W(x: int): int {
    Norm(Wrapping, x)
  }

  function OutShadow(buf: seq<OutSeg>): (r: seq<OutSeg>)
    ensures |r| == |buf| && forall i :: 0 <= i < |r| ==> r[i] == buf[i].(sn := W(buf[i].sn))
  {
    seq(|buf|, i requires 0 <= i < |buf| => buf[i].(sn := W(buf[i].sn)))
  }

  function InShadow(buf: seq<InSeg>): (r: seq<InSeg>)
    ensures |r| == |buf| && forall i :: 0 <= i < |r| ==> r[i] == buf[i].(sn := W(buf[i].sn))
  {
    seq(|buf|, i requires 0 <= i < |buf| => buf[i].(sn := W(buf[i].sn)))
  }

  function AckShadow(acks: seq<Ack>): (r: seq<Ack>)
    ensures |r| == |acks| && forall i :: 0 <= i < |r| ==> r[i] == acks[i].(sn := W(acks[i].sn))
  {
    seq(|acks|, i requires 0 <= i < |acks| => acks[i].(sn := W(acks[i].sn)))
  }

  function WireShadow(w: Wire): Wire {
    w.(sn := W(w.sn), una := W(w.una))
  }

  function WiresShadow(ws: seq<Wire>): (r: seq<Wire>)
    ensures |r| == |ws| && forall i :: 0 <= i < |r| ==> r[i] == WireShadow(ws[i])
  {
    seq(|ws|, i requires 0 <= i < |ws| => WireShadow(ws[i]))
  }

  function LogShadow(log: seq<seq<Wire>>): (r: seq<seq<Wire>>)
    ensures |r| == |log| && forall i :: 0 <= i < |r| ==> r[i] == WiresShadow(log[i])
  {
    seq(|log|, i requires 0 <= i < |log| => WiresShadow(log[i]))
  }

  function CbShadow(cb: Cb): Cb {
    cb.(sndUna := W(cb.sndUna), sndNxt := W(cb.sndNxt), rcvNxt := W(cb.rcvNxt), sndBuf := OutShadow(cb.sndBuf),
        rcvBuf := InShadow(cb.rcvBuf), rcvQueue := InShadow(cb.rcvQueue), acks := AckShadow(cb.acks))
  }

  function PartyShadow(p: Party): Party {
    p.(cb := CbShadow(p.cb), log := LogShadow(p.log))
  }

  /** Every sequence number reduced modulo 2^32; bytes and history unchanged. */
  function Shadow(s: Sys): Sys {
    Sys(PartyShadow(s.ini), PartyShadow(s.rsp))
  }

  // -------------------------------------------------------------- comparisons

  lemma DiffShadow(a: int, b: int, c: int)
    requires -TWO31 <= a - (b + c) < TWO31
    ensures Diff(Wrapping, W(a), W(b) + c) == a - (b + c)
  {
    assert W(b) + c == (b + c) - (b / TWO32) * TWO32;
    ModShift(W(a) - (b + c), b / TWO32);
    ModShift(a - (b + c), -(a / TWO32));
    assert W(a) - (W(b) + c) == (W(a) - (b + c)) + (b / TWO32) * TWO32;
    assert W(a) - (b + c) == (a - (b + c)) + -(a / TWO32) * TWO32;
    var d := a - (b + c);
    if d >= 0 {
      DivModUnique(d, 0, d);
    } else {
      DivModUnique(d, -1, d + TWO32);
    }
  }

  // ---------------------------------------------------------------- ikcp_recv

  lemma {:induction false} MessageLenShadow(q: seq<InSeg>)
    ensures MessageLen(InShadow(q)) == MessageLen(q)
  {
    if q != [] && q[0].frg != 0 {
      assert InShadow(q)[1..] == InShadow(q[1..]);
      MessageLenShadow(q[1..]);
    }
  }

  lemma PayloadsShadow(q: seq<InSeg>, n: nat)
    requires n <= |q|
    ensures Payloads(InShadow(q)[..n]) == Payloads(q[..n])
  {
  }

  lemma MoveOneShadow(cb: Cb)
    requires cb.rcvBuf != []
    ensures MoveOne(Wrapping, CbShadow(cb)) == CbShadow(MoveOne(Unbounded, cb))
  {
    var t, next := CbShadow(cb), MoveOne(Unbounded, cb);
    NormIncrement(cb.rcvNxt);
    assert t.rcvBuf[1..] == InShadow(next.rcvBuf);
    assert t.rcvQueue + [t.rcvBuf[0]] == InShadow(next.rcvQueue);
  }

  lemma {:induction false} MoveReadyShadow(cb: Cb, hist: seq<seq<byte>>)
    requires ReceiverShape(cb, hist)
    ensures MoveReady(Wrapping, CbShadow(cb)) == CbShadow(MoveReady(Unbounded, cb))
    decreases |cb.rcvBuf|
  {
    if cb.rcvBuf != [] {
      NormInjective(cb.rcvBuf[0].sn, cb.rcvNxt);
      if CanMove(cb) {
        MoveOneOk(cb, hist);
        MoveOneShadow(cb);
        MoveReadyShadow(MoveOne(Unbounded, cb), hist);
      }
    }
  }

  lemma PeekSizeShadow(cb: Cb)
    ensures PeekSize(CbShadow(cb)) == PeekSize(cb)
  {
    MessageLenShadow(cb.rcvQueue);
    PayloadsShadow(cb.rcvQueue, MessageLen(cb.rcvQueue));
  }

  lemma RecvShadow(cb: Cb, len: int, hist: seq<seq<byte>>)
    requires ReceiverOk(cb, hist)
    ensures var (c, n, out) := Recv(Unbounded, cb, len);
            Recv(Wrapping, CbShadow(cb), len) == (CbShadow(c), n, out)
  {
    PeekSizeShadow(cb);
    MessageLenShadow(cb.rcvQueue);
    var n := MessageLen(cb.rcvQueue);
    PayloadsShadow(cb.rcvQueue, n);
    if cb.rcvQueue != [] {
      assert cb.rcvQueue[0].frg == 0;
      var taken := if len < 0 then cb else cb.(rcvQueue := cb.rcvQueue[n..]);
      assert InOrder(taken.rcvQueue, taken.rcvNxt - |taken.rcvQueue|, hist);
      assert InShadow(cb.rcvQueue)[n..] == InShadow(cb.rcvQueue[n..]);
      MoveReadyShadow(taken, hist);
    }
  }

  // --------------------------------------------------------------- ikcp_flush

  lemma AdmitOneShadow(cb: Cb)
    requires cb.sndQueue != []
    ensures AdmitOne(Wrapping, CbShadow(cb)) == CbShadow(AdmitOne(Unbounded, cb))
  {
    NormIncrement(cb.sndNxt);
    assert OutShadow(cb.sndBuf) + [OutSeg(W(cb.sndNxt), 0, cb.sndQueue[0])]
        == OutShadow(cb.sndBuf + [OutSeg(cb.sndNxt, 0, cb.sndQueue[0])]);
  }

  lemma {:induction false} AdmitShadow(cb: Cb, cwnd: int, hist: seq<seq<byte>>)
    requires SenderOk(cb, hist) && 0 <= cwnd <= SND_WND
    ensures Admit(Wrapping, CbShadow(cb), cwnd) == CbShadow(Admit(Unbounded, cb, cwnd))
    decreases |cb.sndQueue|
  {
    DiffShadow(cb.sndNxt, cb.sndUna, cwnd);
    if CanAdmit(Unbounded, cb, cwnd) {
      AdmitOneOk(cb, hist);
      AdmitOneShadow(cb);
      AdmitShadow(AdmitOne(Unbounded, cb), cwnd, hist + [cb.sndQueue[0]]);
    }
  }

  lemma {:induction false} PushWiresShadow(cb: Cb, i: nat, ch: FlushChoice)
    requires i <= |cb.sndBuf|
    ensures PushWires(CbShadow(cb), i, ch) == WiresShadow(PushWires(cb, i, ch))
    decreases |cb.sndBuf| - i
  {
    if i < |cb.sndBuf| {
      PushWiresShadow(cb, i + 1, ch);
    }
  }

  lemma WiresShadowAppend(a: seq<Wire>, b: seq<Wire>)
    ensures WiresShadow(a + b) == WiresShadow(a) + WiresShadow(b)
  {
  }

  lemma AckWiresShadow(cb: Cb)
    ensures AckWires(CbShadow(cb), CbShadow(cb).acks) == WiresShadow(AckWires(cb, cb.acks))
  {
  }

  lemma ProbeWiresShadow(cb: Cb, ch: FlushChoice)
    ensures ProbeWires(CbShadow(cb), ch) == WiresShadow(ProbeWires(cb, ch))
  {
    assert W(0) == 0;
  }

  lemma FlushWiresShadow(cb: Cb, ch: FlushChoice, hist: seq<seq<byte>>)
    requires SenderOk(cb, hist) && 0 <= cb.rmtWnd
    ensures FlushWires(Wrapping, CbShadow(cb), ch) == WiresShadow(FlushWires(Unbounded, cb, ch))
  {
    var wnd := EffectiveWindow(cb, ch);
    AdmitShadow(cb, wnd, hist);
    var c := Admit(Unbounded, cb, wnd);
    PushWiresShadow(c, 0, ch);
    AckWiresShadow(cb);
    ProbeWiresShadow(cb, ch);
    WiresShadowAppend(AckWires(cb, cb.acks), ProbeWires(cb, ch));
    WiresShadowAppend(AckWires(cb, cb.acks) + ProbeWires(cb, ch), PushWires(c, 0, ch));
  }

  lemma {:induction false} SizeShadow(ws: seq<Wire>)
    ensures Size(WiresShadow(ws)) == Size(ws)
  {
    if ws != [] {
      assert WiresShadow(ws)[1..] == WiresShadow(ws[1..]);
      SizeShadow(ws[1..]);
    }
  }

  lemma {:induction false} PackShadow(cur: seq<Wire>, ws: seq<Wire>)
    ensures Pack(WiresShadow(cur), WiresShadow(ws)) == LogShadow(Pack(cur, ws))
    decreases |ws|
  {
    if ws == [] {
    } else {
      SizeShadow(cur);
      var t := WiresShadow(ws);
      assert t[1..] == WiresShadow(ws[1..]);
      if Size(cur) + WireSize(ws[0]) > MTU {
        assert [t[0]] == WiresShadow([ws[0]]);
        PackShadow([ws[0]], ws[1..]);
        assert Emit(WiresShadow(cur)) == LogShadow(Emit(cur));
        LogShadowAppend(Emit(cur), Pack([ws[0]], ws[1..]));
      } else {
        assert WiresShadow(cur) + [t[0]] == WiresShadow(cur + [ws[0]]);
        PackShadow(cur + [ws[0]], ws[1..]);
      }
    }
  }

  lemma LogShadowAppend(a: seq<seq<Wire>>, b: seq<seq<Wire>>)
    ensures LogShadow(a + b) == LogShadow(a) + LogShadow(b)
  {
  }

  lemma FlushShadow(cb: Cb, ch: FlushChoice, hist: seq<seq<byte>>)
    requires SenderOk(cb, hist) && 0 <= cb.rmtWnd
    ensures var (d, sent) := Flush(Unbounded, cb, ch);
            Flush(Wrapping, CbShadow(cb), ch) == (CbShadow(d), LogShadow(sent))
  {
    if cb.updated {
      var wnd := EffectiveWindow(cb, ch);
      AdmitShadow(cb, wnd, hist);
      FlushWiresShadow(cb, ch, hist);
      var c := Admit(Unbounded, cb, wnd);
      assert Stamped(OutShadow(c.sndBuf), ch) == OutShadow(Stamped(c.sndBuf, ch));
      assert AckShadow([]) == [];
      assert WiresShadow([]) == [];
      PackShadow([], FlushWires(Unbounded, cb, ch));
    } else {
      assert LogShadow([]) == [];
    }
  }

  // --------------------------------------------------------------- ikcp_input

  /** The 32-bit comparison judges `una` rightly: it is not behind, or its age modulo 2^32 is at most 2^31. */
  ghost predicate UnaClear(cb: Cb, una: int) {
    cb.sndBuf == [] || una >= cb.sndUna || (cb.sndUna - una) % TWO32 <= TWO31
  }

  /** The acknowledged number is not behind, or no unacknowledged segment has the same 32-bit number. */
  ghost predicate AckClear(cb: Cb, sn: int) {
    sn >= cb.sndUna || forall i :: 0 <= i < |cb.sndBuf| ==> W(cb.sndBuf[i].sn) != W(sn)
  }

  /** A buffered segment has this 32-bit number. */
  ghost predicate Buffered(buf: seq<InSeg>, sn: int) {
    exists i :: 0 <= i < |buf| && W(buf[i].sn) == W(sn)
  }

  /** A data segment is not behind, or its age modulo 2^32 lies between 1 and 2^31 minus the window, or the number
      it is taken for is already buffered. */
  ghost predicate DataClear(cb: Cb, sn: int) {
    sn >= cb.rcvNxt || 1 <= (cb.rcvNxt - sn) % TWO32 <= TWO31 - RCV_WND || Buffered(cb.rcvBuf, sn)
  }

  /** Every test that `ikcp_input` makes on the segment is clear. */
  ghost predicate SegClear(cb: Cb, w: Wire) {
    var c := ShrinkBuf(ParseUna(Unbounded, cb.(rmtWnd := w.wnd), w.una));
    UnaClear(cb, w.una) && (w.cmd == CMD_ACK ==> AckClear(c, w.sn)) && (w.cmd == CMD_PUSH ==> DataClear(c, w.sn))
  }

  /** Likewise for the segments of a datagram, one after the other. */
  ghost predicate Clear(cb: Cb, ws: seq<Wire>)
    decreases |ws|
  {
    ws == [] || (SegClear(cb, ws[0]) && Clear(InputSeg(Unbounded, cb, ws[0]), ws[1..]))
  }

  lemma {:induction false} DropBelowShadow(buf: seq<OutSeg>, una: int)
    requires forall i :: 0 <= i < |buf| ==> -TWO31 <= una - buf[i].sn < TWO31
    ensures DropBelow(Wrapping, OutShadow(buf), W(una)) == OutShadow(DropBelow(Unbounded, buf, una))
  {
    if buf != [] {
      DiffShadow(una, buf[0].sn, 0);
      if una - buf[0].sn > 0 {
        assert OutShadow(buf)[1..] == OutShadow(buf[1..]);
        DropBelowShadow(buf[1..], una);
      }
    }
  }

  lemma {:induction false} DropAckedShadow(buf: seq<OutSeg>, sn: int)
    requires forall i :: 0 <= i < |buf| ==> -TWO31 <= sn - buf[i].sn < TWO31
    ensures DropAcked(Wrapping, OutShadow(buf), W(sn)) == OutShadow(DropAcked(Unbounded, buf, sn))
  {
    if buf != [] {
      DiffShadow(sn, buf[0].sn, 0);
      NormInjective(buf[0].sn, sn);
      OutShadowRest(buf);
      DropAckedShadow(buf[1..], sn);
      OutShadowCons(buf[0], DropAcked(Unbounded, buf[1..], sn));
    }
  }

  lemma OutShadowRest(buf: seq<OutSeg>)
    requires buf != []
    ensures OutShadow(buf)[1..] == OutShadow(buf[1..])
  {
  }

  lemma OutShadowCons(seg: OutSeg, rest: seq<OutSeg>)
    ensures OutShadow([seg] + rest) == [seg.(sn := W(seg.sn))] + OutShadow(rest)
  {
  }

  /** The sign of the 32-bit difference to a number that is `age` behind. */
  lemma BehindDiff(a: int, b: int)
    requires a < b
    ensures var age := (b - a) % TWO32;
            Diff(Wrapping, W(a), W(b)) == if age == 0 then 0 else if age <= TWO31 then -age else TWO32 - age
  {
    DiffOfNorms(a, b);
    NegatedMod(b - a);
  }

  /** The sender drops what the unbounded protocol drops if and only if `una` is clear. */
  lemma UnaExact(cb: Cb, una: int, hist: seq<seq<byte>>)
    requires SenderOk(cb, hist) && una <= |hist|
    ensures ParseUna(Wrapping, CbShadow(cb), W(una)) == CbShadow(ParseUna(Unbounded, cb, una)) <==> UnaClear(cb, una)
  {
    if una >= cb.sndUna || cb.sndBuf == [] {
      DropBelowShadow(cb.sndBuf, una);
    } else {
      BehindDiff(una, cb.sndUna);
      var s := OutShadow(cb.sndBuf);
      DropBelowShorter(s, W(una));
    }
  }

  lemma {:induction false} DropBelowShorter(buf: seq<OutSeg>, una: int)
    ensures |DropBelow(Wrapping, buf, una)| <= |buf|
    ensures buf != [] && Diff(Wrapping, una, buf[0].sn) > 0 ==> |DropBelow(Wrapping, buf, una)| < |buf|
  {
    if buf != [] && Diff(Wrapping, una, buf[0].sn) > 0 {
      DropBelowShorter(buf[1..], una);
    }
  }

  lemma UnaShadow(cb: Cb, una: int, hist: seq<seq<byte>>)
    requires SenderOk(cb, hist) && una <= |hist| && UnaClear(cb, una)
    ensures ShrinkBuf(ParseUna(Wrapping, CbShadow(cb), W(una))) == CbShadow(ShrinkBuf(ParseUna(Unbounded, cb, una)))
  {
    UnaExact(cb, una, hist);
  }

  /** An acknowledgement inside the send window. */
  lemma AckInside(cb: Cb, sn: int, hist: seq<seq<byte>>)
    requires SenderOk(cb, hist) && cb.sndUna <= sn < |hist|
    ensures ParseAck(Wrapping, CbShadow(cb), W(sn)) == CbShadow(ParseAck(Unbounded, cb, sn))
  {
    forall i | 0 <= i < |cb.sndBuf|
      ensures -TWO31 <= sn - cb.sndBuf[i].sn < TWO31
    {
    }
    DropAckedShadow(cb.sndBuf, sn);
    AckTests(cb, sn);
  }

  /** Inside the send window both readings search the buffer. */
  lemma AckTests(cb: Cb, sn: int)
    requires cb.sndUna <= sn < cb.sndNxt <= cb.sndUna + SND_WND
    ensures ParseAck(Wrapping, CbShadow(cb), W(sn))
         == CbShadow(cb).(sndBuf := DropAcked(Wrapping, OutShadow(cb.sndBuf), W(sn)))
    ensures ParseAck(Unbounded, cb, sn) == cb.(sndBuf := DropAcked(Unbounded, cb.sndBuf, sn))
  {
    DiffShadow(sn, cb.sndUna, 0);
    DiffShadow(sn, cb.sndNxt, 0);
  }

  /** Dropping an acknowledged number shortens the buffer if and only if the number is in it. */
  lemma {:induction false} DropAckedLength(buf: seq<OutSeg>, sn: int)
    requires SortedOut(buf)
    ensures InBuf(buf, sn) ==> |DropAcked(Unbounded, buf, sn)| == |buf| - 1
    ensures !InBuf(buf, sn) ==> DropAcked(Unbounded, buf, sn) == buf
  {
    if buf != [] && buf[0].sn < sn {
      DropAckedLength(buf[1..], sn);
      assert buf == [buf[0]] + buf[1..];
      if InBuf(buf, sn) {
        var i :| 0 <= i < |buf| && buf[i].sn == sn;
        assert buf[1..][i - 1].sn == sn;
      }
    }
  }

  ghost predicate InBuf(buf: seq<OutSeg>, sn: int) {
    exists i :: 0 <= i < |buf| && buf[i].sn == sn
  }

  /** The number in the send window that an old number is taken for. */
  lemma TakenFor(cb: Cb, sn: int, hist: seq<seq<byte>>) returns (near: int)
    requires SenderOk(cb, hist) && sn < cb.sndUna
    ensures W(near) == W(sn) && cb.sndUna <= near < cb.sndUna + TWO32
    ensures near >= cb.sndNxt ==> ParseAck(Wrapping, CbShadow(cb), W(sn)) == CbShadow(cb)
  {
    var d := (sn - cb.sndUna) % TWO32;
    var q := (sn - cb.sndUna) / TWO32;
    near := cb.sndUna + d;
    assert near == sn + -q * TWO32;
    ModShift(sn, -q);
    DiffOfNorms(near, cb.sndUna);
    DivModUnique(near - cb.sndUna, 0, d);
    if near >= cb.sndNxt && d < TWO31 {
      DiffShadow(near, cb.sndNxt, 0);
    }
  }

  /** The sender drops the same segment as the unbounded protocol if and only if the acknowledgement is clear. */
  lemma AckExact(cb: Cb, sn: int, hist: seq<seq<byte>>)
    requires SenderOk(cb, hist) && sn < |hist|
    ensures ParseAck(Wrapping, CbShadow(cb), W(sn)) == CbShadow(ParseAck(Unbounded, cb, sn)) <==> AckClear(cb, sn)
  {
    if sn >= cb.sndUna {
      AckInside(cb, sn, hist);
    } else {
      var near := TakenFor(cb, sn, hist);
      SameNumber(cb, sn, near, hist);
      if near < cb.sndNxt {
        AckInside(cb, near, hist);
        DropAckedLength(cb.sndBuf, near);
      }
    }
  }

  /** An unacknowledged segment has the old 32-bit number exactly if it has the number it is taken for. */
  lemma SameNumber(cb: Cb, sn: int, near: int, hist: seq<seq<byte>>)
    requires SenderOk(cb, hist) && sn < cb.sndUna && W(near) == W(sn) && cb.sndUna <= near < cb.sndUna + TWO32
    ensures AckClear(cb, sn) <==> !InBuf(cb.sndBuf, near)
    ensures near >= cb.sndNxt ==> AckClear(cb, sn)
  {
    forall i | 0 <= i < |cb.sndBuf|
      ensures W(cb.sndBuf[i].sn) == W(sn) <==> cb.sndBuf[i].sn == near
    {
      NormInjective(cb.sndBuf[i].sn, near);
    }
  }

  lemma AckShadowed(cb: Cb, sn: int, hist: seq<seq<byte>>)
    requires SenderOk(cb, hist) && sn < |hist| && AckClear(cb, sn)
    ensures ShrinkBuf(ParseAck(Wrapping, CbShadow(cb), W(sn))) == CbShadow(ShrinkBuf(ParseAck(Unbounded, cb, sn)))
  {
    AckExact(cb, sn, hist);
  }

  lemma {:induction false} InsertShadow(buf: seq<InSeg>, seg: InSeg)
    requires forall i :: 0 <= i < |buf| ==> -TWO31 <= seg.sn - buf[i].sn < TWO31
    ensures Insert(Wrapping, InShadow(buf), seg.(sn := W(seg.sn))) == InShadow(Insert(Unbounded, buf, seg))
    decreases |buf|
  {
    if buf != [] {
      var front, last := buf[..|buf| - 1], buf[|buf| - 1];
      DiffShadow(seg.sn, last.sn, 0);
      NormInjective(last.sn, seg.sn);
      InShadowFront(buf);
      InShadowSnoc(buf, seg);
      InShadowSnoc(Insert(Unbounded, front, seg), last);
      InsertShadow(front, seg);
    }
  }

  lemma InShadowFront(buf: seq<InSeg>)
    requires buf != []
    ensures InShadow(buf)[..|buf| - 1] == InShadow(buf[..|buf| - 1])
  {
  }

  lemma InShadowSnoc(buf: seq<InSeg>, seg: InSeg)
    ensures InShadow(buf + [seg]) == InShadow(buf) + [seg.(sn := W(seg.sn))]
  {
  }

  /** A sender is never more than two windows ahead of its receiver. */
  lemma WindowBound(sender: Cb, receiver: Cb, hist: seq<seq<byte>>)
    requires SenderOk(sender, hist) && ReceiverShape(receiver, hist) && Conserved(sender, receiver, hist)
    ensures |hist| <= receiver.rcvNxt + RCV_WND + SND_WND
  {
    var sn := sender.sndUna - 1;
    if sn >= 0 {
      assert !InFlight(sender, sn);
      assert Held(receiver, sn);
    }
  }

  /** A data segment that is not behind the window. */
  lemma PushInside(cb: Cb, w: Wire, hist: seq<seq<byte>>)
    requires ReceiverOk(cb, hist) && |hist| <= cb.rcvNxt + RCV_WND + SND_WND
    requires cb.rcvNxt <= w.sn < |hist| && w.data == hist[w.sn] && w.frg == 0
    ensures InputPush(Wrapping, CbShadow(cb), WireShadow(w)) == CbShadow(InputPush(Unbounded, cb, w))
  {
    DiffShadow(w.sn, cb.rcvNxt, RCV_WND);
    DiffShadow(w.sn, cb.rcvNxt, 0);
    if w.sn - (cb.rcvNxt + RCV_WND) < 0 {
      var acked := cb.(acks := cb.acks + [Ack(w.sn, w.ts)]);
      AckAppended(cb, w);
      AcceptShadow(acked, InSeg(w.sn, w.frg, w.data), hist);
    }
  }

  /** The acknowledgement queued for a segment. */
  lemma AckAppended(cb: Cb, w: Wire)
    ensures AckShadow(cb.acks + [Ack(w.sn, w.ts)]) == AckShadow(cb.acks) + [Ack(W(w.sn), w.ts)]
  {
  }

  /** What the 32-bit tests decide about a segment `age` behind. */
  lemma BehindTests(sn: int, rcvNxt: int)
    requires sn < rcvNxt
    ensures var age := (rcvNxt - sn) % TWO32;
            var stored := if age == 0 then 0 else TWO32 - age;
            && (Diff(Wrapping, W(sn), W(rcvNxt)) < 0 <==> 1 <= age <= TWO31)
            && (Diff(Wrapping, W(sn), W(rcvNxt) + RCV_WND) < 0 <==> 1 <= age <= TWO31 - RCV_WND || stored < RCV_WND)
  {
    BehindDiff(sn, rcvNxt);
    var age := (rcvNxt - sn) % TWO32;
    var k := (rcvNxt - sn) / TWO32;
    var near := rcvNxt - age;
    assert sn == near + -k * TWO32;
    ModShift(near, -k);
    if age <= TWO31 - RCV_WND {
      DiffShadow(near, rcvNxt, RCV_WND);
    } else {
      ModShift(near, 1);
      DiffShadow(near + TWO32, rcvNxt, RCV_WND);
    }
  }

  /** Inserting a number that is buffered changes nothing; another one adds a segment. */
  lemma {:induction false} InsertLength(buf: seq<InSeg>, seg: InSeg)
    ensures HasNumber(buf, seg.sn) && SortedIn(buf) ==> Insert(Unbounded, buf, seg) == buf
    ensures !HasNumber(buf, seg.sn) ==> |Insert(Unbounded, buf, seg)| == |buf| + 1
    decreases |buf|
  {
    if buf != [] {
      var front, last := buf[..|buf| - 1], buf[|buf| - 1];
      InsertLength(front, seg);
      assert buf == front + [last];
      if HasNumber(buf, seg.sn) && last.sn != seg.sn {
        var i :| 0 <= i < |buf| && buf[i].sn == seg.sn;
        assert front[i].sn == seg.sn;
      }
    }
  }

  ghost predicate HasNumber(buf: seq<InSeg>, sn: int) {
    exists i :: 0 <= i < |buf| && buf[i].sn == sn
  }

  lemma ParseDataStores(cb: Cb, seg: InSeg)
    requires Diff(Wrapping, seg.sn, cb.rcvNxt + RCV_WND) < 0 && Diff(Wrapping, seg.sn, cb.rcvNxt) >= 0
    ensures ParseData(Wrapping, cb, seg) == MoveReady(Wrapping, cb.(rcvBuf := Insert(Wrapping, cb.rcvBuf, seg)))
  {
  }

  lemma InsertInside(cb: Cb, seg: InSeg, hist: seq<seq<byte>>)
    requires ReceiverShape(cb, hist) && cb.rcvNxt <= seg.sn < cb.rcvNxt + RCV_WND
    ensures Insert(Wrapping, InShadow(cb.rcvBuf), seg.(sn := W(seg.sn))) == InShadow(Insert(Unbounded, cb.rcvBuf, seg))
  {
    forall i | 0 <= i < |cb.rcvBuf|
      ensures -TWO31 <= seg.sn - cb.rcvBuf[i].sn < TWO31
    {
      assert Storable(cb.rcvBuf[i], cb.rcvNxt, hist);
    }
    InsertShadow(cb.rcvBuf, seg);
  }

  /** A number inside the window passes the tests and is inserted. */
  lemma StoreInside(cb: Cb, seg: InSeg, hist: seq<seq<byte>>)
    requires ReceiverShape(cb, hist) && cb.rcvNxt <= seg.sn < cb.rcvNxt + RCV_WND
    ensures ParseData(Wrapping, CbShadow(cb), seg.(sn := W(seg.sn)))
         == MoveReady(Wrapping, CbShadow(cb.(rcvBuf := Insert(Unbounded, cb.rcvBuf, seg))))
  {
    InsertInside(cb, seg, hist);
    StoreKnown(cb, seg, Insert(Unbounded, cb.rcvBuf, seg));
  }

  lemma StoreKnown(cb: Cb, seg: InSeg, inserted: seq<InSeg>)
    requires cb.rcvNxt <= seg.sn < cb.rcvNxt + RCV_WND
    requires Insert(Wrapping, InShadow(cb.rcvBuf), seg.(sn := W(seg.sn))) == InShadow(inserted)
    ensures ParseData(Wrapping, CbShadow(cb), seg.(sn := W(seg.sn)))
         == MoveReady(Wrapping, CbShadow(cb.(rcvBuf := inserted)))
  {
    DiffShadow(seg.sn, cb.rcvNxt, RCV_WND);
    DiffShadow(seg.sn, cb.rcvNxt, 0);
    ParseDataStores(CbShadow(cb), seg.(sn := W(seg.sn)));
    assert CbShadow(cb).(rcvBuf := InShadow(inserted)) == CbShadow(cb.(rcvBuf := inserted));
  }

  /** An old segment that is taken for `seg` inside the window: nothing happens if and only if that number is
      buffered. */
  lemma MistakenSegment(cb: Cb, seg: InSeg, hist: seq<seq<byte>>)
    requires ReceiverOk(cb, hist) && cb.rcvNxt <= seg.sn < cb.rcvNxt + RCV_WND
    ensures ParseData(Wrapping, CbShadow(cb), seg.(sn := W(seg.sn))) == CbShadow(cb) <==> HasNumber(cb.rcvBuf, seg.sn)
  {
    StoreInside(cb, seg, hist);
    InsertLength(cb.rcvBuf, seg);
    var stored := cb.(rcvBuf := Insert(Unbounded, cb.rcvBuf, seg));
    if HasNumber(cb.rcvBuf, seg.sn) {
      assert stored == cb;
      MoveReadyShadow(cb, hist);
    } else {
      MoveReadyTotal(Wrapping, CbShadow(stored));
    }
  }

  lemma SameBuffered(cb: Cb, sn: int, near: int, hist: seq<seq<byte>>)
    requires ReceiverOk(cb, hist) && W(near) == W(sn) && cb.rcvNxt <= near < cb.rcvNxt + TWO32
    ensures Buffered(cb.rcvBuf, sn) <==> HasNumber(cb.rcvBuf, near)
  {
    forall i | 0 <= i < |cb.rcvBuf|
      ensures W(cb.rcvBuf[i].sn) == W(sn) <==> cb.rcvBuf[i].sn == near
    {
      NormInjective(cb.rcvBuf[i].sn, near);
    }
  }

  /** The number behind the window is taken for `near` when it is taken for a new one. */
  lemma NearNumber(sn: int, rcvNxt: int) returns (near: int)
    requires sn < rcvNxt
    ensures W(near) == W(sn) && rcvNxt <= near < rcvNxt + TWO32
    ensures var age := (rcvNxt - sn) % TWO32; near == rcvNxt + (if age == 0 then 0 else TWO32 - age)
  {
    var age, k := (rcvNxt - sn) % TWO32, (rcvNxt - sn) / TWO32;
    var turns := if age == 0 then k else k + 1;
    near := sn + turns * TWO32;
    ModShift(sn, turns);
  }

  /** What the code does with a data segment, by the outcome of its two tests. */
  lemma PushCases(cb: Cb, w: Wire)
    ensures var acked := cb.(acks := cb.acks + [Ack(w.sn, w.ts)]);
            InputPush(Wrapping, cb, w) ==
            if Diff(Wrapping, w.sn, cb.rcvNxt + RCV_WND) >= 0 then cb
            else if Diff(Wrapping, w.sn, cb.rcvNxt) < 0 then acked
            else ParseData(Wrapping, acked, InSeg(w.sn, w.frg, w.data))
  {
  }

  /** A data segment behind the window. */
  lemma PushBehind(cb: Cb, w: Wire, hist: seq<seq<byte>>)
    requires ReceiverOk(cb, hist) && 0 <= w.sn < cb.rcvNxt && w.frg == 0
    ensures InputPush(Wrapping, CbShadow(cb), WireShadow(w)) == CbShadow(InputPush(Unbounded, cb, w))
         <==> DataClear(cb, w.sn)
  {
    var near := NearNumber(w.sn, cb.rcvNxt);
    BehindTests(w.sn, cb.rcvNxt);
    SameBuffered(cb, w.sn, near, hist);
    AckAppended(cb, w);
    PushCases(CbShadow(cb), WireShadow(w));
    var acked := cb.(acks := cb.acks + [Ack(w.sn, w.ts)]);
    assert InputPush(Unbounded, cb, w) == acked;
    assert |CbShadow(acked).acks| == |CbShadow(cb).acks| + 1;
    if near < cb.rcvNxt + RCV_WND {
      MistakenSegment(acked, InSeg(near, 0, w.data), hist);
    } else {
      assert !HasNumber(cb.rcvBuf, near);
    }
  }

  /** The receiver does what the unbounded one does if and only if the segment is clear. */
  lemma DataExact(cb: Cb, w: Wire, hist: seq<seq<byte>>)
    requires ReceiverOk(cb, hist) && |hist| <= cb.rcvNxt + RCV_WND + SND_WND
    requires 0 <= w.sn < |hist| && w.data == hist[w.sn] && w.frg == 0
    ensures InputPush(Wrapping, CbShadow(cb), WireShadow(w)) == CbShadow(InputPush(Unbounded, cb, w))
         <==> DataClear(cb, w.sn)
  {
    if w.sn >= cb.rcvNxt {
      PushInside(cb, w, hist);
    } else {
      PushBehind(cb, w, hist);
    }
  }

  /** Storing an accepted segment. */
  lemma AcceptShadow(cb: Cb, seg: InSeg, hist: seq<seq<byte>>)
    requires ReceiverOk(cb, hist) && cb.rcvNxt <= seg.sn < cb.rcvNxt + RCV_WND
    requires seg.sn < |hist| && seg.data == hist[seg.sn] && seg.frg == 0
    ensures ParseData(Wrapping, CbShadow(cb), seg.(sn := W(seg.sn))) == CbShadow(ParseData(Unbounded, cb, seg))
  {
    StoreInside(cb, seg, hist);
    InsertShape(cb, seg, hist);
    MoveReadyShadow(cb.(rcvBuf := Insert(Unbounded, cb.rcvBuf, seg)), hist);
  }

  lemma UnaSender(cb: Cb, una: int, hist: seq<seq<byte>>)
    requires SenderOk(cb, hist)
    ensures SenderOk(ShrinkBuf(ParseUna(Unbounded, cb, una)), hist)
  {
    DropBelowOk(cb.sndBuf, una);
  }

  lemma InputAckShadow(c: Cb, w: Wire, hist: seq<seq<byte>>, peer: Cb)
    requires SenderOk(c, hist) && ReceiverShape(peer, hist) && Held(peer, w.sn) && AckClear(c, w.sn)
    ensures ShrinkBuf(ParseAck(Wrapping, CbShadow(c), W(w.sn))) == CbShadow(ShrinkBuf(ParseAck(Unbounded, c, w.sn)))
  {
    AckShadowed(c, w.sn, hist);
  }

  /** On a clear segment the 32-bit code and the unbounded model do the same. */
  lemma InputSegShadow(cb: Cb, w: Wire, hist: seq<seq<byte>>, peer: Cb, peerHist: seq<seq<byte>>)
    requires SenderOk(cb, hist) && ReceiverOk(cb, peerHist)
    requires SenderOk(peer, peerHist) && ReceiverShape(peer, hist) && Conserved(peer, cb, peerHist)
    requires WireOk(w, peer, peerHist) && SegClear(cb, w)
    ensures InputSeg(Wrapping, CbShadow(cb), WireShadow(w)) == CbShadow(InputSeg(Unbounded, cb, w))
  {
    var told := cb.(rmtWnd := w.wnd);
    UnaShadow(told, w.una, hist);
    var c := ShrinkBuf(ParseUna(Unbounded, told, w.una));
    if w.cmd == CMD_ACK {
      UnaSender(told, w.una, hist);
      InputAckShadow(c, w, hist, peer);
    } else if w.cmd == CMD_PUSH {
      WindowBound(peer, cb, peerHist);
      DataExact(c, w, peerHist);
    }
  }

  lemma {:induction false} InputSegsShadow(cb: Cb, ws: seq<Wire>, hist: seq<seq<byte>>, peer: Cb,
                                           peerHist: seq<seq<byte>>)
    requires SenderOk(cb, hist) && Conserved(cb, peer, hist) && ReceiverOk(cb, peerHist) && AcksOk(cb)
    requires SenderOk(peer, peerHist) && ReceiverShape(peer, hist) && Conserved(peer, cb, peerHist)
    requires WiresOk(ws, peer, peerHist) && Clear(cb, ws)
    ensures InputSegs(Wrapping, CbShadow(cb), WiresShadow(ws)) == CbShadow(InputSegs(Unbounded, cb, ws))
    decreases |ws|
  {
    if ws != [] {
      InputSegShadow(cb, ws[0], hist, peer, peerHist);
      InputSegKeeps(cb, ws[0], hist, peer, peerHist);
      var c := InputSeg(Unbounded, cb, ws[0]);
      ConservedGrows(peer, peer, cb, c, peerHist, peerHist);
      assert WiresShadow(ws)[1..] == WiresShadow(ws[1..]);
      InputSegsShadow(c, ws[1..], hist, peer, peerHist);
    }
  }

  /** A clear datagram's bytes are accepted with result 0 and have the effect of its segments. */
  lemma ReceiveShadow(p: Party, q: Party, which: nat)
    requires PartyOk(p, q.hist) && PartyOk(q, p.hist) && p.cb.conv == q.cb.conv && which < |q.log|
    requires Conserved(p.cb, q.cb, p.hist) && Conserved(q.cb, p.cb, q.hist)
    requires Clear(p.cb, q.log[which])
    ensures Receive(Wrapping, CbShadow(p.cb), LogShadow(q.log)[which])
         == (CbShadow(Receive(Unbounded, p.cb, q.log[which]).0), 0)
  {
    var ws := q.log[which];
    assert WiresOk(ws, q.cb, q.hist) && ws != [];
    InputSegsShadow(p.cb, ws, p.hist, q.cb, q.hist);
    InputDecodesEncoding(CbShadow(p.cb), WiresShadow(ws));
  }

  // --------------------------------------------------------------- whole runs

  ghost predicate ClearAction(s: Sys, a: Action) {
    a.DoInput? ==>
      var p, q := Get(s, a.side), Get(s, Other(a.side));
      a.which < |q.log| ==> Clear(p.cb, q.log[a.which])
  }

  /** Every delivery of the run is clear when it happens. */
  ghost predicate ClearRun(s: Sys, acts: seq<Action>)
    decreases |acts|
  {
    acts == [] ||
    (ClearRun(s, acts[..|acts| - 1]) && ClearAction(Run(Unbounded, s, acts[..|acts| - 1]), acts[|acts| - 1]))
  }

  lemma SendShadow(p: Party, data: seq<byte>)
    ensures PartySend(PartyShadow(p), data) == PartyShadow(PartySend(p, data))
  {
  }

  lemma RecvPartyShadow(p: Party, len: int, peerHist: seq<seq<byte>>)
    requires ReceiverOk(p.cb, peerHist)
    ensures PartyRecv(Wrapping, PartyShadow(p), len) == PartyShadow(PartyRecv(Unbounded, p, len))
  {
    RecvShadow(p.cb, len, peerHist);
  }

  lemma InputPartyShadow(p: Party, q: Party, which: nat)
    requires PartyOk(p, q.hist) && PartyOk(q, p.hist) && p.cb.conv == q.cb.conv
    requires Conserved(p.cb, q.cb, p.hist) && Conserved(q.cb, p.cb, q.hist)
    requires which < |q.log| ==> Clear(p.cb, q.log[which])
    ensures PartyInput(Wrapping, PartyShadow(p), PartyShadow(q), which)
         == PartyShadow(PartyInput(Unbounded, p, q, which))
  {
    if which < |q.log| {
      ReceiveShadow(p, q, which);
    }
  }

  lemma StepShadow(s: Sys, a: Action)
    requires Inv(s) && ClearAction(s, a)
    ensures Step(Wrapping, Shadow(s), a) == Shadow(Step(Unbounded, s, a))
  {
    var p, q := Get(s, a.side), Get(s, Other(a.side));
    match a
    case DoSend(i, data) => SendShadow(p, data);
    case DoRecv(i, len) => RecvPartyShadow(p, len, q.hist);
    case DoUpdate(i, due, ch) => UpdateShadow(p, due, ch, q.hist);
    case DoInput(i, which) => InputPartyShadow(p, q, which);
  }

  lemma UpdateCbShadow(cb: Cb, due: bool, ch: FlushChoice, hist: seq<seq<byte>>)
    requires SenderOk(cb, hist) && 0 <= cb.rmtWnd
    ensures var (c, ds) := Update(Unbounded, cb, due, ch);
            Update(Wrapping, CbShadow(cb), due, ch) == (CbShadow(c), LogShadow(ds))
  {
    var ready := cb.(updated := true);
    assert CbShadow(ready) == CbShadow(cb).(updated := true);
    if due {
      FlushShadow(ready, ch, hist);
    }
  }

  lemma UpdateShadow(p: Party, due: bool, ch: FlushChoice, peerHist: seq<seq<byte>>)
    requires PartyOk(p, peerHist)
    ensures PartyUpdate(Wrapping, PartyShadow(p), due, ch) == PartyShadow(PartyUpdate(Unbounded, p, due, ch))
  {
    UpdateCbShadow(p.cb, due, ch, p.hist);
    var (c, ds) := Update(Unbounded, p.cb, due, ch);
    LogShadowAppend(p.log, ds);
    NumberedShadow(p.cb, c);
  }

  lemma NumberedShadow(before: Cb, after: Cb)
    ensures NewlyNumbered(CbShadow(before), CbShadow(after)) == NewlyNumbered(before, after)
  {
  }

  lemma InitShadow(conv: u32)
    ensures Shadow(Init(conv)) == Init(conv)
  {
    assert OutShadow([]) == [] && InShadow([]) == [] && AckShadow([]) == [] && LogShadow([]) == [];
    assert W(0) == 0;
  }

  /** The 32-bit run is the unbounded run with every number reduced modulo 2^32. */
  lemma {:induction false} RunRefines(conv: u32, acts: seq<Action>)
    requires ClearRun(Init(conv), acts)
    ensures Run(Wrapping, Init(conv), acts) == Shadow(Run(Unbounded, Init(conv), acts))
    decreases |acts|
  {
    if acts == [] {
      InitShadow(conv);
    } else {
      var before := acts[..|acts| - 1];
      RunRefines(conv, before);
      RunKeeps(conv, before);
      StepShadow(Run(Unbounded, Init(conv), before), acts[|acts| - 1]);
    }
  }
}
