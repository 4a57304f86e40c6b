/** Every datagram of every run, fresh or not, fits the MTU and is understood by the peer. */
module KcpFormat {
  import opened SerialNumbers
  import opened KcpModel
  import opened KcpWire
  import opened KcpSystem
  import opened KcpInvariant

  predicate IsU32(x: int) {
    0 <= x < TWO32
  }

  /** Everything a flush would transmit from this control block fits its wire fields. */
  ghost predicate CbEncodable(cb: Cb) {
    && IsU32(cb.conv) && IsU32(cb.rcvNxt) && IsU32(cb.sndNxt)
    && GoodChunks(cb.sndQueue)
    && (forall s :: s in cb.sndBuf ==> IsU32(s.sn) && |s.data| <= MSS)
    && (forall a :: a in cb.acks ==> IsU32(a.sn) && IsU32(a.ts))
  }

  ghost predicate DatagramOk(ws: seq<Wire>, conv: int) {
    && ws != [] && Size(ws) <= MTU
    && forall j :: 0 <= j < |ws| ==> Encodable(ws[j]) && ws[j].conv == conv
  }

  ghost predicate PartyEncodable(p: Party, conv: int) {
    && p.cb.conv == conv && CbEncodable(p.cb)
    && forall i :: 0 <= i < |p.log| ==> DatagramOk(p.log[i], conv)
  }

  lemma {:induction false} MoveReadyEncodable(cb: Cb)
    requires CbEncodable(cb)
    ensures CbEncodable(MoveReady(Wrapping, cb)) && MoveReady(Wrapping, cb).conv == cb.conv
    decreases |cb.rcvBuf|
  {
    if CanMove(cb) {
      MoveReadyEncodable(MoveOne(Wrapping, cb));
    }
  }

  lemma RecvEncodable(cb: Cb, len: int)
    requires CbEncodable(cb)
    ensures CbEncodable(Recv(Wrapping, cb, len).0) && Recv(Wrapping, cb, len).0.conv == cb.conv
  {
    var n := MessageLen(cb.rcvQueue);
    MoveReadyEncodable(if len < 0 then cb else cb.(rcvQueue := cb.rcvQueue[n..]));
  }

  lemma {:induction false} AdmitEncodable(cb: Cb, cwnd: int)
    requires CbEncodable(cb)
    ensures CbEncodable(Admit(Wrapping, cb, cwnd)) && Admit(Wrapping, cb, cwnd).conv == cb.conv
    decreases |cb.sndQueue|
  {
    if CanAdmit(Wrapping, cb, cwnd) {
      AdmitEncodable(AdmitOne(Wrapping, cb), cwnd);
    }
  }

  ghost predicate WiresEncodable(ws: seq<Wire>, conv: int) {
    forall w :: w in ws ==> Encodable(w) && w.conv == conv
  }

  lemma {:induction false} PushWiresEncodable(cb: Cb, i: nat, ch: FlushChoice)
    requires CbEncodable(cb) && i <= |cb.sndBuf|
    ensures WiresEncodable(PushWires(cb, i, ch), cb.conv)
    decreases |cb.sndBuf| - i
  {
    if i < |cb.sndBuf| {
      PushWiresEncodable(cb, i + 1, ch);
      assert cb.sndBuf[i] in cb.sndBuf;
    }
  }

  lemma ControlWiresEncodable(cb: Cb, ch: FlushChoice)
    requires CbEncodable(cb)
    ensures WiresEncodable(AckWires(cb, cb.acks), cb.conv) && WiresEncodable(ProbeWires(cb, ch), cb.conv)
  {
    var acks := AckWires(cb, cb.acks);
    forall w | w in acks
      ensures Encodable(w) && w.conv == cb.conv
    {
      var i :| 0 <= i < |acks| && acks[i] == w;
      assert cb.acks[i] in cb.acks;
    }
    assert cb.acks != [] ==> LastAck(cb.acks) in cb.acks;
  }

  lemma PackEncodable(ws: seq<Wire>, conv: int)
    requires WiresEncodable(ws, conv)
    ensures forall i :: 0 <= i < |Pack([], ws)| ==> DatagramOk(Pack([], ws)[i], conv)
  {
    PackSound([], ws);
    assert [] + ws == ws;
    var ds := Pack([], ws);
    forall i, j | 0 <= i < |ds| && 0 <= j < |ds[i]|
      ensures Encodable(ds[i][j]) && ds[i][j].conv == conv
    {
      UnpackedContains(ds, i, j);
    }
  }

  lemma FlushEncodable(cb: Cb, ch: FlushChoice)
    requires CbEncodable(cb)
    ensures var (d, sent) := Flush(Wrapping, cb, ch);
            && CbEncodable(d) && d.conv == cb.conv && forall i :: 0 <= i < |sent| ==> DatagramOk(sent[i], cb.conv)
  {
    var c := Admit(Wrapping, cb, EffectiveWindow(cb, ch));
    AdmitEncodable(cb, EffectiveWindow(cb, ch));
    PushWiresEncodable(c, 0, ch);
    ControlWiresEncodable(cb, ch);
    PackEncodable(FlushWires(Wrapping, cb, ch), cb.conv);
    forall s | s in Stamped(c.sndBuf, ch)
      ensures IsU32(s.sn) && |s.data| <= MSS
    {
      var i :| 0 <= i < |c.sndBuf| && Stamped(c.sndBuf, ch)[i] == s;
      assert c.sndBuf[i] in c.sndBuf;
    }
  }

  lemma {:induction false} DropBelowSubset(buf: seq<OutSeg>, una: int)
    ensures forall s :: s in DropBelow(Wrapping, buf, una) ==> s in buf
  {
    if buf != [] && Diff(Wrapping, una, buf[0].sn) > 0 {
      DropBelowSubset(buf[1..], una);
    }
  }

  lemma {:induction false} DropAckedSubset(buf: seq<OutSeg>, sn: int)
    ensures forall s :: s in DropAcked(Wrapping, buf, sn) ==> s in buf
  {
    if buf != [] {
      DropAckedSubset(buf[1..], sn);
    }
  }

  lemma InputSegEncodable(cb: Cb, w: Wire)
    requires CbEncodable(cb) && Encodable(w)
    ensures CbEncodable(InputSeg(Wrapping, cb, w)) && InputSeg(Wrapping, cb, w).conv == cb.conv
  {
    DropBelowSubset(cb.sndBuf, w.una);
    var c := ShrinkBuf(ParseUna(Wrapping, cb.(rmtWnd := w.wnd), w.una));
    DropAckedSubset(c.sndBuf, w.sn);
    var acked := c.(acks := c.acks + [Ack(w.sn, w.ts)]);
    MoveReadyEncodable(acked.(rcvBuf := Insert(Wrapping, acked.rcvBuf, InSeg(w.sn, w.frg, w.data))));
  }

  lemma {:induction false} InputSegsEncodable(cb: Cb, ws: seq<Wire>)
    requires CbEncodable(cb) && forall j :: 0 <= j < |ws| ==> Encodable(ws[j])
    ensures CbEncodable(InputSegs(Wrapping, cb, ws)) && InputSegs(Wrapping, cb, ws).conv == cb.conv
    decreases |ws|
  {
    if ws != [] {
      InputSegEncodable(cb, ws[0]);
      InputSegsEncodable(InputSeg(Wrapping, cb, ws[0]), ws[1..]);
    }
  }

  lemma StepEncodable(s: Sys, a: Action, conv: int)
    requires PartyEncodable(s.ini, conv) && PartyEncodable(s.rsp, conv)
    ensures var t := Step(Wrapping, s, a); PartyEncodable(t.ini, conv) && PartyEncodable(t.rsp, conv)
  {
    var p, q := Get(s, a.side), Get(s, Other(a.side));
    match a
    case DoSend(i, data) => SendAccepts(p.cb, data);
    case DoRecv(i, len) => RecvEncodable(p.cb, len);
    case DoUpdate(i, due, ch) => FlushEncodable(p.cb.(updated := true), ch);
    case DoInput(i, which) =>
      if which < |q.log| {
        InputDecodesEncoding(p.cb, q.log[which]);
        InputSegsEncodable(p.cb, q.log[which]);
      }
  }

  lemma {:induction false} RunEncodable(conv: u32, acts: seq<Action>)
    ensures var s := Run(Wrapping, Init(conv), acts); PartyEncodable(s.ini, conv) && PartyEncodable(s.rsp, conv)
    decreases |acts|
  {
    if acts != [] {
      RunEncodable(conv, acts[..|acts| - 1]);
      StepEncodable(Run(Wrapping, Init(conv), acts[..|acts| - 1]), acts[|acts| - 1], conv);
    }
  }

  /** In every run, every datagram a side ever emitted is between 1 and 1400 bytes long, and whenever its
      bytes reach the peer they are accepted with result 0 as exactly the segments packed into them. */
  lemma DatagramsUnderstood(conv: u32, acts: seq<Action>, i: Side, which: nat)
    requires which < |Get(Run(Wrapping, Init(conv), acts), i).log|
    ensures var s := Run(Wrapping, Init(conv), acts);
            var ws, peer := Get(s, i).log[which], Get(s, Other(i)).cb;
            && 0 < |EncodeAll(ws)| <= MTU
            && InputBytes(peer, EncodeAll(ws)) == (InputSegs(Wrapping, peer, ws), 0)
  {
    RunEncodable(conv, acts);
    var s := Run(Wrapping, Init(conv), acts);
    InputDecodesEncoding(Get(s, Other(i)).cb, Get(s, i).log[which]);
  }
}
