/** Old datagrams: an age below which every delivery is clear, and runs in which the 32-bit code, fed with older
    ones, repeats or loses data. */
module KcpStale {
  import opened SerialNumbers
  import opened Bytes
  import opened KcpModel
  import opened KcpWire
  import opened KcpSystem
  import opened KcpInvariant
  import opened KcpRefinement

  // -------------------------------------------------------------- young enough

  /** How old a segment may be when it arrives, counted in segments numbered since: `peerNxt` and `ownNxt` are how
      many segments its sender and its receiver have numbered. */
  ghost predicate FreshWire(w: Wire, peerNxt: int, ownNxt: int) {
    && ownNxt - w.una <= TWO31
    && (w.cmd == CMD_ACK ==> ownNxt - w.sn <= TWO32)
    && (w.cmd == CMD_PUSH ==> peerNxt - w.sn <= TWO31 - RCV_WND)
  }

  ghost predicate FreshDatagram(ws: seq<Wire>, peerNxt: int, ownNxt: int) {
    forall j :: 0 <= j < |ws| ==> FreshWire(ws[j], peerNxt, ownNxt)
  }

  ghost predicate FreshRun(s: Sys, acts: seq<Action>)
    decreases |acts|
  {
    acts == [] ||
    (var before, a := Run(Unbounded, s, acts[..|acts| - 1]), acts[|acts| - 1];
     var p, q := Get(before, a.side), Get(before, Other(a.side));
     && FreshRun(s, acts[..|acts| - 1])
     && (a.DoInput? && a.which < |q.log| ==> FreshDatagram(q.log[a.which], |q.hist|, |p.hist|)))
  }

  lemma FreshAck(c: Cb, sn: int, hist: seq<seq<byte>>)
    requires SenderOk(c, hist) && |hist| - sn <= TWO32
    ensures AckClear(c, sn)
  {
    if sn < c.sndUna {
      forall i | 0 <= i < |c.sndBuf|
        ensures W(c.sndBuf[i].sn) != W(sn)
      {
        NormInjective(c.sndBuf[i].sn, sn);
      }
    }
  }

  lemma FreshSegClear(cb: Cb, w: Wire, hist: seq<seq<byte>>, peerHist: seq<seq<byte>>)
    requires SenderOk(cb, hist) && 0 <= cb.rcvNxt <= |peerHist| && FreshWire(w, |peerHist|, |hist|)
    ensures SegClear(cb, w)
  {
    var told := cb.(rmtWnd := w.wnd);
    UnaSender(told, w.una, hist);
    var c := ShrinkBuf(ParseUna(Unbounded, told, w.una));
    if w.una < cb.sndUna {
      DivModUnique(cb.sndUna - w.una, 0, cb.sndUna - w.una);
    }
    if w.cmd == CMD_ACK {
      FreshAck(c, w.sn, hist);
    }
    if w.cmd == CMD_PUSH && w.sn < c.rcvNxt {
      DivModUnique(c.rcvNxt - w.sn, 0, c.rcvNxt - w.sn);
    }
  }

  lemma {:induction false} FreshClear(cb: Cb, ws: seq<Wire>, hist: seq<seq<byte>>, peer: Cb, peerHist: seq<seq<byte>>)
    requires SenderOk(cb, hist) && Conserved(cb, peer, hist) && ReceiverOk(cb, peerHist) && AcksOk(cb)
    requires SenderOk(peer, peerHist) && ReceiverShape(peer, hist) && Conserved(peer, cb, peerHist)
    requires WiresOk(ws, peer, peerHist) && FreshDatagram(ws, |peerHist|, |hist|)
    ensures Clear(cb, ws)
    decreases |ws|
  {
    if ws != [] {
      FreshSegClear(cb, ws[0], hist, peerHist);
      InputSegKeeps(cb, ws[0], hist, peer, peerHist);
      var c := InputSeg(Unbounded, cb, ws[0]);
      ConservedGrows(peer, peer, cb, c, peerHist, peerHist);
      FreshClear(c, ws[1..], hist, peer, peerHist);
    }
  }

  /** A run is clear if no delivered data or `una` field is older than 2^31 segments, minus the window for data, and
      no delivered acknowledgement older than 2^32. */
  lemma {:induction false} FreshRunIsClear(conv: u32, acts: seq<Action>)
    requires FreshRun(Init(conv), acts)
    ensures ClearRun(Init(conv), acts)
    decreases |acts|
  {
    if acts != [] {
      var before, a := acts[..|acts| - 1], acts[|acts| - 1];
      FreshRunIsClear(conv, before);
      RunKeeps(conv, before);
      var s := Run(Unbounded, Init(conv), before);
      var p, q := Get(s, a.side), Get(s, Other(a.side));
      if a.DoInput? && a.which < |q.log| {
        FreshClear(p.cb, q.log[a.which], p.hist, q.cb, q.hist);
      }
    }
  }

  // ------------------------------------------------------- rounds of one segment

  /** A flush with an open congestion window that resends nothing. */
  const PLAIN: FlushChoice := FlushChoice(64, false, 0, {})

  /** The control block of a sender, and of a receiver, after `k` segments were sent and acknowledged. */
  function SenderAt(conv: u32, k: nat): Cb {
    Cb(conv, k > 0, k, k, 0, RCV_WND, false, [], [], [], [], [])
  }

  function ReceiverAt(conv: u32, k: nat): Cb {
    Cb(conv, k > 0, 0, 0, k, RCV_WND, false, [], [], [], [], [])
  }

  function DataWire(conv: u32, k: nat): Wire {
    Wire(conv, CMD_PUSH, 0, RCV_WND, 0, k, 0, [0])
  }

  function AckedWire(conv: u32, k: nat): Wire {
    Wire(conv, CMD_ACK, 0, RCV_WND, 0, k, k + 1, [])
  }

  function Repeat<T>(x: T, k: nat): (r: seq<T>)
    ensures |r| == k
  {
    seq(k, i => x)
  }

  lemma RepeatNext<T>(x: T, k: nat)
    ensures Repeat(x, k) + [x] == Repeat(x, k + 1)
  {
  }

  function DataLog(conv: u32, k: nat): (r: seq<seq<Wire>>)
    ensures |r| == k && forall i :: 0 <= i < k ==> r[i] == [DataWire(conv, i)]
  {
    seq(k, i requires 0 <= i => [DataWire(conv, i)])
  }

  function AckLog(conv: u32, k: nat): (r: seq<seq<Wire>>)
    ensures |r| == k && forall i :: 0 <= i < k ==> r[i] == [AckedWire(conv, i)]
  {
    seq(k, i requires 0 <= i => [AckedWire(conv, i)])
  }

  /** Both sides after `k` rounds. */
  function StateAt(conv: u32, k: nat): Sys {
    Sys(Party(SenderAt(conv, k), DataLog(conv, k), Repeat(0, k), [], Repeat([0], k)),
        Party(ReceiverAt(conv, k), AckLog(conv, k), [], Repeat(0, k), []))
  }

  /** One byte is sent, delivered, received and acknowledged. */
  function Round(k: nat): seq<Action> {
    [DoSend(Initiator, [0]), DoUpdate(Initiator, true, PLAIN), DoInput(Responder, k),
     DoRecv(Responder, 1), DoUpdate(Responder, true, PLAIN), DoInput(Initiator, k)]
  }

  function Rounds(k: nat): seq<Action> {
    if k == 0 then [] else Rounds(k - 1) + Round(k - 1)
  }

  // the control blocks within a round

  function Sending(conv: u32, k: nat): Cb {
    Cb(conv, true, k, k + 1, 0, RCV_WND, false, [], [OutSeg(k, 1, [0])], [], [], [])
  }

  function Holding(conv: u32, k: nat): Cb {
    ReceiverAt(conv, k).(rcvNxt := k + 1, rcvQueue := [InSeg(k, 0, [0])], acks := [Ack(k, 0)])
  }

  lemma SendOne(conv: u32, k: nat)
    ensures Send(SenderAt(conv, k), [0]) == (SenderAt(conv, k).(sndQueue := [[0]]), 1)
  {
    var data: seq<byte> := [0];
    assert data[..0] == [] && data[0..] == data && Chunks(data) == [data];
    assert SegmentCount(1) == 1 && ExtendLast([], data[..0]) == [];
    var queue: seq<seq<byte>> := [];
    assert queue + [data] == [data];
  }

  lemma PackOne(w: Wire)
    requires WireSize(w) <= MTU
    ensures Pack([], [w]) == [[w]]
  {
    assert [w][1..] == [] && [] + [w] == [w] && Size([]) == 0;
    assert Pack([w], []) == [[w]];
  }

  lemma FlushOne(conv: u32, k: nat)
    ensures Update(Unbounded, SenderAt(conv, k).(sndQueue := [[0]]), true, PLAIN)
         == (Sending(conv, k), [[DataWire(conv, k)]])
  {
    var cb := SenderAt(conv, k).(sndQueue := [[0]], updated := true);
    var one := AdmitOne(Unbounded, cb);
    assert one == cb.(sndQueue := [], sndBuf := [OutSeg(k, 0, [0])], sndNxt := k + 1);
    assert Admit(Unbounded, cb, 64) == one;
    assert PushWires(one, 1, PLAIN) == [];
    assert PushWires(one, 0, PLAIN) == [DataWire(conv, k)];
    assert FlushWires(Unbounded, cb, PLAIN) == [DataWire(conv, k)];
    PackOne(DataWire(conv, k));
    assert Stamped(one.sndBuf, PLAIN) == [OutSeg(k, 1, [0])];
  }

  lemma HoldOne(conv: u32, k: nat)
    ensures InputSegs(Unbounded, ReceiverAt(conv, k), [DataWire(conv, k)]) == Holding(conv, k)
  {
    var cb := ReceiverAt(conv, k);
    var acked := cb.(acks := [Ack(k, 0)]);
    var stored := acked.(rcvBuf := [InSeg(k, 0, [0])]);
    assert cb.acks + [Ack(k, 0)] == [Ack(k, 0)];
    assert Insert(Unbounded, [], InSeg(k, 0, [0])) == stored.rcvBuf;
    assert InputPush(Unbounded, cb, DataWire(conv, k)) == MoveReady(Unbounded, stored);
    MoveSingle(Unbounded, stored);
    assert [DataWire(conv, k)][1..] == [];
  }

  /** A single segment in order moves to an empty queue. */
  lemma MoveSingle(m: Arith, cb: Cb)
    requires |cb.rcvBuf| == 1 && cb.rcvBuf[0].sn == cb.rcvNxt && cb.rcvQueue == []
    ensures MoveReady(m, cb) == cb.(rcvBuf := [], rcvQueue := cb.rcvBuf, rcvNxt := Norm(m, cb.rcvNxt + 1))
  {
    var next := MoveOne(m, cb);
    assert next.rcvBuf == [] && next.rcvQueue == cb.rcvBuf;
    assert MoveReady(m, next) == next;
  }

  /** A single segment in the queue is delivered. */
  lemma RecvSingle(m: Arith, cb: Cb, data: seq<byte>, len: int)
    requires |cb.rcvQueue| == 1 && cb.rcvQueue[0].frg == 0 && cb.rcvQueue[0].data == data && |data| == 1
    requires cb.rcvBuf == [] && len >= 1
    ensures Recv(m, cb, len) == (cb.(rcvQueue := []), 1, data)
  {
    assert MessageLen(cb.rcvQueue) == 1 && cb.rcvQueue[..1] == cb.rcvQueue && cb.rcvQueue[1..] == [];
    assert Payloads(cb.rcvQueue) == [data];
    FlattenOne(data);
    assert MoveReady(m, cb.(rcvQueue := [])) == cb.(rcvQueue := []);
  }

  lemma AckOne(conv: u32, k: nat)
    ensures Update(Unbounded, Holding(conv, k).(rcvQueue := []), true, PLAIN)
         == (ReceiverAt(conv, k + 1), [[AckedWire(conv, k)]])
  {
    var cb := Holding(conv, k).(rcvQueue := [], updated := true);
    assert Admit(Unbounded, cb, 64) == cb;
    assert AckWires(cb, cb.acks) == [AckedWire(conv, k)];
    assert FlushWires(Unbounded, cb, PLAIN) == [AckedWire(conv, k)];
    PackOne(AckedWire(conv, k));
    assert Stamped([], PLAIN) == [];
  }

  lemma DropOne(conv: u32, k: nat)
    ensures InputSegs(Unbounded, Sending(conv, k), [AckedWire(conv, k)]) == SenderAt(conv, k + 1)
  {
    var cb := Sending(conv, k);
    assert DropBelow(Unbounded, cb.sndBuf, k + 1) == [] by {
      assert cb.sndBuf[1..] == [];
    }
    assert [AckedWire(conv, k)][1..] == [];
  }

  // the steps of a round

  function Sent(conv: u32, k: nat): Sys {
    var s := StateAt(conv, k);
    s.(ini := s.ini.(cb := SenderAt(conv, k).(sndQueue := [[0]]), accepted := Repeat(0, k + 1)))
  }

  function Flushed(conv: u32, k: nat): Sys {
    var s := Sent(conv, k);
    s.(ini := s.ini.(cb := Sending(conv, k), log := DataLog(conv, k + 1), hist := Repeat([0], k + 1)))
  }

  function Arrived(conv: u32, k: nat): Sys {
    var s := Flushed(conv, k);
    s.(rsp := s.rsp.(cb := Holding(conv, k)))
  }

  function Taken(conv: u32, k: nat): Sys {
    var s := Arrived(conv, k);
    s.(rsp := s.rsp.(cb := Holding(conv, k).(rcvQueue := []), delivered := Repeat(0, k + 1)))
  }

  function Acked(conv: u32, k: nat): Sys {
    var s := Taken(conv, k);
    s.(rsp := s.rsp.(cb := ReceiverAt(conv, k + 1), log := AckLog(conv, k + 1)))
  }

  lemma StepSend(conv: u32, k: nat)
    ensures Step(Unbounded, StateAt(conv, k), DoSend(Initiator, [0])) == Sent(conv, k)
  {
    SendOne(conv, k);
    RepeatNext(0 as byte, k);
    var data: seq<byte> := [0];
    assert data[..1] == data;
  }

  lemma StepFlush(conv: u32, k: nat)
    ensures Step(Unbounded, Sent(conv, k), DoUpdate(Initiator, true, PLAIN)) == Flushed(conv, k)
  {
    FlushOne(conv, k);
    var chunk: seq<byte> := [0];
    RepeatNext(chunk, k);
    assert NewlyNumbered(SenderAt(conv, k).(sndQueue := [chunk]), Sending(conv, k)) == [chunk];
    assert DataLog(conv, k) + [[DataWire(conv, k)]] == DataLog(conv, k + 1);
  }

  lemma StepArrive(conv: u32, k: nat)
    ensures Step(Unbounded, Flushed(conv, k), DoInput(Responder, k)) == Arrived(conv, k)
  {
    HoldOne(conv, k);
  }

  lemma StepTake(conv: u32, k: nat)
    ensures Step(Unbounded, Arrived(conv, k), DoRecv(Responder, 1)) == Taken(conv, k)
  {
    RecvSingle(Unbounded, Holding(conv, k), [0], 1);
    RepeatNext(0 as byte, k);
  }

  lemma StepAck(conv: u32, k: nat)
    ensures Step(Unbounded, Taken(conv, k), DoUpdate(Responder, true, PLAIN)) == Acked(conv, k)
  {
    AckOne(conv, k);
    assert NewlyNumbered(Holding(conv, k).(rcvQueue := []), ReceiverAt(conv, k + 1)) == [];
    assert AckLog(conv, k) + [[AckedWire(conv, k)]] == AckLog(conv, k + 1);
  }

  lemma StepDrop(conv: u32, k: nat)
    ensures Step(Unbounded, Acked(conv, k), DoInput(Initiator, k)) == StateAt(conv, k + 1)
  {
    DropOne(conv, k);
  }

  // ----------------------------------------------------------------- whole runs

  /** The run is clear and leads to `s`. */
  ghost predicate Leads(conv: u32, acts: seq<Action>, s: Sys) {
    ClearRun(Init(conv), acts) && Run(Unbounded, Init(conv), acts) == s
  }

  lemma LeadsOn(conv: u32, acts: seq<Action>, s: Sys, a: Action, t: Sys)
    requires Leads(conv, acts, s) && ClearAction(s, a) && Step(Unbounded, s, a) == t
    ensures Leads(conv, acts + [a], t)
  {
    assert (acts + [a])[..|acts|] == acts;
  }

  lemma DataIsClear(conv: u32, k: nat)
    ensures ClearAction(Flushed(conv, k), DoInput(Responder, k))
  {
    var cb := ReceiverAt(conv, k);
    assert SegClear(cb, DataWire(conv, k));
    assert [DataWire(conv, k)][1..] == [];
    assert Clear(InputSeg(Unbounded, cb, DataWire(conv, k)), []);
  }

  lemma AckIsClear(conv: u32, k: nat)
    ensures ClearAction(Acked(conv, k), DoInput(Initiator, k))
  {
    var cb := Sending(conv, k);
    assert DropBelow(Unbounded, cb.sndBuf, k + 1) == [] by {
      assert cb.sndBuf[1..] == [];
    }
    assert SegClear(cb, AckedWire(conv, k));
    assert [AckedWire(conv, k)][1..] == [];
    assert Clear(InputSeg(Unbounded, cb, AckedWire(conv, k)), []);
  }

  /** The run of `k` rounds, followed by a send and a flush. */
  lemma HalfRound(conv: u32, k: nat) returns (acts: seq<Action>)
    requires Leads(conv, Rounds(k), StateAt(conv, k))
    ensures acts == Rounds(k) + [DoSend(Initiator, [0])] + [DoUpdate(Initiator, true, PLAIN)]
    ensures Leads(conv, acts, Flushed(conv, k))
  {
    StepSend(conv, k);
    LeadsOn(conv, Rounds(k), StateAt(conv, k), DoSend(Initiator, [0]), Sent(conv, k));
    acts := Rounds(k) + [DoSend(Initiator, [0])];
    StepFlush(conv, k);
    LeadsOn(conv, acts, Sent(conv, k), DoUpdate(Initiator, true, PLAIN), Flushed(conv, k));
    acts := acts + [DoUpdate(Initiator, true, PLAIN)];
  }

  lemma RoundEnds(conv: u32, k: nat, acts: seq<Action>)
    requires Leads(conv, acts, Taken(conv, k))
    ensures Leads(conv, acts + [DoUpdate(Responder, true, PLAIN)] + [DoInput(Initiator, k)], StateAt(conv, k + 1))
  {
    StepAck(conv, k);
    LeadsOn(conv, acts, Taken(conv, k), DoUpdate(Responder, true, PLAIN), Acked(conv, k));
    AckIsClear(conv, k);
    StepDrop(conv, k);
    LeadsOn(conv, acts + [DoUpdate(Responder, true, PLAIN)], Acked(conv, k), DoInput(Initiator, k),
            StateAt(conv, k + 1));
  }

  lemma RoundArrives(conv: u32, k: nat, acts: seq<Action>)
    requires Leads(conv, acts, Flushed(conv, k))
    ensures Leads(conv, acts + [DoInput(Responder, k)] + [DoRecv(Responder, 1)], Taken(conv, k))
  {
    DataIsClear(conv, k);
    StepArrive(conv, k);
    LeadsOn(conv, acts, Flushed(conv, k), DoInput(Responder, k), Arrived(conv, k));
    StepTake(conv, k);
    LeadsOn(conv, acts + [DoInput(Responder, k)], Arrived(conv, k), DoRecv(Responder, 1), Taken(conv, k));
  }

  lemma RoundLeads(conv: u32, k: nat)
    requires Leads(conv, Rounds(k), StateAt(conv, k))
    ensures Leads(conv, Rounds(k + 1), StateAt(conv, k + 1))
  {
    var acts := HalfRound(conv, k);
    RoundArrives(conv, k, acts);
    var more := acts + [DoInput(Responder, k)] + [DoRecv(Responder, 1)];
    RoundEnds(conv, k, more);
    RoundActs(Rounds(k), k);
  }

  lemma RoundActs(acts: seq<Action>, k: nat)
    ensures acts + [DoSend(Initiator, [0])] + [DoUpdate(Initiator, true, PLAIN)] + [DoInput(Responder, k)] +
            [DoRecv(Responder, 1)] + [DoUpdate(Responder, true, PLAIN)] + [DoInput(Initiator, k)]
         == acts + Round(k)
  {
  }

  lemma {:induction false} RoundsLead(conv: u32, k: nat)
    ensures Leads(conv, Rounds(k), StateAt(conv, k))
  {
    if k == 0 {
      assert StateAt(conv, 0) == Init(conv);
    } else {
      RoundsLead(conv, k - 1);
      RoundLeads(conv, k - 1);
    }
  }

  // ------------------------------------------------------------- old datagrams

  lemma RunOn(m: Arith, s: Sys, acts: seq<Action>, a: Action)
    ensures Run(m, s, acts + [a]) == Step(m, Run(m, s, acts), a)
  {
    assert (acts + [a])[..|acts|] == acts;
  }

  /** The bytes of a single segment have the effect of the segment. */
  lemma ReceiveOne(cb: Cb, w: Wire)
    requires Encodable(w) && w.conv == cb.conv
    ensures Receive(Wrapping, cb, [w]) == (InputSeg(Wrapping, cb, w), 0)
  {
    InputDecodesEncoding(cb, [w]);
    assert [w][1..] == [];
    assert InputSegs(Wrapping, InputSeg(Wrapping, cb, w), []) == InputSeg(Wrapping, cb, w);
  }

  /** A receiver whose counter has come round to 0 takes the very first segment for the next one. */
  lemma FirstAgain(conv: u32)
    ensures var cb := Cb(conv, true, 0, 0, 0, RCV_WND, false, [], [], [], [], []);
            InputSeg(Wrapping, cb, DataWire(conv, 0))
            == cb.(rcvNxt := 1, rcvQueue := [InSeg(0, 0, [0])], acks := [Ack(0, 0)])
  {
    var cb := Cb(conv, true, 0, 0, 0, RCV_WND, false, [], [], [], [], []);
    var acked := cb.(acks := [Ack(0, 0)]);
    assert cb.acks + [Ack(0, 0)] == [Ack(0, 0)];
    DivModUnique(-RCV_WND, -1, TWO32 - RCV_WND);
    var seg := InSeg(0, 0, [0]);
    assert Insert(Wrapping, [], seg) == [seg];
    assert ParseData(Wrapping, acked, seg) == MoveReady(Wrapping, acked.(rcvBuf := [seg]));
    MoveSingle(Wrapping, acked.(rcvBuf := [seg]));
  }

  lemma ShadowAtTurn(conv: u32)
    ensures CbShadow(ReceiverAt(conv, TWO32)) == Cb(conv, true, 0, 0, 0, RCV_WND, false, [], [], [], [], [])
    ensures Shadow(StateAt(conv, TWO32)).ini.log[0] == [DataWire(conv, 0)]
  {
    assert W(TWO32) == 0 && W(0) == 0;
    assert OutShadow([]) == [] && InShadow([]) == [] && AckShadow([]) == [];
    assert WiresShadow([DataWire(conv, 0)]) == [WireShadow(DataWire(conv, 0))];
  }

  /** Some run repeats data: after 2^32 segments, all of them delivered and acknowledged, the network delivers the
      very first datagram once more, and the receiver hands out a byte that was never sent again. */
  lemma ReplayRepeatsData(conv: u32) returns (acts: seq<Action>)
    ensures var s := Run(Wrapping, Init(conv), acts); !(s.rsp.delivered <= s.ini.accepted)
  {
    RoundsLead(conv, TWO32);
    RunRefines(conv, Rounds(TWO32));
    var s0 := Shadow(StateAt(conv, TWO32));
    ShadowAtTurn(conv);
    var input, take := DoInput(Responder, 0), DoRecv(Responder, 1);
    acts := Rounds(TWO32) + [input] + [take];
    RunOn(Wrapping, Init(conv), Rounds(TWO32), input);
    RunOn(Wrapping, Init(conv), Rounds(TWO32) + [input], take);
    ReceiveOne(s0.rsp.cb, DataWire(conv, 0));
    FirstAgain(conv);
    var s1 := Step(Wrapping, s0, input);
    RecvSingle(Wrapping, s1.rsp.cb, [0], 1);
    assert |Step(Wrapping, s1, take).rsp.delivered| == TWO32 + 1;
  }

  const LATE: nat := 0x8000_0002

  /** A sender 2^31 + 2 segments on drops an unacknowledged segment for the very first acknowledgement. */
  lemma OldUnaDrops(conv: u32)
    ensures var cb := InputSeg(Wrapping, CbShadow(Sending(conv, LATE)), AckedWire(conv, 0));
            cb.sndBuf == [] && cb.sndQueue == [] && cb.rcvQueue == []
  {
    var cb := CbShadow(Sending(conv, LATE)).(rmtWnd := RCV_WND);
    DivModUnique(LATE, 0, LATE);
    DivModUnique(LATE + 1, 0, LATE + 1);
    assert cb.sndBuf == [OutSeg(LATE, 1, [0])] && cb.sndNxt == LATE + 1;
    DivModUnique(1 - LATE, -1, 1 - LATE + TWO32);
    assert Diff(Wrapping, 1, LATE) > 0 && cb.sndBuf[1..] == [];
    assert DropBelow(Wrapping, cb.sndBuf, 1) == [];
    DivModUnique(0 - (LATE + 1), -1, TWO32 - (LATE + 1));
  }

  lemma ShadowOfFirstAck(conv: u32)
    ensures Shadow(Flushed(conv, LATE)).rsp.log[0] == [AckedWire(conv, 0)]
    ensures Shadow(Flushed(conv, LATE)).rsp.cb.rcvBuf == [] && Shadow(Flushed(conv, LATE)).rsp.cb.rcvQueue == []
  {
    assert W(0) == 0 && W(1) == 1;
    assert WiresShadow([AckedWire(conv, 0)]) == [WireShadow(AckedWire(conv, 0))];
  }

  /** What that acknowledgement does to the system. */
  lemma LossStep(conv: u32)
    ensures var s := Step(Wrapping, Shadow(Flushed(conv, LATE)), DoInput(Initiator, 0));
            && WaitSnd(s.ini.cb) == 0 && s.rsp.cb.rcvBuf == [] && s.rsp.cb.rcvQueue == []
            && |s.rsp.delivered| < |s.ini.accepted|
  {
    ShadowOfFirstAck(conv);
    ReceiveOne(CbShadow(Sending(conv, LATE)), AckedWire(conv, 0));
    OldUnaDrops(conv);
  }

  /** Some run loses data: the last byte accepted is neither delivered nor stored anywhere any more. */
  lemma OldAckLosesData(conv: u32) returns (acts: seq<Action>)
    ensures var s := Run(Wrapping, Init(conv), acts);
            && WaitSnd(s.ini.cb) == 0 && s.rsp.cb.rcvBuf == [] && s.rsp.cb.rcvQueue == []
            && |s.rsp.delivered| < |s.ini.accepted|
  {
    RoundsLead(conv, LATE);
    var before := HalfRound(conv, LATE);
    RunRefines(conv, before);
    acts := before + [DoInput(Initiator, 0)];
    RunOn(Wrapping, Init(conv), before, DoInput(Initiator, 0));
    LossStep(conv);
  }
}
