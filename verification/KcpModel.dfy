/** The KCP control block as a value, and what each operation does to it.

    These functions are the specification: the imperative `Kcp` class of module `KcpControl` is
    proved to compute them in the `Wrapping` reading, and the run theorems are proved about them.
    The block is configured as redp2p configures it: stream mode, MTU 1400, send window 64,
    receive window 128. */
module KcpModel {
  import opened Common
  import opened SerialNumbers
  import opened Bytes

  const MTU: int := 1400
  const OVERHEAD: int := 24
  const MSS: int := 1376
  const SND_WND: int := 64
  const RCV_WND: int := 128

  const CMD_PUSH: int := 81
  const CMD_ACK: int := 82
  const CMD_WASK: int := 83
  const CMD_WINS: int := 84

  /** One segment as it travels in a datagram. */
  datatype Wire = Wire(conv: int, cmd: int, frg: int, wnd: int, ts: int, sn: int, una: int, data: seq<byte>)

  /** A numbered, unacknowledged segment; `xmit` counts its transmissions. */
  datatype OutSeg = OutSeg(sn: int, xmit: nat, data: seq<byte>)

  /** A received segment. */
  datatype InSeg = InSeg(sn: int, frg: int, data: seq<byte>)

  datatype Ack = Ack(sn: int, ts: int)

  /** The fields of `IKCPCB` on which the protocol's safety depends. */
  datatype Cb = Cb(conv: int, updated: bool, sndUna: int, sndNxt: int, rcvNxt: int, rmtWnd: int, tell: bool,
                   sndQueue: seq<seq<byte>>, sndBuf: seq<OutSeg>, rcvBuf: seq<InSeg>, rcvQueue: seq<InSeg>,
                   acks: seq<Ack>)

  /** What `ikcp_flush` takes from its clock, timers and congestion control: the congestion window,
      whether a window probe is due, the current time, and which already transmitted segments of
      the send buffer (by position) are due for retransmission. */
  datatype FlushChoice = FlushChoice(cwnd: nat, probeDue: bool, now: u32, resend: set<nat>)

  predicate IsCommand(cmd: int) {
    cmd == CMD_PUSH || cmd == CMD_ACK || cmd == CMD_WASK || cmd == CMD_WINS
  }

  function Create(conv: u32): Cb {
    Cb(conv, false, 0, 0, 0, RCV_WND, false, [], [], [], [], [])
  }

  function WaitSnd(cb: Cb): nat {
    |cb.sndBuf| + |cb.sndQueue|
  }

  function WndUnused(cb: Cb): int {
    if |cb.rcvQueue| < RCV_WND then RCV_WND - |cb.rcvQueue| else 0
  }

  // ---------------------------------------------------------------- ikcp_send

  /** `data` cut into full segments and a last, possibly shorter one. */
  function Chunks(data: seq<byte>): (r: seq<seq<byte>>)
    decreases |data|
  {
    if |data| == 0 then []
    else if |data| <= MSS then [data]
    else [data[..MSS]] + Chunks(data[MSS..])
  }

  /** How many bytes of `data` fit into the last queued segment. */
  function Room(queue: seq<seq<byte>>, data: seq<byte>): (r: nat)
    ensures r <= |data|
  {
    if queue != [] && |queue[|queue| - 1]| < MSS then Min(|data|, MSS - |queue[|queue| - 1]|) else 0
  }

  function ExtendLast(queue: seq<seq<byte>>, bytes: seq<byte>): seq<seq<byte>>
    requires bytes != [] ==> queue != []
  {
    if bytes == [] then queue else queue[..|queue| - 1] + [queue[|queue| - 1] + bytes]
  }

  function SegmentCount(len: nat): nat {
    (len + MSS - 1) / MSS
  }

  function Send(cb: Cb, data: seq<byte>): (r: (Cb, int)) {
    var room := Room(cb.sndQueue, data);
    var queue := ExtendLast(cb.sndQueue, data[..room]);
    var rest := data[room..];
    if rest == [] then (cb.(sndQueue := queue), room)
    else if SegmentCount(|rest|) >= RCV_WND then (cb.(sndQueue := queue), if room > 0 then room else -2)
    else (cb.(sndQueue := queue + Chunks(rest)), |data|)
  }

  // ------------------------------------------------ ikcp_peeksize and ikcp_recv

  function Payloads(segs: seq<InSeg>): (r: seq<seq<byte>>)
    ensures |r| == |segs|
    ensures forall i :: 0 <= i < |r| ==> r[i] == segs[i].data
  {
    seq(|segs|, i requires 0 <= i < |segs| => segs[i].data)
  }

  /** The number of leading segments up to and including the first last-fragment. */
  function MessageLen(queue: seq<InSeg>): (n: nat)
    ensures n <= |queue|
    ensures queue != [] ==> n >= 1
  {
    if queue == [] then 0
    else if queue[0].frg == 0 then 1
    else 1 + MessageLen(queue[1..])
  }

  function PeekSize(cb: Cb): int {
    if cb.rcvQueue == [] then -1
    else if cb.rcvQueue[0].frg == 0 then |cb.rcvQueue[0].data|
    else if |cb.rcvQueue| < cb.rcvQueue[0].frg + 1 then -1
    else |Flatten(Payloads(cb.rcvQueue[..MessageLen(cb.rcvQueue)]))|
  }

  /** The head of the receive buffer is next in order and the receive queue has room for it. */
  predicate CanMove(cb: Cb) {
    cb.rcvBuf != [] && cb.rcvBuf[0].sn == cb.rcvNxt && |cb.rcvQueue| < RCV_WND
  }

  function MoveOne(m: Arith, cb: Cb): Cb
    requires cb.rcvBuf != []
  {
    cb.(rcvBuf := cb.rcvBuf[1..], rcvQueue := cb.rcvQueue + [cb.rcvBuf[0]], rcvNxt := Norm(m, cb.rcvNxt + 1))
  }

  /** Moves the in-order head of the receive buffer to the receive queue while there is room. */
  function MoveReady(m: Arith, cb: Cb): Cb
    decreases |cb.rcvBuf|
  {
    if CanMove(cb) then MoveReady(m, MoveOne(m, cb)) else cb
  }

  lemma {:induction false} MoveReadyTotal(m: Arith, cb: Cb)
    ensures |MoveReady(m, cb).rcvQueue| + |MoveReady(m, cb).rcvBuf| == |cb.rcvQueue| + |cb.rcvBuf|
    decreases |cb.rcvBuf|
  {
    if CanMove(cb) {
      MoveReadyTotal(m, MoveOne(m, cb));
    }
  }

  /** `ikcp_recv` into a buffer of `len` bytes; a negative `len` peeks. */
  function Recv(m: Arith, cb: Cb, len: int): (r: (Cb, int, seq<byte>)) {
    var size := PeekSize(cb);
    if cb.rcvQueue == [] then (cb, -1, [])
    else if size < 0 then (cb, -2, [])
    else if size > (if len < 0 then -len else len) then (cb, -3, [])
    else
      var n := MessageLen(cb.rcvQueue);
      var out := Flatten(Payloads(cb.rcvQueue[..n]));
      var taken := if len < 0 then cb else cb.(rcvQueue := cb.rcvQueue[n..]);
      var moved := MoveReady(m, taken);
      var recovered := |cb.rcvQueue| >= RCV_WND && |moved.rcvQueue| < RCV_WND;
      (moved.(tell := moved.tell || recovered), |out|, out)
  }

  lemma RecvShrinks(m: Arith, cb: Cb, len: nat)
    requires Recv(m, cb, len).1 >= 0
    ensures var c := Recv(m, cb, len).0; |c.rcvQueue| + |c.rcvBuf| < |cb.rcvQueue| + |cb.rcvBuf|
  {
    MoveReadyTotal(m, cb.(rcvQueue := cb.rcvQueue[MessageLen(cb.rcvQueue)..]));
  }

  // --------------------------------------------------------------- ikcp_input

  /** `ikcp_parse_una`: drops the leading segments below `una`. */
  function DropBelow(m: Arith, buf: seq<OutSeg>, una: int): seq<OutSeg> {
    if buf != [] && Diff(m, una, buf[0].sn) > 0 then DropBelow(m, buf[1..], una) else buf
  }

  /** The loop of `ikcp_parse_ack`: drops the segment numbered `sn`, if met before a later one. */
  function DropAcked(m: Arith, buf: seq<OutSeg>, sn: int): seq<OutSeg> {
    if buf == [] then []
    else if buf[0].sn == sn then buf[1..]
    else if Diff(m, sn, buf[0].sn) < 0 then buf
    else [buf[0]] + DropAcked(m, buf[1..], sn)
  }

  /** `ikcp_shrink_buf`. */
  function ShrinkBuf(cb: Cb): Cb {
    cb.(sndUna := if cb.sndBuf != [] then cb.sndBuf[0].sn else cb.sndNxt)
  }

  function ParseUna(m: Arith, cb: Cb, una: int): Cb {
    cb.(sndBuf := DropBelow(m, cb.sndBuf, una))
  }

  function ParseAck(m: Arith, cb: Cb, sn: int): Cb {
    if Diff(m, sn, cb.sndUna) < 0 || Diff(m, sn, cb.sndNxt) >= 0 then cb
    else cb.(sndBuf := DropAcked(m, cb.sndBuf, sn))
  }

  /** Insertion in number order, searching from the back; a repeated number is dropped. */
  function Insert(m: Arith, buf: seq<InSeg>, seg: InSeg): seq<InSeg>
    decreases |buf|
  {
    if buf == [] then [seg]
    else
      var last := buf[|buf| - 1];
      if last.sn == seg.sn then buf
      else if Diff(m, seg.sn, last.sn) > 0 then buf + [seg]
      else Insert(m, buf[..|buf| - 1], seg) + [last]
  }

  function ParseData(m: Arith, cb: Cb, seg: InSeg): Cb {
    if Diff(m, seg.sn, cb.rcvNxt + RCV_WND) >= 0 || Diff(m, seg.sn, cb.rcvNxt) < 0 then cb
    else MoveReady(m, cb.(rcvBuf := Insert(m, cb.rcvBuf, seg)))
  }

  /** What `ikcp_input` does with a data segment: acknowledge it unless it is beyond the window,
      and store it unless it is behind. */
  function InputPush(m: Arith, cb: Cb, w: Wire): Cb {
    if Diff(m, w.sn, cb.rcvNxt + RCV_WND) < 0 then
      var acked := cb.(acks := cb.acks + [Ack(w.sn, w.ts)]);
      if Diff(m, w.sn, cb.rcvNxt) >= 0 then ParseData(m, acked, InSeg(w.sn, w.frg, w.data)) else acked
    else cb
  }

  /** One iteration of the loop of `ikcp_input`. */
  function InputSeg(m: Arith, cb: Cb, w: Wire): Cb {
    var c := ShrinkBuf(ParseUna(m, cb.(rmtWnd := w.wnd), w.una));
    if w.cmd == CMD_ACK then ShrinkBuf(ParseAck(m, c, w.sn))
    else if w.cmd == CMD_PUSH then InputPush(m, c, w)
    else if w.cmd == CMD_WASK then c.(tell := true)
    else c
  }

  function InputSegs(m: Arith, cb: Cb, ws: seq<Wire>): Cb
    decreases |ws|
  {
    if ws == [] then cb else InputSegs(m, InputSeg(m, cb, ws[0]), ws[1..])
  }

  // --------------------------------------------------------------- ikcp_flush

  /** There is a queued payload and the window admits one more number. */
  predicate CanAdmit(m: Arith, cb: Cb, cwnd: int) {
    cb.sndQueue != [] && Diff(m, cb.sndNxt, cb.sndUna + cwnd) < 0
  }

  /** Gives the first queued payload the next number. */
  function AdmitOne(m: Arith, cb: Cb): Cb
    requires cb.sndQueue != []
  {
    cb.(sndQueue := cb.sndQueue[1..], sndBuf := cb.sndBuf + [OutSeg(cb.sndNxt, 0, cb.sndQueue[0])],
        sndNxt := Norm(m, cb.sndNxt + 1))
  }

  /** Numbers queued payloads and moves them to the send buffer while the window allows. */
  function Admit(m: Arith, cb: Cb, cwnd: int): Cb
    decreases |cb.sndQueue|
  {
    if CanAdmit(m, cb, cwnd) then Admit(m, AdmitOne(m, cb), cwnd) else cb
  }

  predicate NeedSend(buf: seq<OutSeg>, i: nat, ch: FlushChoice)
    requires i < |buf|
  {
    buf[i].xmit == 0 || i in ch.resend
  }

  function AckWire(cb: Cb, a: Ack): Wire {
    Wire(cb.conv, CMD_ACK, 0, WndUnused(cb), a.ts, a.sn, cb.rcvNxt, [])
  }

  function AckWires(cb: Cb, acks: seq<Ack>): (r: seq<Wire>)
    ensures |r| == |acks|
    ensures forall i :: 0 <= i < |r| ==> r[i] == AckWire(cb, acks[i])
  {
    seq(|acks|, i requires 0 <= i < |acks| => AckWire(cb, acks[i]))
  }

  /** The header that `ikcp_flush` reuses for probes still holds the last acknowledged number. */
  function LastAck(acks: seq<Ack>): Ack {
    if acks == [] then Ack(0, 0) else acks[|acks| - 1]
  }

  function ProbeWires(cb: Cb, ch: FlushChoice): seq<Wire> {
    var last := AckWire(cb, LastAck(cb.acks));
    (if cb.rmtWnd == 0 && ch.probeDue then [last.(cmd := CMD_WASK)] else []) +
    (if cb.tell then [last.(cmd := CMD_WINS)] else [])
  }

  function PushWire(cb: Cb, s: OutSeg, ch: FlushChoice): Wire {
    Wire(cb.conv, CMD_PUSH, 0, WndUnused(cb), ch.now, s.sn, cb.rcvNxt, s.data)
  }

  /** The data segments to transmit among `cb.sndBuf[i..]`, in order. */
  function PushWires(cb: Cb, i: nat, ch: FlushChoice): seq<Wire>
    requires i <= |cb.sndBuf|
    decreases |cb.sndBuf| - i
  {
    if i == |cb.sndBuf| then [] else PushAt(cb, i, ch) + PushWires(cb, i + 1, ch)
  }

  function PushAt(cb: Cb, i: nat, ch: FlushChoice): seq<Wire>
    requires i < |cb.sndBuf|
  {
    if NeedSend(cb.sndBuf, i, ch) then [PushWire(cb, cb.sndBuf[i], ch)] else []
  }

  /** The send buffer after its due segments were transmitted. */
  function Stamped(buf: seq<OutSeg>, ch: FlushChoice): (r: seq<OutSeg>)
    ensures |r| == |buf|
    ensures forall i :: 0 <= i < |r| ==>
      r[i] == if NeedSend(buf, i, ch) then buf[i].(xmit := buf[i].xmit + 1) else buf[i]
  {
    seq(|buf|, i requires 0 <= i < |buf| => if NeedSend(buf, i, ch) then buf[i].(xmit := buf[i].xmit + 1) else buf[i])
  }

  function WireSize(w: Wire): nat {
    OVERHEAD + |w.data|
  }

  function Size(ws: seq<Wire>): nat {
    if ws == [] then 0 else WireSize(ws[0]) + Size(ws[1..])
  }

  function Emit(cur: seq<Wire>): seq<seq<Wire>> {
    if cur == [] then [] else [cur]
  }

  /** Greedy packing: a segment that would overflow the MTU first sends off what is buffered. */
  function Pack(cur: seq<Wire>, ws: seq<Wire>): seq<seq<Wire>>
    decreases |ws|
  {
    if ws == [] then Emit(cur)
    else if Size(cur) + WireSize(ws[0]) > MTU then Emit(cur) + Pack([ws[0]], ws[1..])
    else Pack(cur + [ws[0]], ws[1..])
  }

  function EffectiveWindow(cb: Cb, ch: FlushChoice): int {
    Min(ch.cwnd, Min(SND_WND, cb.rmtWnd))
  }

  /** Everything one flush transmits, in order, before packing. */
  function FlushWires(m: Arith, cb: Cb, ch: FlushChoice): seq<Wire> {
    AckWires(cb, cb.acks) + ProbeWires(cb, ch) + PushWires(Admit(m, cb, EffectiveWindow(cb, ch)), 0, ch)
  }

  function Flush(m: Arith, cb: Cb, ch: FlushChoice): (r: (Cb, seq<seq<Wire>>)) {
    if !cb.updated then (cb, [])
    else
      var admitted := Admit(m, cb, EffectiveWindow(cb, ch));
      (admitted.(acks := [], tell := false, sndBuf := Stamped(admitted.sndBuf, ch)), Pack([], FlushWires(m, cb, ch)))
  }
}
