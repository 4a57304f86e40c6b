/** What KCP guarantees in every run of the 32-bit, byte-level protocol. */
module KcpTheorems {
  import opened Common
  import opened SerialNumbers
  import opened Bytes
  import opened KcpModel
  import opened KcpWire
  import opened KcpSystem
  import opened KcpInvariant
  import opened KcpRefinement

  // ------------------------------------------------------------- reliability

  /** The bytes that one side's `ikcp_recv` returned are a prefix of the bytes that the other side's
      `ikcp_send` accepted, however the network drops, duplicates and reorders. */
  lemma ReliableStream(conv: u32, acts: seq<Action>, i: Side)
    requires ClearRun(Init(conv), acts)
    ensures var s := Run(Wrapping, Init(conv), acts); Get(s, i).delivered <= Get(s, Other(i)).accepted
  {
    RunKeeps(conv, acts);
    RunRefines(conv, acts);
    var s := Run(Unbounded, Init(conv), acts);
    DeliveredIsPrefix(Get(s, i), Get(s, Other(i)));
  }

  // ----------------------------------------------------------- nothing is lost

  function FindIn(buf: seq<InSeg>, sn: int): Option<seq<byte>> {
    if buf == [] then None else if buf[0].sn == sn then Some(buf[0].data) else FindIn(buf[1..], sn)
  }

  function FindOut(buf: seq<OutSeg>, sn: int): Option<seq<byte>> {
    if buf == [] then None else if buf[0].sn == sn then Some(buf[0].data) else FindOut(buf[1..], sn)
  }

  /** The payload numbered `sn`, from the receive buffer or else from the send buffer. */
  function Stored(sender: Cb, receiver: Cb, sn: int): seq<byte> {
    match FindIn(receiver.rcvBuf, sn)
    case Some(data) => data
    case None =>
      match FindOut(sender.sndBuf, sn)
      case Some(data) => data
      case None => []
  }

  function Outstanding(m: Arith, sender: Cb, receiver: Cb, n: nat): (r: seq<seq<byte>>)
    ensures |r| == n && forall k :: 0 <= k < n ==> r[k] == Stored(sender, receiver, Norm(m, receiver.rcvNxt + k))
  {
    seq(n, k requires 0 <= k < n => Stored(sender, receiver, Norm(m, receiver.rcvNxt + k)))
  }

  /** All the bytes of one direction that exist anywhere, in stream order: delivered, in the receive
      queue, in the receive or send buffer, and in the send queue. */
  function Rebuild(m: Arith, sender: Cb, receiver: Cb, delivered: seq<byte>): seq<byte> {
    var n := Diff(m, sender.sndNxt, receiver.rcvNxt);
    delivered + Flatten(Payloads(receiver.rcvQueue)) +
    Flatten(Outstanding(m, sender, receiver, if n >= 0 then n else 0)) + Flatten(sender.sndQueue)
  }

  lemma {:induction false} FindInOk(buf: seq<InSeg>, sn: int, hist: seq<seq<byte>>)
    requires forall i :: 0 <= i < |buf| ==> 0 <= buf[i].sn < |hist| && buf[i].data == hist[buf[i].sn]
    ensures FindIn(buf, sn).Some? ==> 0 <= sn < |hist| && FindIn(buf, sn).value == hist[sn]
    ensures FindIn(buf, sn).None? ==> forall i :: 0 <= i < |buf| ==> buf[i].sn != sn
  {
    if buf != [] && buf[0].sn != sn {
      FindInOk(buf[1..], sn, hist);
      assert forall i :: 1 <= i < |buf| ==> buf[i] == buf[1..][i - 1];
    }
  }

  lemma {:induction false} FindOutOk(buf: seq<OutSeg>, sn: int, hist: seq<seq<byte>>)
    requires forall i :: 0 <= i < |buf| ==> 0 <= buf[i].sn < |hist| && buf[i].data == hist[buf[i].sn]
    ensures FindOut(buf, sn).Some? ==> 0 <= sn < |hist| && FindOut(buf, sn).value == hist[sn]
    ensures FindOut(buf, sn).None? ==> forall i :: 0 <= i < |buf| ==> buf[i].sn != sn
  {
    if buf != [] && buf[0].sn != sn {
      FindOutOk(buf[1..], sn, hist);
      assert forall i :: 1 <= i < |buf| ==> buf[i] == buf[1..][i - 1];
    }
  }

  lemma StoredOk(sender: Cb, receiver: Cb, hist: seq<seq<byte>>, sn: int)
    requires SenderOk(sender, hist) && ReceiverOk(receiver, hist) && Conserved(sender, receiver, hist)
    requires receiver.rcvNxt <= sn < |hist|
    ensures Stored(sender, receiver, sn) == hist[sn]
  {
    FindInOk(receiver.rcvBuf, sn, hist);
    FindOutOk(sender.sndBuf, sn, hist);
    assert InFlight(sender, sn) || Held(receiver, sn);
  }

  lemma OutstandingOk(sender: Cb, receiver: Cb, hist: seq<seq<byte>>)
    requires SenderOk(sender, hist) && ReceiverOk(receiver, hist) && Conserved(sender, receiver, hist)
    ensures Outstanding(Unbounded, sender, receiver, sender.sndNxt - receiver.rcvNxt) == hist[receiver.rcvNxt..]
  {
    forall i | 0 <= i < |hist| - receiver.rcvNxt
      ensures Stored(sender, receiver, receiver.rcvNxt + i) == hist[receiver.rcvNxt..][i]
    {
      StoredOk(sender, receiver, hist, receiver.rcvNxt + i);
    }
  }

  lemma Slices(hist: seq<seq<byte>>, k: nat, n: nat)
    requires k <= n <= |hist|
    ensures hist[..k] + hist[k..n] == hist[..n] && hist[..n] + hist[n..] == hist
  {
  }

  lemma Assembled(delivered: seq<byte>, queued: seq<seq<byte>>, rest: seq<seq<byte>>, hist: seq<seq<byte>>, k: nat,
                  n: nat)
    requires k <= n <= |hist| && delivered == Flatten(hist[..k]) && queued == hist[k..n] && rest == hist[n..]
    ensures delivered + Flatten(queued) + Flatten(rest) == Flatten(hist)
  {
    Slices(hist, k, n);
    FlattenAppend(hist[..k], hist[k..n]);
    FlattenAppend(hist[..n], hist[n..]);
  }

  lemma QueuedPayloads(cb: Cb, hist: seq<seq<byte>>)
    requires ReceiverOk(cb, hist)
    ensures 0 <= cb.rcvNxt - |cb.rcvQueue| && cb.rcvNxt <= |hist|
    ensures Payloads(cb.rcvQueue) == hist[cb.rcvNxt - |cb.rcvQueue|..cb.rcvNxt]
  {
  }

  lemma {:induction false} RebuildUnbounded(p: Party, q: Party)
    requires PartyOk(p, q.hist) && PartyOk(q, p.hist) && Conserved(p.cb, q.cb, p.hist)
    ensures Rebuild(Unbounded, p.cb, q.cb, q.delivered) == p.accepted
  {
    var nxt, k := q.cb.rcvNxt, q.cb.rcvNxt - |q.cb.rcvQueue|;
    QueuedPayloads(q.cb, p.hist);
    OutstandingOk(p.cb, q.cb, p.hist);
    var rest := Outstanding(Unbounded, p.cb, q.cb, p.cb.sndNxt - nxt);
    Assembled(q.delivered, Payloads(q.cb.rcvQueue), rest, p.hist, k, nxt);
  }

  lemma {:induction false} FindInShadow(buf: seq<InSeg>, sn: int)
    requires forall i :: 0 <= i < |buf| ==> -TWO32 < buf[i].sn - sn < TWO32
    ensures FindIn(InShadow(buf), W(sn)) == FindIn(buf, sn)
  {
    if buf != [] {
      NormInjective(buf[0].sn, sn);
      assert InShadow(buf)[1..] == InShadow(buf[1..]);
      FindInShadow(buf[1..], sn);
    }
  }

  lemma {:induction false} FindOutShadow(buf: seq<OutSeg>, sn: int)
    requires forall i :: 0 <= i < |buf| ==> -TWO32 < buf[i].sn - sn < TWO32
    ensures FindOut(OutShadow(buf), W(sn)) == FindOut(buf, sn)
  {
    if buf != [] {
      NormInjective(buf[0].sn, sn);
      assert OutShadow(buf)[1..] == OutShadow(buf[1..]);
      FindOutShadow(buf[1..], sn);
    }
  }

  /** The stored payload is found under its 32-bit number as well. */
  lemma StoredShadow(sender: Cb, receiver: Cb, hist: seq<seq<byte>>, k: nat)
    requires SenderOk(sender, hist) && ReceiverOk(receiver, hist) && Conserved(sender, receiver, hist)
    requires k < |hist| - receiver.rcvNxt
    ensures Stored(CbShadow(sender), CbShadow(receiver), Norm(Wrapping, W(receiver.rcvNxt) + k))
         == Stored(sender, receiver, receiver.rcvNxt + k)
  {
    WindowBound(sender, receiver, hist);
    var sn := receiver.rcvNxt + k;
    NormOffset(receiver.rcvNxt, k);
    FindInShadow(receiver.rcvBuf, sn);
    FindOutShadow(sender.sndBuf, sn);
  }

  lemma NormOffset(x: int, k: int)
    ensures Norm(Wrapping, W(x) + k) == W(x + k)
  {
    ModShift(x + k, -(x / TWO32));
    assert W(x) + k == (x + k) + -(x / TWO32) * TWO32;
  }

  lemma OutstandingShadow(sender: Cb, receiver: Cb, hist: seq<seq<byte>>, n: nat)
    requires SenderOk(sender, hist) && ReceiverOk(receiver, hist) && Conserved(sender, receiver, hist)
    requires n == |hist| - receiver.rcvNxt
    ensures Outstanding(Wrapping, CbShadow(sender), CbShadow(receiver), n)
         == Outstanding(Unbounded, sender, receiver, n)
  {
    var left := Outstanding(Wrapping, CbShadow(sender), CbShadow(receiver), n);
    var right := Outstanding(Unbounded, sender, receiver, n);
    forall k | 0 <= k < n
      ensures left[k] == right[k]
    {
      StoredShadow(sender, receiver, hist, k);
    }
  }

  lemma RebuildShadow(p: Party, q: Party)
    requires PartyOk(p, q.hist) && PartyOk(q, p.hist) && Conserved(p.cb, q.cb, p.hist)
    ensures Rebuild(Wrapping, CbShadow(p.cb), CbShadow(q.cb), q.delivered)
         == Rebuild(Unbounded, p.cb, q.cb, q.delivered)
  {
    WindowBound(p.cb, q.cb, p.hist);
    DiffShadow(p.cb.sndNxt, q.cb.rcvNxt, 0);
    OutstandingShadow(p.cb, q.cb, p.hist, p.cb.sndNxt - q.cb.rcvNxt);
    assert Payloads(InShadow(q.cb.rcvQueue)) == Payloads(q.cb.rcvQueue);
  }

  /** No byte is ever lost: from the two control blocks and the bytes already delivered, every byte
      that `ikcp_send` accepted can be put back together, in order. */
  lemma NothingLost(conv: u32, acts: seq<Action>, i: Side)
    requires ClearRun(Init(conv), acts)
    ensures var s := Run(Wrapping, Init(conv), acts);
            var sender, receiver := Get(s, i), Get(s, Other(i));
            Rebuild(Wrapping, sender.cb, receiver.cb, receiver.delivered) == sender.accepted
  {
    RunKeeps(conv, acts);
    RunRefines(conv, acts);
    var s := Run(Unbounded, Init(conv), acts);
    RebuildUnbounded(Get(s, i), Get(s, Other(i)));
    RebuildShadow(Get(s, i), Get(s, Other(i)));
  }

  // -------------------------------------------------------------------- bounds

  lemma {:induction false} SpanIn(buf: seq<InSeg>, i: nat)
    requires SortedIn(buf) && i < |buf|
    ensures buf[i].sn >= buf[0].sn + i
  {
    if i > 0 {
      SpanIn(buf, i - 1);
    }
  }

  lemma {:induction false} SpanOut(buf: seq<OutSeg>, i: nat)
    requires SortedOut(buf) && i < |buf|
    ensures buf[i].sn >= buf[0].sn + i
  {
    if i > 0 {
      SpanOut(buf, i - 1);
    }
  }

  /** Queues and windows in the 32-bit reading. */
  ghost predicate Bounded(cb: Cb) {
    && |cb.rcvQueue| <= RCV_WND && |cb.rcvBuf| <= RCV_WND && |cb.sndBuf| <= SND_WND
    && 0 <= Diff(Wrapping, cb.sndNxt, cb.sndUna) <= SND_WND
    && (forall i :: 0 <= i < |cb.sndBuf| ==>
          0 <= Diff(Wrapping, cb.sndBuf[i].sn, cb.sndUna) < Diff(Wrapping, cb.sndNxt, cb.sndUna))
    && (forall i, j :: 0 <= i < j < |cb.sndBuf| ==>
          Diff(Wrapping, cb.sndBuf[i].sn, cb.sndUna) < Diff(Wrapping, cb.sndBuf[j].sn, cb.sndUna))
    && (forall i :: 0 <= i < |cb.rcvBuf| ==> 0 <= Diff(Wrapping, cb.rcvBuf[i].sn, cb.rcvNxt) < RCV_WND)
    && (forall i, j :: 0 <= i < j < |cb.rcvBuf| ==>
          Diff(Wrapping, cb.rcvBuf[i].sn, cb.rcvNxt) < Diff(Wrapping, cb.rcvBuf[j].sn, cb.rcvNxt))
  }

  lemma ShadowBounded(cb: Cb, hist: seq<seq<byte>>, peerHist: seq<seq<byte>>)
    requires SenderOk(cb, hist) && ReceiverOk(cb, peerHist)
    ensures Bounded(CbShadow(cb))
  {
    if cb.rcvBuf != [] {
      SpanIn(cb.rcvBuf, |cb.rcvBuf| - 1);
    }
    if cb.sndBuf != [] {
      SpanOut(cb.sndBuf, |cb.sndBuf| - 1);
    }
    DiffShadow(cb.sndNxt, cb.sndUna, 0);
    forall i | 0 <= i < |cb.sndBuf|
      ensures Diff(Wrapping, W(cb.sndBuf[i].sn), W(cb.sndUna)) == cb.sndBuf[i].sn - cb.sndUna
    {
      DiffShadow(cb.sndBuf[i].sn, cb.sndUna, 0);
    }
    forall i | 0 <= i < |cb.rcvBuf|
      ensures Diff(Wrapping, W(cb.rcvBuf[i].sn), W(cb.rcvNxt)) == cb.rcvBuf[i].sn - cb.rcvNxt
    {
      DiffShadow(cb.rcvBuf[i].sn, cb.rcvNxt, 0);
    }
  }

  /** In every run both buffers stay strictly ordered inside their windows and all queues stay within theirs. */
  lemma WindowsBounded(conv: u32, acts: seq<Action>, i: Side)
    requires ClearRun(Init(conv), acts)
    ensures Bounded(Get(Run(Wrapping, Init(conv), acts), i).cb)
  {
    RunKeeps(conv, acts);
    RunRefines(conv, acts);
    var s := Run(Unbounded, Init(conv), acts);
    ShadowBounded(Get(s, i).cb, Get(s, i).hist, Get(s, Other(i)).hist);
  }
}
