/** The control block as the C code keeps it: mutable fields, counters beside the queues, loops that
    walk and edit them, and 32-bit arithmetic.  Each method is proved to compute the `Wrapping`
    reading of its specification in `KcpModel`. */
module KcpControl {
  import opened Common
  import opened SerialNumbers
  import opened Bytes
  import M = KcpModel
  import opened KcpWire

  type Wire = M.Wire

  /** A segment of the send buffer, whose number is a 32-bit value. */
  type NumberedSeg = s: M.OutSeg | 0 <= s.sn < TWO32 witness M.OutSeg(0, 0, [])

  // ------------------------------------------------- loops as folds of the model

  lemma {:induction false} DropAckedPrefix(buf: seq<M.OutSeg>, p: nat, sn: int)
    requires p <= |buf|
    requires forall i :: 0 <= i < p ==> buf[i].sn != sn && Diff(Wrapping, sn, buf[i].sn) >= 0
    ensures M.DropAcked(Wrapping, buf, sn) == buf[..p] + M.DropAcked(Wrapping, buf[p..], sn)
  {
    if p > 0 {
      var tail := buf[1..];
      DropAckedPrefix(tail, p - 1, sn);
      assert tail[p - 1..] == buf[p..];
      assert [buf[0]] + tail[..p - 1] == buf[..p];
      AssociativeOut([buf[0]], tail[..p - 1], M.DropAcked(Wrapping, buf[p..], sn));
    } else {
      assert buf[0..] == buf;
    }
  }

  lemma AssociativeOut(a: seq<M.OutSeg>, b: seq<M.OutSeg>, c: seq<M.OutSeg>)
    ensures a + (b + c) == (a + b) + c
  {
  }

  lemma {:induction false} InsertSuffix(buf: seq<M.InSeg>, p: nat, seg: M.InSeg)
    requires p <= |buf|
    requires forall i :: p <= i < |buf| ==> buf[i].sn != seg.sn && Diff(Wrapping, seg.sn, buf[i].sn) <= 0
    ensures M.Insert(Wrapping, buf, seg) == M.Insert(Wrapping, buf[..p], seg) + buf[p..]
    decreases |buf| - p
  {
    if p < |buf| {
      var front := buf[..|buf| - 1];
      InsertSuffix(front, p, seg);
      assert front[..p] == buf[..p];
      assert front[p..] + [buf[|buf| - 1]] == buf[p..];
    } else {
      assert buf[..p] == buf;
    }
  }

  lemma {:induction false} ChunksStep(chunks: seq<seq<byte>>, data: seq<byte>)
    requires data != []
    ensures var n := Min(|data|, M.MSS);
            chunks + M.Chunks(data) == (chunks + [data[..n]]) + M.Chunks(data[n..])
  {
    if |data| <= M.MSS {
      assert data[..|data|] == data && M.Chunks(data[|data|..]) == [];
    }
  }

  lemma PayloadsStep(q: seq<M.InSeg>, i: nat)
    requires i < |q|
    ensures Flatten(M.Payloads(q[..i + 1])) == Flatten(M.Payloads(q[..i])) + q[i].data
  {
    assert M.Payloads(q[..i + 1]) == M.Payloads(q[..i]) + [q[i].data];
    FlattenSnoc(M.Payloads(q[..i]), q[i].data);
  }

  lemma {:induction false} MessageLenAt(q: seq<M.InSeg>, i: nat)
    requires i < |q| && forall j :: 0 <= j < i ==> q[j].frg != 0
    requires q[i].frg == 0 || i + 1 == |q|
    ensures M.MessageLen(q) == i + 1
  {
    if i > 0 {
      MessageLenAt(q[1..], i - 1);
    } else if q[0].frg != 0 {
      assert q[1..] == [];
    }
  }

  /** The bytes of packed datagrams. */
  function EncodeLog(ds: seq<seq<Wire>>): (r: seq<seq<byte>>)
    ensures |r| == |ds| && forall i :: 0 <= i < |r| ==> r[i] == EncodeAll(ds[i])
  {
    seq(|ds|, i requires 0 <= i < |ds| => EncodeAll(ds[i]))
  }

  /** Packing as the code does it, one appended segment at a time: the datagrams sent off so far, and
      the segments still in the buffer. */
  function PackFold(ws: seq<Wire>): (r: (seq<seq<Wire>>, seq<Wire>))
    decreases |ws|
  {
    if ws == [] then ([], [])
    else
      var (packed, cur) := PackFold(ws[..|ws| - 1]);
      PackOne(packed, cur, ws[|ws| - 1])
  }

  function PackOne(packed: seq<seq<Wire>>, cur: seq<Wire>, w: Wire): (seq<seq<Wire>>, seq<Wire>) {
    if M.Size(cur) + M.WireSize(w) > M.MTU then (packed + M.Emit(cur), [w]) else (packed, cur + [w])
  }

  lemma {:induction false} PackFoldSplits(a: seq<Wire>, b: seq<Wire>)
    ensures M.Pack([], a + b) == PackFold(a).0 + M.Pack(PackFold(a).1, b)
    decreases |a|
  {
    if a == [] {
      assert a + b == b;
    } else {
      var front, w := a[..|a| - 1], a[|a| - 1];
      assert a + b == front + ([w] + b);
      PackFoldSplits(front, [w] + b);
      assert ([w] + b)[1..] == b;
    }
  }

  /** The same in bytes: the datagrams handed to the output callback, and the buffer. */
  function Emitted(ws: seq<Wire>): (seq<seq<byte>>, seq<byte>)
    decreases |ws|
  {
    if ws == [] then ([], []) else EmitNext(Emitted(ws[..|ws| - 1]), ws[|ws| - 1])
  }

  function EmitNext(e: (seq<seq<byte>>, seq<byte>), w: Wire): (seq<seq<byte>>, seq<byte>) {
    if |e.1| + M.OVERHEAD + |w.data| > M.MTU then (e.0 + (if |e.1| != 0 then [e.1] else []), EncodeWire(w))
    else (e.0, e.1 + EncodeWire(w))
  }

  lemma EmittedSnoc(ws: seq<Wire>, w: Wire)
    ensures Emitted(ws + [w]) == EmitNext(Emitted(ws), w)
  {
    assert (ws + [w])[..|ws|] == ws;
  }

  lemma {:induction false} EmittedIsPacked(ws: seq<Wire>)
    ensures Emitted(ws) == (EncodeLog(PackFold(ws).0), EncodeAll(PackFold(ws).1))
    decreases |ws|
  {
    if ws != [] {
      var front, w := ws[..|ws| - 1], ws[|ws| - 1];
      EmittedIsPacked(front);
      EmitOne(PackFold(front).0, PackFold(front).1, w);
    }
  }

  lemma EmitOne(packed: seq<seq<Wire>>, cur: seq<Wire>, w: Wire)
    ensures EmitNext((EncodeLog(packed), EncodeAll(cur)), w)
         == (EncodeLog(PackOne(packed, cur, w).0), EncodeAll(PackOne(packed, cur, w).1))
  {
    EncodeOne(w);
    EncodeAllAppend(cur, [w]);
    assert EncodeLog(packed + [cur]) == EncodeLog(packed) + [EncodeAll(cur)];
    assert packed + [] == packed && EncodeLog(packed) + [] == EncodeLog(packed);
  }

  /** The output callback has seen the completed datagrams of `appended`; the rest is buffered. */
  ghost predicate Packing(outs: seq<seq<byte>>, buffer: seq<byte>, appended: seq<Wire>) {
    (outs, buffer) == Emitted(appended)
  }

  /** The guard, output and encoding that `ikcp_flush` repeats for every segment. */
  method Append(outs: seq<seq<byte>>, buffer: seq<byte>, w: Wire, ghost appended: seq<Wire>)
    returns (outs': seq<seq<byte>>, buffer': seq<byte>)
    requires Packing(outs, buffer, appended)
    ensures Packing(outs', buffer', appended + [w])
  {
    outs', buffer' := outs, buffer;
    EmittedSnoc(appended, w);
    if |buffer| + M.OVERHEAD + |w.data| > M.MTU {
      if |buffer| != 0 {
        outs' := outs' + [buffer'];
      } else {
        assert outs + [] == outs;
      }
      buffer' := [];
    }
    assert buffer' + EncodeHeader(w) + w.data == buffer' + EncodeWire(w);
    assert [] + EncodeWire(w) == EncodeWire(w);
    buffer' := buffer' + EncodeHeader(w) + w.data;
  }

  lemma EncodeOne(w: Wire)
    ensures EncodeAll([w]) == EncodeWire(w)
  {
    assert [w][1..] == [];
  }

  lemma PackingDone(outs: seq<seq<byte>>, buffer: seq<byte>, appended: seq<Wire>)
    requires Packing(outs, buffer, appended)
    ensures (if |buffer| > 0 then outs + [buffer] else outs) == EncodeLog(M.Pack([], appended))
  {
    EmittedIsPacked(appended);
    PackFoldSplits(appended, []);
    assert appended + [] == appended;
  }

  /** The search loop of `ikcp_parse_data`, from the back of the receive buffer. */
  method FindSlot(buf: seq<M.InSeg>, seg: M.InSeg) returns (p: nat, repeated: bool)
    ensures p <= |buf|
    ensures M.Insert(Wrapping, buf, seg) == if repeated then buf else buf[..p] + [seg] + buf[p..]
  {
    repeated, p := false, |buf|;
    while p > 0
      invariant 0 <= p <= |buf|
      invariant forall i :: p <= i < |buf| ==> buf[i].sn != seg.sn && Diff(Wrapping, seg.sn, buf[i].sn) <= 0
    {
      InsertSuffix(buf, p, seg);
      if buf[p - 1].sn == seg.sn {
        assert buf[..p] + buf[p..] == buf;
        return p, true;
      }
      if Diff(Wrapping, seg.sn, buf[p - 1].sn) > 0 {
        return p, false;
      }
      p := p - 1;
    }
    InsertSuffix(buf, 0, seg);
    assert buf[..0] == [] && [] + [seg] == [seg];
  }

  class Kcp {
    const conv: u32
    var updated: bool
    var sndUna: u32
    var sndNxt: u32
    var rcvNxt: u32
    var rmtWnd: int
    var tell: bool
    var sndQueue: seq<seq<byte>>
    var sndBuf: seq<NumberedSeg>
    var rcvBuf: seq<M.InSeg>
    var rcvQueue: seq<M.InSeg>
    var nsndQue: nat
    var nsndBuf: nat
    var nrcvBuf: nat
    var nrcvQue: nat
    var acklist: seq<M.Ack>

    /** The counters agree with the queues. */
    ghost predicate Valid()
      reads this
    {
      nsndQue == |sndQueue| && nsndBuf == |sndBuf| && nrcvBuf == |rcvBuf| && nrcvQue == |rcvQueue|
    }

    ghost function Model(): M.Cb
      reads this
    {
      M.Cb(conv, updated, sndUna, sndNxt, rcvNxt, rmtWnd, tell, sndQueue, sndBuf, rcvBuf, rcvQueue, acklist)
    }

    constructor (conv: u32)
      ensures Valid() && Model() == M.Create(conv)
    {
      this.conv := conv;
      updated, sndUna, sndNxt, rcvNxt, rmtWnd, tell := false, 0, 0, 0, M.RCV_WND, false;
      sndQueue, sndBuf, rcvBuf, rcvQueue, acklist := [], [], [], [], [];
      nsndQue, nsndBuf, nrcvBuf, nrcvQue := 0, 0, 0, 0;
    }

    method Send(buffer: seq<byte>) returns (sent: int)
      requires Valid()
      modifies this
      ensures Valid() && (Model(), sent) == M.Send(old(Model()), buffer)
    {
      sent := 0;
      var rest := buffer;
      if |sndQueue| > 0 {
        var last := sndQueue[|sndQueue| - 1];
        if |last| < M.MSS {
          var capacity := M.MSS - |last|;
          var extend := if |rest| < capacity then |rest| else capacity;
          if extend == 0 {
            assert last + rest[..0] == last;
            assert sndQueue[..|sndQueue| - 1] + [last] == sndQueue;
          }
          sndQueue := sndQueue[..|sndQueue| - 1] + [last + rest[..extend]];
          rest := rest[extend..];
          sent := extend;
        }
      }
      assert sndQueue == M.ExtendLast(old(sndQueue), buffer[..sent]) && rest == buffer[sent..];
      if |rest| <= 0 {
        return;
      }
      var count := if |rest| <= M.MSS then 1 else (|rest| + M.MSS - 1) / M.MSS;
      if count >= M.RCV_WND {
        if sent == 0 {
          sent := -2;
        }
        return;
      }
      ghost var whole := sndQueue + M.Chunks(rest);
      var i := 0;
      while i < count
        invariant 0 <= i <= count && Valid()
        invariant Model() == old(Model()).(sndQueue := sndQueue)
        invariant sndQueue + M.Chunks(rest) == whole
        invariant sent + |rest| == |buffer|
        invariant (count - i - 1) * M.MSS < |rest| <= (count - i) * M.MSS || (i == count && rest == [])
      {
        var size := if |rest| > M.MSS then M.MSS else |rest|;
        ChunksStep(sndQueue, rest);
        sndQueue := sndQueue + [rest[..size]];
        nsndQue := nsndQue + 1;
        rest := rest[size..];
        sent := sent + size;
        i := i + 1;
      }
      assert sndQueue + M.Chunks(rest) == sndQueue;
    }

    method PeekSize() returns (size: int)
      requires Valid()
      ensures size == M.PeekSize(Model())
    {
      if |rcvQueue| == 0 {
        return -1;
      }
      if rcvQueue[0].frg == 0 {
        return |rcvQueue[0].data|;
      }
      if nrcvQue < rcvQueue[0].frg + 1 {
        return -1;
      }
      size := 0;
      var p := 0;
      while p < |rcvQueue|
        invariant 0 <= p <= |rcvQueue|
        invariant forall j :: 0 <= j < p ==> rcvQueue[j].frg != 0
        invariant size == |Flatten(M.Payloads(rcvQueue[..p]))|
        invariant p == |rcvQueue| ==> M.MessageLen(rcvQueue) == p
      {
        PayloadsStep(rcvQueue, p);
        size := size + |rcvQueue[p].data|;
        if rcvQueue[p].frg == 0 || p + 1 == |rcvQueue| {
          MessageLenAt(rcvQueue, p);
        }
        if rcvQueue[p].frg == 0 {
          return;
        }
        p := p + 1;
      }
    }

    /** The loop that `ikcp_recv` and `ikcp_parse_data` share. */
    method MoveReady()
      requires Valid()
      modifies this
      ensures Valid() && Model() == M.MoveReady(Wrapping, old(Model()))
    {
      while |rcvBuf| > 0
        invariant Valid() && M.MoveReady(Wrapping, Model()) == M.MoveReady(Wrapping, old(Model()))
        decreases |rcvBuf|
      {
        if rcvBuf[0].sn == rcvNxt && nrcvQue < M.RCV_WND {
          MoveFirst();
        } else {
          break;
        }
      }
    }

    /** Moves the head of the receive buffer. */
    method MoveFirst()
      requires Valid() && |rcvBuf| > 0
      modifies this
      ensures Valid() && Model() == M.MoveOne(Wrapping, old(Model())) && |rcvBuf| == old(|rcvBuf|) - 1
    {
      var seg := rcvBuf[0];
      rcvBuf, nrcvBuf := rcvBuf[1..], nrcvBuf - 1;
      rcvQueue, nrcvQue := rcvQueue + [seg], nrcvQue + 1;
      rcvNxt := (rcvNxt + 1) % TWO32;
    }

    /** The loop of `ikcp_recv` that merges the fragments of one message. */
    method TakeMessage(peek: bool) returns (out: seq<byte>)
      requires Valid() && |rcvQueue| > 0
      modifies this
      ensures Valid()
      ensures var n := M.MessageLen(old(rcvQueue));
              && out == Flatten(M.Payloads(old(rcvQueue)[..n]))
              && Model() == if peek then old(Model()) else old(Model()).(rcvQueue := old(rcvQueue)[n..])
    {
      out := [];
      var queue := rcvQueue;
      var p := 0;
      while p < |queue|
        invariant Valid() && 0 <= p <= |queue|
        invariant Model() == old(Model()).(rcvQueue := if peek then queue else queue[p..])
        invariant forall j :: 0 <= j < p ==> queue[j].frg != 0
        invariant out == Flatten(M.Payloads(queue[..p]))
        invariant p == |queue| ==> M.MessageLen(queue) == p
      {
        var seg := queue[p];
        PayloadsStep(queue, p);
        if seg.frg == 0 || p + 1 == |queue| {
          MessageLenAt(queue, p);
        }
        out := out + seg.data;
        if !peek {
          DeleteFirst();
        }
        p := p + 1;
        if seg.frg == 0 {
          break;
        }
      }
    }

    method DeleteFirst()
      requires Valid() && |rcvQueue| > 0
      modifies this
      ensures Valid() && Model() == old(Model()).(rcvQueue := old(rcvQueue)[1..])
    {
      rcvQueue, nrcvQue := rcvQueue[1..], nrcvQue - 1;
    }

    method Recv(len: int) returns (size: int, out: seq<byte>)
      requires Valid()
      modifies this
      ensures Valid() && (Model(), size, out) == M.Recv(Wrapping, old(Model()), len)
    {
      if |rcvQueue| == 0 {
        return -1, [];
      }
      var peek := PeekSize();
      if peek < 0 {
        return -2, [];
      }
      if peek > (if len < 0 then -len else len) {
        return -3, [];
      }
      var recover := nrcvQue >= M.RCV_WND;
      out := TakeMessage(len < 0);
      size := |out|;
      MoveReady();
      if nrcvQue < M.RCV_WND && recover {
        tell := true;
      }
    }

    method ParseUna(una: int)
      requires Valid()
      modifies this
      ensures Valid() && Model() == M.ParseUna(Wrapping, old(Model()), una)
    {
      while |sndBuf| > 0
        invariant Valid() && Model() == old(Model()).(sndBuf := sndBuf)
        invariant M.DropBelow(Wrapping, sndBuf, una) == M.DropBelow(Wrapping, old(sndBuf), una)
        decreases |sndBuf|
      {
        if Diff(Wrapping, una, sndBuf[0].sn) > 0 {
          sndBuf, nsndBuf := sndBuf[1..], nsndBuf - 1;
        } else {
          break;
        }
      }
    }

    method ShrinkBuf()
      requires Valid()
      modifies this
      ensures Valid() && Model() == M.ShrinkBuf(old(Model()))
    {
      if |sndBuf| > 0 {
        sndUna := sndBuf[0].sn;
      } else {
        sndUna := sndNxt;
      }
    }

    method ParseAck(sn: int)
      requires Valid()
      modifies this
      ensures Valid() && Model() == M.ParseAck(Wrapping, old(Model()), sn)
    {
      if Diff(Wrapping, sn, sndUna) < 0 || Diff(Wrapping, sn, sndNxt) >= 0 {
        return;
      }
      var p := 0;
      while p < |sndBuf|
        invariant 0 <= p <= |sndBuf| && Valid() && Model() == old(Model())
        invariant forall i :: 0 <= i < p ==> sndBuf[i].sn != sn && Diff(Wrapping, sn, sndBuf[i].sn) >= 0
      {
        DropAckedPrefix(sndBuf, p, sn);
        if sn == sndBuf[p].sn {
          assert sndBuf[p..][1..] == sndBuf[p + 1..];
          sndBuf, nsndBuf := sndBuf[..p] + sndBuf[p + 1..], nsndBuf - 1;
          return;
        }
        if Diff(Wrapping, sn, sndBuf[p].sn) < 0 {
          assert sndBuf[..p] + sndBuf[p..] == sndBuf;
          return;
        }
        p := p + 1;
      }
      DropAckedPrefix(sndBuf, p, sn);
      assert sndBuf[..p] + [] == sndBuf;
    }

    method ParseData(seg: M.InSeg)
      requires Valid()
      modifies this
      ensures Valid() && Model() == M.ParseData(Wrapping, old(Model()), seg)
    {
      if Diff(Wrapping, seg.sn, rcvNxt + M.RCV_WND) >= 0 || Diff(Wrapping, seg.sn, rcvNxt) < 0 {
        return;
      }
      var p, repeated := FindSlot(rcvBuf, seg);
      if !repeated {
        rcvBuf, nrcvBuf := rcvBuf[..p] + [seg] + rcvBuf[p..], nrcvBuf + 1;
      }
      MoveReady();
    }

    method InputUna(wnd: int, una: int)
      requires Valid()
      modifies this
      ensures Valid()
      ensures Model() == M.ShrinkBuf(M.ParseUna(Wrapping, old(Model()).(rmtWnd := wnd), una))
    {
      rmtWnd := wnd;
      ParseUna(una);
      ShrinkBuf();
    }

    method InputAck(sn: int)
      requires Valid()
      modifies this
      ensures Valid() && Model() == M.ShrinkBuf(M.ParseAck(Wrapping, old(Model()), sn))
    {
      ParseAck(sn);
      ShrinkBuf();
    }

    method InputPush(w: Wire)
      requires Valid()
      modifies this
      ensures Valid() && Model() == M.InputPush(Wrapping, old(Model()), w)
    {
      if Diff(Wrapping, w.sn, rcvNxt + M.RCV_WND) < 0 {
        acklist := acklist + [M.Ack(w.sn, w.ts)];
        if Diff(Wrapping, w.sn, rcvNxt) >= 0 {
          ParseData(M.InSeg(w.sn, w.frg, w.data));
        }
      }
    }

    /** One iteration of the loop of `ikcp_input`, after the header was read. */
    method InputSeg(w: Wire)
      requires Valid()
      modifies this
      ensures Valid() && Model() == M.InputSeg(Wrapping, old(Model()), w)
    {
      InputUna(w.wnd, w.una);
      if w.cmd == M.CMD_ACK {
        InputAck(w.sn);
      } else if w.cmd == M.CMD_PUSH {
        InputPush(w);
      } else if w.cmd == M.CMD_WASK {
        tell := true;
      }
    }

    method Input(bytes: seq<byte>) returns (code: int)
      requires Valid()
      modifies this
      ensures Valid() && (Model(), code) == InputBytes(old(Model()), bytes)
    {
      if |bytes| < M.OVERHEAD {
        return -1;
      }
      var data := bytes;
      while |data| >= M.OVERHEAD
        invariant Valid() && InputLoop(Model(), data) == InputLoop(old(Model()), bytes)
        decreases |data|
      {
        if Field(data, 0, 4) != conv {
          return -1;
        }
        var len := Field(data, 20, 4);
        var rest := data[M.OVERHEAD..];
        if |rest| < len || len >= TWO31 {
          return -2;
        }
        var w := DecodeHeader(data, rest[..len]);
        if !M.IsCommand(w.cmd) {
          return -3;
        }
        InputSeg(w);
        data := rest[len..];
      }
      code := 0;
    }

    /** `ikcp_flush`: the datagrams handed to the output callback, in order. */
    method Flush(ch: M.FlushChoice) returns (outs: seq<seq<byte>>)
      requires Valid()
      modifies this
      ensures Valid()
      ensures var (cb, sent) := M.Flush(Wrapping, old(Model()), ch); Model() == cb && outs == EncodeLog(sent)
    {
      if !updated {
        outs := [];
        return;
      }
      ghost var start := Model();
      var buffer: seq<byte>;
      var cwnd := Min(ch.cwnd, Min(M.SND_WND, rmtWnd));
      var wnd := if nrcvQue < M.RCV_WND then M.RCV_WND - nrcvQue else 0;
      outs, buffer := FlushControl(ch, wnd);
      acklist, tell := [], false;
      Admit(cwnd);
      AdmitFrame(start, cwnd);
      outs, buffer := Transmit(ch, wnd, outs, buffer, M.AckWires(start, start.acks) + M.ProbeWires(start, ch));
      PushWiresFrame(M.Admit(Wrapping, start, cwnd), [], false, 0, ch);
      PackingDone(outs, buffer, M.FlushWires(Wrapping, start, ch));
      if |buffer| > 0 {
        outs := outs + [buffer];
      }
    }

    /** Flushes acknowledgements and window probes. */
    method FlushControl(ch: M.FlushChoice, wnd: int) returns (outs: seq<seq<byte>>, buffer: seq<byte>)
      requires Valid() && wnd == M.WndUnused(Model())
      ensures Packing(outs, buffer, M.AckWires(Model(), acklist) + M.ProbeWires(Model(), ch))
    {
      var last;
      outs, buffer, last := FlushAcks(wnd);
      outs, buffer := FlushProbes(ch, wnd, last, outs, buffer, M.AckWires(Model(), acklist));
    }

    /** The loop over the acknowledgements; the last one stays in the segment used for the probes. */
    method FlushAcks(wnd: int) returns (outs: seq<seq<byte>>, buffer: seq<byte>, last: M.Ack)
      requires Valid() && wnd == M.WndUnused(Model())
      ensures last == M.LastAck(acklist) && Packing(outs, buffer, M.AckWires(Model(), acklist))
    {
      outs, buffer := [], [];
      last := M.Ack(0, 0);
      ghost var all := M.AckWires(Model(), acklist);
      var i := 0;
      while i < |acklist|
        invariant 0 <= i <= |acklist|
        invariant last == M.LastAck(acklist[..i])
        invariant Packing(outs, buffer, all[..i])
      {
        last := acklist[i];
        outs, buffer := Append(outs, buffer, M.Wire(conv, M.CMD_ACK, 0, wnd, last.ts, last.sn, rcvNxt, []), all[..i]);
        assert all[..i] + [M.AckWire(Model(), last)] == all[..i + 1];
        i := i + 1;
      }
      assert all[..i] == all && acklist[..i] == acklist;
    }

    method FlushProbes(ch: M.FlushChoice, wnd: int, last: M.Ack, outs0: seq<seq<byte>>, buffer0: seq<byte>,
                       ghost acks: seq<Wire>)
      returns (outs: seq<seq<byte>>, buffer: seq<byte>)
      requires Valid() && wnd == M.WndUnused(Model()) && last == M.LastAck(acklist)
      requires Packing(outs0, buffer0, acks)
      ensures Packing(outs, buffer, acks + M.ProbeWires(Model(), ch))
    {
      outs, buffer := outs0, buffer0;
      ghost var sofar := acks;
      if rmtWnd == 0 && ch.probeDue {
        var w := M.Wire(conv, M.CMD_WASK, 0, wnd, last.ts, last.sn, rcvNxt, []);
        outs, buffer := Append(outs, buffer, w, sofar);
        sofar := sofar + [w];
      }
      if tell {
        var w := M.Wire(conv, M.CMD_WINS, 0, wnd, last.ts, last.sn, rcvNxt, []);
        outs, buffer := Append(outs, buffer, w, sofar);
        sofar := sofar + [w];
      }
      assert sofar == acks + M.ProbeWires(Model(), ch);
    }

    /** Moves data from the send queue to the send buffer. */
    method Admit(cwnd: int)
      requires Valid()
      modifies this
      ensures Valid() && Model() == M.Admit(Wrapping, old(Model()), cwnd)
    {
      while Diff(Wrapping, sndNxt, sndUna + cwnd) < 0 && |sndQueue| > 0
        invariant Valid() && M.Admit(Wrapping, Model(), cwnd) == M.Admit(Wrapping, old(Model()), cwnd)
        decreases |sndQueue|
      {
        AdmitFirst();
      }
    }

    /** Gives the first queued payload the next number. */
    method AdmitFirst()
      requires Valid() && |sndQueue| > 0
      modifies this
      ensures Valid() && Model() == M.AdmitOne(Wrapping, old(Model()))
    {
      var first := sndQueue[0];
      sndQueue, nsndQue := sndQueue[1..], nsndQue - 1;
      sndBuf, nsndBuf := sndBuf + [M.OutSeg(sndNxt, 0, first)], nsndBuf + 1;
      sndNxt := (sndNxt + 1) % TWO32;
    }

    /** Transmits the due segments of the send buffer. */
    method Transmit(ch: M.FlushChoice, wnd: int, outs0: seq<seq<byte>>, buffer0: seq<byte>, ghost sofar: seq<Wire>)
      returns (outs: seq<seq<byte>>, buffer: seq<byte>)
      requires Valid() && Packing(outs0, buffer0, sofar) && wnd == M.WndUnused(Model())
      modifies this
      ensures Valid() && Model() == old(Model()).(sndBuf := M.Stamped(old(sndBuf), ch))
      ensures Packing(outs, buffer, sofar + M.PushWires(old(Model()), 0, ch))
    {
      ghost var start := Model();
      StampedEnds(start, ch);
      assert sofar + [] == sofar;
      outs, buffer := TransmitAll(ch, wnd, outs0, buffer0, sofar, start);
      PushedAll(start, |start.sndBuf|, ch);
    }

    /** The transmission loop. */
    method TransmitAll(ch: M.FlushChoice, wnd: int, outs0: seq<seq<byte>>, buffer0: seq<byte>, ghost sofar: seq<Wire>,
                       ghost start: M.Cb)
      returns (outs: seq<seq<byte>>, buffer: seq<byte>)
      requires Valid() && Model() == StampedTo(start, 0, ch) && wnd == M.WndUnused(start)
      requires Packing(outs0, buffer0, sofar + Pushed(start, 0, ch))
      modifies this
      ensures Valid() && Model() == StampedTo(start, |start.sndBuf|, ch)
      ensures Packing(outs, buffer, sofar + Pushed(start, |start.sndBuf|, ch))
    {
      outs, buffer := outs0, buffer0;
      var p := 0;
      while p < |sndBuf|
        invariant 0 <= p <= |sndBuf| == |start.sndBuf| && Valid()
        invariant Model() == StampedTo(start, p, ch)
        invariant Packing(outs, buffer, sofar + Pushed(start, p, ch))
      {
        PushedNext(sofar, start, p, ch);
        outs, buffer := TransmitOne(p, ch, wnd, outs, buffer, sofar + Pushed(start, p, ch), start);
        p := p + 1;
      }
    }

    /** One iteration of the transmission loop. */
    method TransmitOne(p: nat, ch: M.FlushChoice, wnd: int, outs0: seq<seq<byte>>, buffer0: seq<byte>,
                       ghost appended: seq<Wire>, ghost start: M.Cb)
      returns (outs: seq<seq<byte>>, buffer: seq<byte>)
      requires Valid() && p < |start.sndBuf| && Model() == StampedTo(start, p, ch) && wnd == M.WndUnused(start)
      requires Packing(outs0, buffer0, appended)
      modifies this
      ensures Valid() && Model() == StampedTo(start, p + 1, ch)
      ensures Packing(outs, buffer, appended + M.PushAt(start, p, ch))
    {
      outs, buffer := outs0, buffer0;
      StampedNext(start, p, ch);
      var seg := sndBuf[p];
      var need := seg.xmit == 0 || p in ch.resend;
      if need {
        var wire := M.Wire(conv, M.CMD_PUSH, 0, wnd, ch.now, seg.sn, rcvNxt, seg.data);
        outs, buffer := Append(outs, buffer, wire, appended);
      } else {
        assert appended + [] == appended;
      }
      Stamp(p, need, ch, start);
    }

    /** Counts a transmission. */
    method Stamp(p: nat, need: bool, ghost ch: M.FlushChoice, ghost start: M.Cb)
      requires Valid() && p < |start.sndBuf| && Model() == StampedTo(start, p, ch)
      requires need == M.NeedSend(start.sndBuf, p, ch)
      modifies this`sndBuf
      ensures Valid() && Model() == StampedTo(start, p + 1, ch)
    {
      StampedNext(start, p, ch);
      if need {
        sndBuf := sndBuf[p := sndBuf[p].(xmit := sndBuf[p].xmit + 1)];
      }
    }
  }

  /** What the first `p` segments of the send buffer contribute. */
  ghost function Pushed(cb: M.Cb, p: nat, ch: M.FlushChoice): seq<Wire>
    requires p <= |cb.sndBuf|
  {
    if p == 0 then [] else Pushed(cb, p - 1, ch) + M.PushAt(cb, p - 1, ch)
  }

  lemma PushedNext(sofar: seq<Wire>, cb: M.Cb, p: nat, ch: M.FlushChoice)
    requires p < |cb.sndBuf|
    ensures sofar + Pushed(cb, p, ch) + M.PushAt(cb, p, ch) == sofar + Pushed(cb, p + 1, ch)
  {
    assert sofar + Pushed(cb, p, ch) + M.PushAt(cb, p, ch) == sofar + (Pushed(cb, p, ch) + M.PushAt(cb, p, ch));
  }

  lemma {:induction false} PushedSplit(cb: M.Cb, p: nat, ch: M.FlushChoice)
    requires p <= |cb.sndBuf|
    ensures Pushed(cb, p, ch) + M.PushWires(cb, p, ch) == M.PushWires(cb, 0, ch)
  {
    if p > 0 {
      PushedSplit(cb, p - 1, ch);
      var a, b, c := Pushed(cb, p - 1, ch), M.PushAt(cb, p - 1, ch), M.PushWires(cb, p, ch);
      assert (a + b) + c == a + (b + c);
    } else {
      assert [] + M.PushWires(cb, 0, ch) == M.PushWires(cb, 0, ch);
    }
  }

  lemma PushedAll(cb: M.Cb, p: nat, ch: M.FlushChoice)
    requires p == |cb.sndBuf|
    ensures Pushed(cb, p, ch) == M.PushWires(cb, 0, ch)
  {
    PushedSplit(cb, p, ch);
    assert Pushed(cb, p, ch) + [] == Pushed(cb, p, ch);
  }

  /** The send buffer after its first `p` segments were considered. */
  ghost function StampedBuf(buf: seq<M.OutSeg>, p: nat, ch: M.FlushChoice): (r: seq<M.OutSeg>)
    ensures |r| == |buf|
    ensures forall i :: 0 <= i < |r| ==>
      r[i] == if i < p && M.NeedSend(buf, i, ch) then buf[i].(xmit := buf[i].xmit + 1) else buf[i]
  {
    seq(|buf|, i requires 0 <= i < |buf| =>
      if i < p && M.NeedSend(buf, i, ch) then buf[i].(xmit := buf[i].xmit + 1) else buf[i])
  }

  lemma StampedBufNext(buf: seq<M.OutSeg>, p: nat, ch: M.FlushChoice)
    requires p < |buf|
    ensures StampedBuf(buf, p, ch)[p] == buf[p]
    ensures StampedBuf(buf, p + 1, ch)
         == if M.NeedSend(buf, p, ch) then StampedBuf(buf, p, ch)[p := buf[p].(xmit := buf[p].xmit + 1)]
            else StampedBuf(buf, p, ch)
  {
    var s, next := StampedBuf(buf, p, ch), StampedBuf(buf, p + 1, ch);
    var r := if M.NeedSend(buf, p, ch) then s[p := buf[p].(xmit := buf[p].xmit + 1)] else s;
    forall i | 0 <= i < |buf|
      ensures next[i] == r[i]
    {
    }
    assert next == r;
  }

  /** The control block after the first `p` segments of the send buffer were considered. */
  ghost function StampedTo(start: M.Cb, p: nat, ch: M.FlushChoice): M.Cb
    requires p <= |start.sndBuf|
  {
    start.(sndBuf := StampedBuf(start.sndBuf, p, ch))
  }

  lemma StampedEnds(start: M.Cb, ch: M.FlushChoice)
    ensures StampedTo(start, 0, ch) == start
    ensures StampedTo(start, |start.sndBuf|, ch) == start.(sndBuf := M.Stamped(start.sndBuf, ch))
  {
    assert StampedTo(start, 0, ch).sndBuf == start.sndBuf;
    assert StampedTo(start, |start.sndBuf|, ch).sndBuf == M.Stamped(start.sndBuf, ch);
  }

  lemma StampedNext(start: M.Cb, p: nat, ch: M.FlushChoice)
    requires p < |start.sndBuf|
    ensures var buf, seg := StampedTo(start, p, ch).sndBuf, start.sndBuf[p];
            && buf[p] == seg
            && StampedTo(start, p + 1, ch).sndBuf
               == if M.NeedSend(start.sndBuf, p, ch) then buf[p := seg.(xmit := seg.xmit + 1)] else buf
  {
    StampedBufNext(start.sndBuf, p, ch);
  }

  lemma {:induction false} AdmitFrame(cb: M.Cb, cwnd: int)
    ensures M.Admit(Wrapping, cb.(acks := [], tell := false), cwnd)
         == M.Admit(Wrapping, cb, cwnd).(acks := [], tell := false)
    ensures M.Admit(Wrapping, cb, cwnd).rcvQueue == cb.rcvQueue
    decreases |cb.sndQueue|
  {
    if M.CanAdmit(Wrapping, cb, cwnd) {
      AdmitFrame(M.AdmitOne(Wrapping, cb), cwnd);
    }
  }

  lemma {:induction false} PushWiresFrame(cb: M.Cb, acks: seq<M.Ack>, tell: bool, i: nat, ch: M.FlushChoice)
    requires i <= |cb.sndBuf|
    ensures M.PushWires(cb.(acks := acks, tell := tell), i, ch) == M.PushWires(cb, i, ch)
    decreases |cb.sndBuf| - i
  {
    if i < |cb.sndBuf| {
      PushWiresFrame(cb, acks, tell, i + 1, ch);
    }
  }
}
