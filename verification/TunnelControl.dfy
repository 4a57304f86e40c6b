/** The stream state as the C code keeps it: mutable flags beside a KCP control block. */
module TunnelControl {
  import opened Common
  import opened SerialNumbers
  import opened Bytes
  import M = KcpModel
  import KcpWire
  import KcpSystem
  import T = Tunnel
  import E = Envelope
  import opened KcpControl

  class StreamState {
    const kcp: Kcp
    const initiator: bool
    const session: seq<byte>
    var ready: bool
    var helloSent: bool
    var localEof: bool
    var closeSent: bool
    var closeAcked: bool
    var remoteClose: bool
    var resetSent: bool
    var resetReceived: bool

    ghost predicate Valid()
      reads this, kcp
    {
      kcp.Valid()
    }

    ghost function Flags(): T.Flags
      reads this
    {
      T.Flags(initiator, ready, helloSent, localEof, closeSent, closeAcked, remoteClose, resetSent, resetReceived)
    }

    constructor (conv: u32, initiator: bool, session: seq<byte>)
      ensures Valid() && fresh(kcp) && kcp.Model() == M.Create(conv) && Flags() == T.NewFlags(initiator)
      ensures this.session == session
    {
      kcp := new Kcp(conv);
      this.initiator, this.session := initiator, session;
      ready, helloSent, localEof, closeSent := false, false, false, false;
      closeAcked, remoteClose, resetSent, resetReceived := false, false, false, false;
    }

    method CanSendData() returns (can: bool)
      requires Valid()
      ensures can == T.CanSendData(kcp.Model(), Flags())
    {
      can := ready && !localEof && kcp.nsndBuf + kcp.nsndQue < T.MAX_WAIT_SEND;
    }

    method IsDone() returns (done: bool)
      requires Valid()
      ensures done == T.IsDone(kcp.Model(), Flags())
    {
      done := localEof && closeAcked && remoteClose && kcp.nsndBuf + kcp.nsndQue == 0;
    }

    /** Drains all reconstructed bytes into the TCP socket. */
    method Drain(sink: T.Sink) returns (written: seq<byte>, ghost received: seq<byte>, ok: bool)
      requires Valid()
      modifies kcp
      ensures Valid()
      ensures T.Drained(kcp.Model(), received, written, ok) == T.Drain(Wrapping, old(kcp.Model()), sink)
    {
      written, received := [], [];
      var socket := sink;
      while true
        invariant Valid()
        invariant Prepend(received, written, T.Drain(Wrapping, kcp.Model(), socket))
               == T.Drain(Wrapping, old(kcp.Model()), sink)
        decreases |kcp.rcvQueue| + |kcp.rcvBuf|
      {
        ghost var cb := kcp.Model();
        DrainStep(cb, socket, received, written);
        var available := kcp.PeekSize();
        if available < 0 {
          return written, received, true;
        }
        if available > T.BUF {
          return written, received, false;
        }
        var size, out := kcp.Recv(T.BUF);
        if size < 0 {
          return written, received, false;
        }
        M.RecvShrinks(Wrapping, cb, T.BUF);
        if |out| > 0 {
          if socket.FailsAfter? && socket.chunks == 0 {
            var partial := if socket.partial <= |out| then socket.partial else |out|;
            return written + out[..partial], received + out, false;
          }
          socket := T.AfterWrite(socket);
        }
        written, received := written + out, received + out;
      }
    }

    /** Dispatches one UDP datagram through handshake, KCP or teardown. */
    method ProcessPacket(frame: seq<byte>, sink: T.Sink)
      returns (sent: seq<T.Control>, written: seq<byte>, ghost received: seq<byte>, shutdown: bool, ok: bool)
      requires Valid()
      modifies this, kcp
      ensures Valid()
      ensures T.Outcome(kcp.Model(), Flags(), sent, received, written, shutdown, ok)
           == E.ProcessBytes(old(kcp.Model()), old(Flags()), session, frame, sink)
    {
      sent, written, received, shutdown, ok := [], [], [], false, true;
      var u := E.Unpack(frame);
      if u.NotEnvelope? {
        return;
      }
      var f := u.frame;
      var expected := if initiator then E.ROLE_RESPONDER else E.ROLE_INITIATOR;
      if f.role != expected || f.session != session {
        return;
      }
      if f.kind == E.TYPE_KCP {
        if ready {
          written, received, ok := InputAndDrain(f.payload, sink);
        }
        return;
      }
      E.PackUnpack(frame);
      var ctl := E.KindControl(f.kind);
      if ctl == T.Close && ready {
        written, received, ok := Drain(sink);
        if ok {
          shutdown := !remoteClose;
          remoteClose := true;
          sent := [T.CloseAck];
        }
        return;
      }
      sent, ok := ProcessFlags(ctl);
    }

    method InputAndDrain(payload: seq<byte>, sink: T.Sink)
      returns (written: seq<byte>, ghost received: seq<byte>, ok: bool)
      requires Valid()
      modifies kcp
      ensures Valid()
      ensures T.Outcome(kcp.Model(), Flags(), [], received, written, false, ok)
           == T.AfterInput(Wrapping, Flags(), KcpWire.InputBytes(old(kcp.Model()), payload), sink)
    {
      var code := kcp.Input(payload);
      if code != 0 {
        return [], [], false;
      }
      written, received, ok := Drain(sink);
    }

    method ProcessFlags(ctl: T.Control) returns (sent: seq<T.Control>, ok: bool)
      requires Valid()
      modifies this
      ensures Valid()
      ensures T.Outcome(kcp.Model(), Flags(), sent, [], [], false, ok) == T.ProcessFlags(kcp.Model(), old(Flags()), ctl)
    {
      sent, ok := [], true;
      if ctl == T.Hello && !initiator {
        ready, sent := true, [T.HelloAck];
      } else if ctl == T.HelloAck && initiator {
        ready := true;
      } else if !ready {
        return;
      } else if ctl == T.CloseAck {
        closeAcked := true;
      } else if ctl == T.Reset {
        resetReceived, ok := true, false;
      }
    }

    /** Reads one local TCP chunk and queues its bytes in KCP. */
    method PumpTcp(r: T.Read) returns (ok: bool)
      requires Valid() && (r.Chunk? ==> 0 < |r.data| <= T.BUF)
      modifies this, kcp
      ensures Valid()
      ensures var can := T.CanSendData(old(kcp.Model()), old(Flags()));
              && Flags() == old(Flags()).(localEof := old(localEof) || (can && r.Eof?))
              && kcp.Model() == (if can && r.Chunk? then M.Send(old(kcp.Model()), r.data).0 else old(kcp.Model()))
              && ok == !(can && (r.Error? || (r.Chunk? && M.Send(old(kcp.Model()), r.data).1 != |r.data|)))
    {
      var can := CanSendData();
      if !can {
        return true;
      }
      match r {
        case WouldBlock => ok := true;
        case Error => ok := false;
        case Eof =>
          localEof := true;
          ok := true;
        case Chunk(data) =>
          var sent := kcp.Send(data);
          ok := sent == |data|;
      }
    }

    /** Advances KCP and the tunnel lifecycle when due; returns the UDP payloads of KCP and the control
        frames, in order. */
    method Tick(t: T.TickChoice)
      returns (datagrams: seq<seq<byte>>, sent: seq<T.Control>, ghost wires: seq<seq<M.Wire>>)
      requires Valid()
      modifies this, kcp
      ensures Valid() && datagrams == EncodeLog(wires)
      ensures T.Tick(Wrapping, old(kcp.Model()), old(Flags()), t) == T.Ticked(kcp.Model(), wires, Flags(), sent)
    {
      sent := TickHello(t);
      datagrams, wires := TickUpdate(t);
      sent := TickEnd(t, sent);
    }

    /** The handshake part of `redp2p_stream_tick`. */
    method TickHello(t: T.TickChoice) returns (sent: seq<T.Control>)
      requires Valid()
      modifies this`helloSent
      ensures Valid() && (Flags(), sent) == T.TickHello(old(Flags()), t)
    {
      sent := [];
      if initiator && !ready && (!helloSent || t.helloDue) {
        sent := [T.Hello];
        helloSent := true;
      }
    }

    /** Its KCP part. */
    method TickUpdate(t: T.TickChoice) returns (datagrams: seq<seq<byte>>, ghost wires: seq<seq<M.Wire>>)
      requires Valid()
      modifies kcp
      ensures Valid() && datagrams == EncodeLog(wires)
      ensures (kcp.Model(), wires)
           == if ready && t.updateDue then KcpSystem.Update(Wrapping, old(kcp.Model()), t.flushDue, t.flush)
              else (old(kcp.Model()), [])
    {
      datagrams, wires := [], [];
      if ready && t.updateDue {
        wires := KcpSystem.Update(Wrapping, kcp.Model(), t.flushDue, t.flush).1;
        datagrams := Update(t.flushDue, t.flush);
      }
    }

    /** Its closing and keep-alive part. */
    method TickEnd(t: T.TickChoice, sent0: seq<T.Control>) returns (sent: seq<T.Control>)
      requires Valid()
      modifies this`closeSent
      ensures Valid() && (Flags(), sent) == T.TickEnd(kcp.Model(), old(Flags()), t, sent0)
    {
      sent := sent0;
      if ready && localEof && !closeAcked && kcp.nsndBuf + kcp.nsndQue == 0 && (!closeSent || t.closeDue) {
        sent := sent + [T.Close];
        closeSent := true;
      } else {
        assert sent + [] == sent;
      }
      if ready && t.keepAliveDue {
        sent := sent + [T.KeepAlive];
      } else {
        assert sent + [] == sent;
      }
    }

    method Update(due: bool, ch: M.FlushChoice) returns (datagrams: seq<seq<byte>>)
      requires Valid()
      modifies kcp
      ensures Valid()
      ensures var (cb, ds) := KcpSystem.Update(Wrapping, old(kcp.Model()), due, ch);
              kcp.Model() == cb && datagrams == EncodeLog(ds)
    {
      kcp.updated := true;
      datagrams := [];
      if due {
        datagrams := kcp.Flush(ch);
      }
    }
  }

  ghost function Prepend(received: seq<byte>, written: seq<byte>, d: T.Drained): T.Drained {
    d.(received := received + d.received, written := written + d.written)
  }

  /** One iteration of the drain loop, on values. */
  lemma DrainStep(cb: M.Cb, sink: T.Sink, received: seq<byte>, written: seq<byte>)
    ensures var size, r := M.PeekSize(cb), M.Recv(Wrapping, cb, T.BUF);
            var whole := Prepend(received, written, T.Drain(Wrapping, cb, sink));
            if size < 0 then whole == T.Drained(cb, received, written, true)
            else if size > T.BUF then whole == T.Drained(cb, received, written, false)
            else if r.1 < 0 then whole == T.Drained(r.0, received, written, false)
            else if T.WriteFails(sink, r.2) then
              whole == T.Drained(r.0, received + r.2, written + r.2[..Min(sink.partial, |r.2|)], false)
            else whole == Prepend(received + r.2, written + r.2,
                                  T.Drain(Wrapping, r.0, if r.2 == [] then sink else T.AfterWrite(sink)))
  {
    var (c, n, out) := M.Recv(Wrapping, cb, T.BUF);
    NothingMore(received, written, cb, true);
    NothingMore(received, written, cb, false);
    NothingMore(received, written, c, false);
    OneMore(received, written, out, T.Drain(Wrapping, c, if out == [] then sink else T.AfterWrite(sink)));
  }

  lemma NothingMore(received: seq<byte>, written: seq<byte>, cb: M.Cb, ok: bool)
    ensures Prepend(received, written, T.Drained(cb, [], [], ok)) == T.Drained(cb, received, written, ok)
  {
  }

  lemma OneMore(received: seq<byte>, written: seq<byte>, out: seq<byte>, rest: T.Drained)
    ensures Prepend(received, written, T.Drained(rest.cb, out + rest.received, out + rest.written, rest.ok))
         == Prepend(received + out, written + out, rest)
  {
    assert received + (out + rest.received) == (received + out) + rest.received;
    assert written + (out + rest.written) == (written + out) + rest.written;
  }
}
