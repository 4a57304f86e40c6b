/** The redp2p envelope around tunnel datagrams, and packet processing from raw bytes. */
module Envelope {
  import opened SerialNumbers
  import opened Bytes
  import opened KcpModel
  import opened KcpWire
  import opened Tunnel

  const MAGIC: int := 0x50434b52
  const VERSION: byte := 2
  const ENVELOPE_SZ: int := 24
  const SESSION_SZ: int := 16
  const TYPE_KCP: byte := 3
  const ROLE_INITIATOR: byte := 1
  const ROLE_RESPONDER: byte := 2
  const PROTO_TCP: byte := 1

  datatype Frame = Frame(kind: byte, role: byte, session: seq<byte>, payload: seq<byte>)

  datatype Unpacked = NotEnvelope | Unpacked(frame: Frame)

  /** `redp2p_stream_pack`; an oversized payload gives nothing. */
  function Pack(f: Frame): (r: seq<byte>)
    requires |f.session| == SESSION_SZ
    ensures |f.payload| <= MTU ==> |r| == ENVELOPE_SZ + |f.payload|
    ensures |f.payload| > MTU ==> r == []
  {
    if |f.payload| > MTU then []
    else EncodeLE(MAGIC, 4) + [VERSION, f.kind, f.role, PROTO_TCP] + f.session + f.payload
  }

  /** `redp2p_stream_unpack`. */
  function Unpack(b: seq<byte>): (r: Unpacked)
  {
    if |b| < ENVELOPE_SZ || |b| > ENVELOPE_SZ + MTU then NotEnvelope
    else if DecodeLE(b[..4]) != MAGIC || b[4] != VERSION || b[5] < 1 || b[5] > 7 ||
            (b[6] != ROLE_INITIATOR && b[6] != ROLE_RESPONDER) || b[7] != PROTO_TCP then NotEnvelope
    else if b[5] != TYPE_KCP && |b| != ENVELOPE_SZ then NotEnvelope
    else Unpacked(Frame(b[5], b[6], b[8..24], b[24..]))
  }

  /** The frames that a conforming sender packs. */
  predicate WellFormed(f: Frame) {
    && 1 <= f.kind <= 7 && (f.role == ROLE_INITIATOR || f.role == ROLE_RESPONDER)
    && |f.session| == SESSION_SZ && |f.payload| <= MTU && (f.kind != TYPE_KCP ==> f.payload == [])
  }

  lemma UnpackPack(f: Frame)
    requires WellFormed(f)
    ensures Unpack(Pack(f)) == Unpacked(f)
  {
    var b := Pack(f);
    assert b[..4] == EncodeLE(MAGIC, 4);
    DecodeEncodeLE(MAGIC, 4);
    Pow256Values();
    assert b[8..24] == f.session;
    assert b[24..] == f.payload;
  }

  /** The envelope byte by byte: "RKCP", version 2, kind, role, protocol 1, and the session. */
  lemma PackedBytes(f: Frame)
    requires WellFormed(f)
    ensures var b := Pack(f);
            && b[..8] == [0x52, 0x4b, 0x43, 0x50, 2, f.kind, f.role, 1]
            && b[8..24] == f.session && b[24..] == f.payload
  {
    EncodeStep(MAGIC, 4);
    EncodeStep(MAGIC / 256, 3);
    EncodeStep(MAGIC / 256 / 256, 2);
    EncodeStep(MAGIC / 256 / 256 / 256, 1);
    assert Pack(f)[..4] == EncodeLE(MAGIC, 4);
  }

  /** A control frame on the wire: its kind tells the control, its role the sender. */
  lemma ControlBytes(initiator: bool, session: seq<byte>, ctl: Control)
    requires |session| == SESSION_SZ
    ensures var kinds := map[Hello := 1, HelloAck := 2, Close := 4, CloseAck := 5, Reset := 6, KeepAlive := 7];
            Pack(FrameOf(initiator, session, Ctl(ctl)))
            == [0x52, 0x4b, 0x43, 0x50, 2, kinds[ctl], if initiator then 1 else 2, 1] + session
  {
    var f := FrameOf(initiator, session, Ctl(ctl));
    PackedBytes(f);
    var b := Pack(f);
    assert b == b[..8] + b[8..24] + b[24..];
  }

  /** Only what `Pack` makes of a well-formed frame is accepted: the two are inverse to each other. */
  lemma PackUnpack(b: seq<byte>)
    requires Unpack(b).Unpacked?
    ensures WellFormed(Unpack(b).frame) && Pack(Unpack(b).frame) == b
  {
    EncodeDecodeLE(b[..4]);
    assert b == b[..4] + [b[4], b[5], b[6], b[7]] + b[8..24] + b[24..];
  }

  function Role(initiator: bool): byte {
    if initiator then ROLE_INITIATOR else ROLE_RESPONDER
  }

  function Kind(ctl: Control): byte {
    match ctl
    case Hello => 1
    case HelloAck => 2
    case Close => 4
    case CloseAck => 5
    case Reset => 6
    case KeepAlive => 7
  }

  function KindControl(kind: byte): Control
    requires 1 <= kind <= 7 && kind != TYPE_KCP
  {
    if kind == 1 then Hello else if kind == 2 then HelloAck else if kind == 4 then Close
    else if kind == 5 then CloseAck else if kind == 6 then Reset else KeepAlive
  }

  function FrameOf(initiator: bool, session: seq<byte>, msg: Message): Frame {
    match msg
    case Data(ws) => Frame(TYPE_KCP, Role(initiator), session, EncodeAll(ws))
    case Ctl(ctl) => Frame(Kind(ctl), Role(initiator), session, [])
  }

  function Ignored(cb: Cb, fl: Flags): Outcome {
    Outcome(cb, fl, [], [], [], false, true)
  }

  /** `redp2p_stream_process_packet` on the bytes of one UDP datagram. */
  function ProcessBytes(cb: Cb, fl: Flags, session: seq<byte>, b: seq<byte>, sink: Sink): Outcome {
    match Unpack(b)
    case NotEnvelope => Ignored(cb, fl)
    case Unpacked(f) =>
      if f.role != Role(!fl.initiator) || f.session != session then Ignored(cb, fl)
      else if f.kind == TYPE_KCP then
        if fl.ready then AfterInput(Wrapping, fl, InputBytes(cb, f.payload), sink) else Ignored(cb, fl)
      else PackUnpack(b); Process(Wrapping, cb, fl, Ctl(KindControl(f.kind)), sink)
  }

  /** A packed message of the peer is processed as that message; the same bytes reflected to their own
      sender, or carrying another session, change nothing. */
  lemma PackedMessage(cb: Cb, fl: Flags, session: seq<byte>, sender: bool, other: seq<byte>, msg: Message, sink: Sink)
    requires |session| == SESSION_SZ && |other| == SESSION_SZ && (msg.Data? ==> Size(msg.ws) <= MTU)
    ensures ProcessBytes(cb, fl, session, Pack(FrameOf(sender, other, msg)), sink)
         == if sender != fl.initiator && other == session then Process(Wrapping, cb, fl, msg, sink) else Ignored(cb, fl)
  {
    UnpackPack(FrameOf(sender, other, msg));
  }
}
