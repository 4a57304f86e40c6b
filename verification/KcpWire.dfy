/** The byte form of datagrams, and `ikcp_input` on bytes. */
module KcpWire {
  import opened SerialNumbers
  import opened Bytes
  import opened KcpModel

  /** `ikcp_encode_seg` followed by the payload. */
  function EncodeHeader(w: Wire): (r: seq<byte>)
    ensures |r| == OVERHEAD
  {
    EncodeLE(w.conv, 4) + EncodeLE(w.cmd, 1) + EncodeLE(w.frg, 1) + EncodeLE(w.wnd, 2) + EncodeLE(w.ts, 4) +
    EncodeLE(w.sn, 4) + EncodeLE(w.una, 4) + EncodeLE(|w.data|, 4)
  }

  function EncodeWire(w: Wire): (r: seq<byte>)
    ensures |r| == WireSize(w)
  {
    EncodeHeader(w) + w.data
  }

  function EncodeAll(ws: seq<Wire>): (r: seq<byte>)
    ensures |r| == Size(ws)
  {
    if ws == [] then [] else EncodeWire(ws[0]) + EncodeAll(ws[1..])
  }

  function Field(data: seq<byte>, at: nat, n: nat): int
    requires at + n <= |data|
  {
    DecodeLE(data[at..at + n])
  }

  /** The header fields of the segment at the front of `data`, and `body` as its payload. */
  function DecodeHeader(data: seq<byte>, body: seq<byte>): Wire
    requires |data| >= OVERHEAD
  {
    Wire(Field(data, 0, 4), Field(data, 4, 1), Field(data, 5, 1), Field(data, 6, 2), Field(data, 8, 4),
         Field(data, 12, 4), Field(data, 16, 4), body)
  }

  /** The loop of `ikcp_input`: the new control block and the result code.  Segments handled before
      an error stay handled; fewer than `OVERHEAD` trailing bytes are ignored. */
  function InputLoop(cb: Cb, data: seq<byte>): (r: (Cb, int))
    decreases |data|
  {
    if |data| < OVERHEAD then (cb, 0)
    else
      var len := Field(data, 20, 4);
      var rest := data[OVERHEAD..];
      if Field(data, 0, 4) != cb.conv then (cb, -1)
      else if |rest| < len || len >= TWO31 then (cb, -2)
      else
        var w := DecodeHeader(data, rest[..len]);
        if !IsCommand(w.cmd) then (cb, -3) else InputLoop(InputSeg(Wrapping, cb, w), rest[len..])
  }

  function InputBytes(cb: Cb, data: seq<byte>): (r: (Cb, int)) {
    if |data| < OVERHEAD then (cb, -1) else InputLoop(cb, data)
  }

  /** A segment whose fields fit their wire widths. */
  predicate Encodable(w: Wire) {
    && 0 <= w.conv < TWO32 && IsCommand(w.cmd) && 0 <= w.frg < 256 && 0 <= w.wnd < 65536 && 0 <= w.ts < TWO32
    && 0 <= w.sn < TWO32 && 0 <= w.una < TWO32 && |w.data| <= MSS
  }

  /** Where each of eight consecutive fields lies in their concatenation. */
  lemma Slices(a: seq<byte>, b: seq<byte>, c: seq<byte>, e: seq<byte>, f: seq<byte>, g: seq<byte>, h: seq<byte>,
               i: seq<byte>, tail: seq<byte>)
    requires |a| == 4 && |b| == 1 && |c| == 1 && |e| == 2 && |f| == 4 && |g| == 4 && |h| == 4 && |i| == 4
    ensures var d := a + b + c + e + f + g + h + i + tail;
            && d[0..4] == a && d[4..5] == b && d[5..6] == c && d[6..8] == e
            && d[8..12] == f && d[12..16] == g && d[16..20] == h && d[20..24] == i
  {
  }

  /** Every header field of an encoded segment reads back modulo its width. */
  lemma HeaderFields(w: Wire, tail: seq<byte>)
    ensures var d := EncodeHeader(w) + tail;
            && Field(d, 0, 4) == w.conv % TWO32 && Field(d, 4, 1) == w.cmd % 256 && Field(d, 5, 1) == w.frg % 256
            && Field(d, 6, 2) == w.wnd % 65536 && Field(d, 8, 4) == w.ts % TWO32 && Field(d, 12, 4) == w.sn % TWO32
            && Field(d, 16, 4) == w.una % TWO32 && Field(d, 20, 4) == |w.data| % TWO32
  {
    Pow256Values();
    Slices(EncodeLE(w.conv, 4), EncodeLE(w.cmd, 1), EncodeLE(w.frg, 1), EncodeLE(w.wnd, 2),
           EncodeLE(w.ts, 4), EncodeLE(w.sn, 4), EncodeLE(w.una, 4), EncodeLE(|w.data|, 4), tail);
    DecodeEncodeLE(w.conv, 4);
    DecodeEncodeLE(w.cmd, 1);
    DecodeEncodeLE(w.frg, 1);
    DecodeEncodeLE(w.wnd, 2);
    DecodeEncodeLE(w.ts, 4);
    DecodeEncodeLE(w.sn, 4);
    DecodeEncodeLE(w.una, 4);
    DecodeEncodeLE(|w.data|, 4);
  }

  lemma HeaderRoundTrip(w: Wire, tail: seq<byte>)
    requires Encodable(w)
    ensures DecodeHeader(EncodeHeader(w) + tail, w.data) == w
    ensures Field(EncodeHeader(w) + tail, 20, 4) == |w.data|
  {
    HeaderFields(w, tail);
    FieldsFit(w);
  }

  lemma FieldsFit(w: Wire)
    requires Encodable(w)
    ensures w.conv % TWO32 == w.conv && w.cmd % 256 == w.cmd && w.frg % 256 == w.frg && w.wnd % 65536 == w.wnd
    ensures w.ts % TWO32 == w.ts && w.sn % TWO32 == w.sn && w.una % TWO32 == w.una && |w.data| % TWO32 == |w.data|
  {
  }

  lemma InputSegConv(m: Arith, cb: Cb, w: Wire)
    ensures InputSeg(m, cb, w).conv == cb.conv
  {
    var c := ShrinkBuf(ParseUna(m, cb.(rmtWnd := w.wnd), w.una));
    if w.cmd == CMD_PUSH && Diff(m, w.sn, c.rcvNxt + RCV_WND) < 0 && Diff(m, w.sn, c.rcvNxt) >= 0 {
      var acked := c.(acks := c.acks + [Ack(w.sn, w.ts)]);
      MoveReadyConv(m, acked.(rcvBuf := Insert(m, acked.rcvBuf, InSeg(w.sn, w.frg, w.data))));
    }
  }

  lemma {:induction false} MoveReadyConv(m: Arith, cb: Cb)
    ensures MoveReady(m, cb).conv == cb.conv
    decreases |cb.rcvBuf|
  {
    if CanMove(cb) {
      MoveReadyConv(m, MoveOne(m, cb));
    }
  }

  /** A segment at the front is processed and then the rest. */
  lemma InputFirst(cb: Cb, w: Wire, more: seq<byte>)
    requires Encodable(w) && w.conv == cb.conv
    ensures InputLoop(cb, EncodeHeader(w) + (w.data + more)) == InputLoop(InputSeg(Wrapping, cb, w), more)
  {
    var data := EncodeHeader(w) + (w.data + more);
    HeaderRoundTrip(w, w.data + more);
    var rest := data[OVERHEAD..];
    assert rest == w.data + more;
    assert rest[..|w.data|] == w.data && rest[|w.data|..] == more;
  }

  /** Segments in front of the rest of a datagram are processed first, whatever the rest is. */
  lemma {:induction false} InputSegmentsFirst(cb: Cb, ws: seq<Wire>, tail: seq<byte>)
    requires forall i :: 0 <= i < |ws| ==> Encodable(ws[i]) && ws[i].conv == cb.conv
    ensures InputLoop(cb, EncodeAll(ws) + tail) == InputLoop(InputSegs(Wrapping, cb, ws), tail)
    decreases |ws|
  {
    if ws == [] {
      assert EncodeAll(ws) + tail == tail;
    } else {
      var w, more := ws[0], EncodeAll(ws[1..]) + tail;
      assert EncodeAll(ws) + tail == EncodeHeader(w) + (w.data + more);
      InputFirst(cb, w, more);
      InputSegConv(Wrapping, cb, w);
      InputSegmentsFirst(InputSeg(Wrapping, cb, w), ws[1..], tail);
    }
  }

  /** The peer decodes exactly the segments packed into a datagram, in order, with result 0. */
  lemma InputDecodesEncoding(cb: Cb, ws: seq<Wire>)
    requires forall i :: 0 <= i < |ws| ==> Encodable(ws[i]) && ws[i].conv == cb.conv
    ensures InputLoop(cb, EncodeAll(ws)) == (InputSegs(Wrapping, cb, ws), 0)
    ensures ws != [] ==> InputBytes(cb, EncodeAll(ws)) == (InputSegs(Wrapping, cb, ws), 0)
  {
    InputSegmentsFirst(cb, ws, []);
    assert EncodeAll(ws) + [] == EncodeAll(ws);
  }

  /** How the loop ends at a header that is refused. */
  lemma InputRefuses(cb: Cb, data: seq<byte>, bad: Wire)
    requires |data| >= OVERHEAD && |bad.data| < TWO32
    requires Field(data, 0, 4) == bad.conv % TWO32 && Field(data, 4, 1) == bad.cmd % 256
    requires Field(data, 20, 4) == |bad.data|
    ensures RefusedAs(InputLoop(cb, data), cb, bad, |data| - OVERHEAD)
  {
  }

  /** -1 for a foreign conversation, -2 for more bytes announced than there are, -3 for an unknown command. */
  ghost predicate RefusedAs(r: (Cb, int), cb: Cb, bad: Wire, body: nat) {
    && (bad.conv % TWO32 != cb.conv ==> r == (cb, -1))
    && (bad.conv % TWO32 == cb.conv && body < |bad.data| ==> r == (cb, -2))
    && (bad.conv % TWO32 == cb.conv && |bad.data| <= body && |bad.data| < TWO31 && !IsCommand(bad.cmd % 256) ==>
          r == (cb, -3))
  }

  lemma EncodedRefuses(cb: Cb, bad: Wire, body: seq<byte>)
    requires |bad.data| < TWO32
    ensures RefusedAs(InputLoop(cb, EncodeHeader(bad) + body), cb, bad, |body|)
  {
    HeaderFields(bad, body);
    InputRefuses(cb, EncodeHeader(bad) + body, bad);
  }

  /** Where a datagram stops being well-formed, the segments before it stay processed and the result tells what is
      wrong; fewer bytes than a header are ignored, unless they are all. */
  lemma InputCodes(cb: Cb, ws: seq<Wire>, bad: Wire, body: seq<byte>, few: seq<byte>)
    requires forall i :: 0 <= i < |ws| ==> Encodable(ws[i]) && ws[i].conv == cb.conv
    requires |few| < OVERHEAD && |bad.data| < TWO32
    ensures RefusedAs(InputBytes(cb, EncodeAll(ws) + (EncodeHeader(bad) + body)), InputSegs(Wrapping, cb, ws), bad,
                      |body|)
    ensures InputBytes(cb, EncodeAll(ws) + few) == (if ws == [] then (cb, -1) else (InputSegs(Wrapping, cb, ws), 0))
  {
    InputSegmentsFirst(cb, ws, EncodeHeader(bad) + body);
    InputSegmentsFirst(cb, ws, few);
    EncodedRefuses(InputSegs(Wrapping, cb, ws), bad, body);
  }

  lemma {:induction false} SizeAppend(a: seq<Wire>, b: seq<Wire>)
    ensures Size(a + b) == Size(a) + Size(b)
  {
    if a == [] {
      assert a + b == b;
    } else {
      assert (a + b)[1..] == a[1..] + b;
      SizeAppend(a[1..], b);
    }
  }

  lemma {:induction false} EncodeAllAppend(a: seq<Wire>, b: seq<Wire>)
    ensures EncodeAll(a + b) == EncodeAll(a) + EncodeAll(b)
  {
    if a == [] {
      assert a + b == b;
    } else {
      assert (a + b)[1..] == a[1..] + b;
      EncodeAllAppend(a[1..], b);
    }
  }

  function Unpacked(ds: seq<seq<Wire>>): (r: seq<Wire>) {
    if ds == [] then [] else ds[0] + Unpacked(ds[1..])
  }

  /** Packing loses, adds and reorders nothing, and every datagram is non-empty and within the MTU. */
  lemma {:induction false} PackSound(cur: seq<Wire>, ws: seq<Wire>)
    requires forall i :: 0 <= i < |ws| ==> |ws[i].data| <= MSS
    requires Size(cur) <= MTU
    ensures Unpacked(Pack(cur, ws)) == cur + ws
    ensures forall i :: 0 <= i < |Pack(cur, ws)| ==> Pack(cur, ws)[i] != [] && 0 < Size(Pack(cur, ws)[i]) <= MTU
    decreases |ws|
  {
    if ws == [] {
      assert cur + ws == cur;
      assert cur != [] ==> [cur][1..] == [];
    } else if Size(cur) + WireSize(ws[0]) > MTU {
      assert [ws[0]][1..] == [];
      PackSound([ws[0]], ws[1..]);
      assert [ws[0]] + ws[1..] == ws;
      var p := Pack([ws[0]], ws[1..]);
      assert cur != [] ==> ([cur] + p)[1..] == p;
      assert cur == [] ==> Emit(cur) + p == p;
    } else {
      SizeAppend(cur, [ws[0]]);
      assert [ws[0]][1..] == [];
      PackSound(cur + [ws[0]], ws[1..]);
      assert cur + [ws[0]] + ws[1..] == cur + ws;
    }
  }

  /** A segment of some datagram is a segment of the packed list. */
  lemma {:induction false} UnpackedContains(ds: seq<seq<Wire>>, i: nat, j: nat)
    requires i < |ds| && j < |ds[i]|
    ensures ds[i][j] in Unpacked(ds)
  {
    if i > 0 {
      UnpackedContains(ds[1..], i - 1, j);
    }
  }
}
