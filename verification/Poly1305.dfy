/** Poly1305: the incremental authenticator computes the tag of section 2.5 of RFC 8439, however the message is
    split over calls. */
module Poly1305 {
  import opened Bytes
  import opened Limbs
  import opened PolyBlock
  import Reduction

  // ------------------------------------------------------------ specification

  /** A block with the byte 1 appended, as a number. */
  function Chunk(block: seq<byte>): int {
    DecodeLE(block) + Pow256(|block|)
  }

  /** The accumulator after a message, modulo `p`. */
  function Accumulate(p: int, r: int, message: seq<byte>): int
    requires p > 0
    decreases |message|
  {
    if message == [] then 0
    else
      var n := (|message| - 1) / 16 * 16;
      (Accumulate(p, r, message[..n]) + Chunk(message[n..])) * r % p
  }

  /** Bytes 3, 7, 11 and 15 have their top four bits cleared, bytes 4, 8 and 12 their bottom two. */
  function ClampByte(i: nat, b: byte): byte {
    if i % 4 == 3 then b % 16 else if i % 4 == 0 && i > 0 then b / 4 * 4 else b
  }

  function Clamp(b: seq<byte>): seq<byte> {
    seq(|b|, i requires 0 <= i < |b| => ClampByte(i, b[i]))
  }

  function Tag(key: seq<byte>, message: seq<byte>): seq<byte>
    requires |key| == 32
  {
    EncodeLE(Accumulate(PRIME, DecodeLE(Clamp(key[..16])), message) + DecodeLE(key[16..]), 16)
  }

  lemma {:induction false} AccumulateBlock(p: int, r: int, m: seq<byte>, block: seq<byte>)
    requires p > 0 && |m| % 16 == 0 && 0 < |block| <= 16
    ensures Accumulate(p, r, m + block) == (Accumulate(p, r, m) + Chunk(block)) * r % p
  {
    var all := m + block;
    assert (|all| - 1) / 16 * 16 == |m|;
    assert all[..|m|] == m && all[|m|..] == block;
  }

  // -------------------------------------------------------------- congruences

  /** Reducing before a step does not change its result modulo p. */
  lemma StepCongruent(p: int, h: int, acc: int, c: int, r: int, h': int, k: int)
    requires p > 0 && h % p == acc && h' == (h + c) * r - p * k
    ensures h' % p == (acc + c) * r % p
  {
    var q := h / p;
    assert h == q * p + acc;
    assert (h + c) * r == (acc + c) * r + (q * r) * p;
    assert (acc + c) * r - h' == (k - q * r) * p by {
      assert (k - q * r) * p == p * k - (q * r) * p;
    }
    Reduction.SameRemainder((acc + c) * r, k - q * r, p, h');
  }

  // ------------------------------------------------------------------ the key

  /** The masks of `crypto_poly1305_init`. */
  function ClampLimbs(r: seq<limb>): (c: seq<limb>)
    requires |r| == 4
    ensures Clamped(c)
  {
    [r[0] % 0x1000_0000, r[1] % 0x1000_0000 / 4 * 4, r[2] % 0x1000_0000 / 4 * 4, r[3] % 0x1000_0000 / 4 * 4]
  }

  lemma TopBits(low: int, b3: int)
    requires 0 <= low < 0x100_0000 && 0 <= b3 < 0x100
    ensures low + 0x100_0000 * (b3 % 16) == (low + 0x100_0000 * b3) % 0x1000_0000
  {
  }

  lemma BottomBits(b0: int, high: int)
    requires 0 <= b0 < 0x100 && 0 <= high
    ensures b0 / 4 * 4 + 0x100 * high == (b0 + 0x100 * high) / 4 * 4
  {
    Unique(b0 + 0x100 * high, 4, b0 / 4 + 0x40 * high, b0 % 4);
  }

  lemma FirstWord(b: seq<byte>, c: seq<byte>)
    requires |b| == |c| == 4 && c == [b[0], b[1], b[2], b[3] % 16]
    ensures Load32(c) == Load32(b) % 0x1000_0000
  {
    var b0: int, b1: int, b2: int := b[0], b[1], b[2];
    TopBits(b0 + 0x100 * b1 + 0x1_0000 * b2, b[3]);
  }

  lemma OtherWord(b: seq<byte>, c: seq<byte>)
    requires |b| == |c| == 4 && c == [b[0] / 4 * 4, b[1], b[2], b[3] % 16]
    ensures Load32(c) == Load32(b) % 0x1000_0000 / 4 * 4
  {
    var b0: int, b1: int, b2: int, b3: int := b[0], b[1], b[2], b[3];
    TopBits(b0 + 0x100 * b1 + 0x1_0000 * b2, b[3]);
    BottomBits(b0, b1 + 0x100 * b2 + 0x1_0000 * (b3 % 16));
  }

  lemma ClampedWord(b: seq<byte>, i: nat)
    requires |b| == 16 && i < 4
    ensures Clamp(b)[4 * i..4 * i + 4]
         == [if i == 0 then b[0] else b[4 * i] / 4 * 4, b[4 * i + 1], b[4 * i + 2], b[4 * i + 3] % 16]
  {
    var k := 4 * i;
    assert k % 4 == 0 && (k + 1) % 4 == 1 && (k + 2) % 4 == 2 && (k + 3) % 4 == 3;
    var c := Clamp(b);
    assert c[k] == ClampByte(k, b[k]) && c[k + 1] == ClampByte(k + 1, b[k + 1]);
    assert c[k + 2] == ClampByte(k + 2, b[k + 2]) && c[k + 3] == ClampByte(k + 3, b[k + 3]);
  }

  lemma ClampWordAt(b: seq<byte>, i: nat)
    requires |b| == 16 && i < 4
    ensures Load(Clamp(b))[i] == ClampLimbs(Load(b))[i]
  {
    var w, c := b[4 * i..4 * i + 4], Clamp(b)[4 * i..4 * i + 4];
    assert Load(b)[i] == Load32(w) && Load(Clamp(b))[i] == Load32(c);
    ClampedWord(b, i);
    if i == 0 {
      FirstWord(w, c);
    } else {
      OtherWord(w, c);
    }
  }

  /** Masking limbs clears exactly the bits the standard names. */
  lemma ClampAgrees(b: seq<byte>)
    requires |b| == 16
    ensures Value(ClampLimbs(Load(b))) == DecodeLE(Clamp(b))
  {
    forall i | 0 <= i < 4
      ensures Load(Clamp(b))[i] == ClampLimbs(Load(b))[i]
    {
      ClampWordAt(b, i);
    }
    assert Load(Clamp(b)) == ClampLimbs(Load(b));
    LoadValue(Clamp(b));
  }

  // ------------------------------------------------------------ the last block

  lemma {:induction false} DecodeConcat(a: seq<byte>, b: seq<byte>)
    ensures DecodeLE(a + b) == DecodeLE(a) + Pow256(|a|) * DecodeLE(b)
  {
    if a == [] {
      assert a + b == b;
    } else {
      assert (a + b)[1..] == a[1..] + b;
      DecodeConcat(a[1..], b);
      Associate(256, Pow256(|a| - 1), DecodeLE(b));
    }
  }

  lemma {:induction false} DecodeZeros(s: seq<byte>)
    requires forall i :: 0 <= i < |s| ==> s[i] == 0
    ensures DecodeLE(s) == 0
  {
    if s != [] {
      DecodeZeros(s[1..]);
    }
  }

  /** A short block followed by 1 and zeros. */
  lemma PaddedBlock(block: seq<byte>, padded: seq<byte>)
    requires |block| < |padded| && padded[..|block|] == block && padded[|block|] == 1
    requires forall i :: |block| < i < |padded| ==> padded[i] == 0
    ensures DecodeLE(padded) == Chunk(block)
  {
    var n := |block|;
    var rest := padded[n..];
    assert padded == block + rest;
    DecodeConcat(block, rest);
    DecodeZeros(rest[1..]);
  }

  lemma Pow16()
    ensures Pow256(16) == B4
  {
    Pow256Values();
    assert Pow256(8) == B2 by {
      assert Pow256(5) == 0x100_0000_0000;
      assert Pow256(6) == 0x1_0000_0000_0000;
      assert Pow256(7) == 0x100_0000_0000_0000;
    }
    PowAdd(8, 8);
  }

  lemma {:induction false} PowAdd(m: nat, n: nat)
    ensures Pow256(m + n) == Pow256(m) * Pow256(n)
  {
    if m > 0 {
      PowAdd(m - 1, n);
      Associate(256, Pow256(m - 1), Pow256(n));
    }
  }

  // -------------------------------------------------------------- the final tag

  lemma {:induction false} SmallBound(h: seq<limb>)
    requires Small(h)
    ensures 0 <= Value(h) < 5 * Power(4)
  {
    ValueNext(h, 4);
    assert h[..4 + 1] == h;
    ValueBound(h[..4]);
    ProductBound(Power(4), h[4] as int, Power(4), 4);
  }

  /** Adding 5 carries into bit 130 exactly when h is not yet reduced. */
  method Excess(h: seq<limb>) returns (t: limb)
    requires Small(h)
    ensures t <= 1 && (t == 1 <==> Value(h) >= 4 * Power(4) - 5)
  {
    var c: limb := 5;
    ghost var low := 0;
    var i := 0;
    while i < 4
      invariant 0 <= i <= 4 && 0 <= low < Power(i) && c <= 5
      invariant Power(i) * c as int + low == Value(h[..i]) + 5
    {
      var sum := c as wide + h[i] as wide;
      ExcessStep(Power(i), c as int, low, h[i] as int, Low(sum) as int, High(sum) as int, Value(h[..i]));
      ValueNext(h, i);
      low := low + Power(i) * Low(sum) as int;
      c := High(sum);
      i := i + 1;
    }
    ValueNext(h, 4);
    assert h[..4 + 1] == h;
    t := (c + h[4]) / 4;
    SmallBound(h);
    Power4();
    ExcessDone(Power(4), c as int + h[4] as int, low, Value(h), t as int);
  }

  lemma ExcessStep(power: int, c: int, low: int, x: int, d: int, c': int, v: int)
    requires power * c + low == v + 5 && 0 <= low < power && d + BASE * c' == c + x && 0 <= d < BASE
    ensures (BASE * power) * c' + (low + power * d) == v + power * x + 5
    ensures 0 <= low + power * d < BASE * power
  {
    assert power * (d + BASE * c') == power * d + (BASE * power) * c';
    assert power * (c + x) == power * c + power * x;
    ProductBound(power, d, power, BASE - 1);
  }

  lemma ExcessDone(power: int, c: int, low: int, v: int, t: int)
    requires 0 <= c <= 9 && power * c + low == v + 5 && 0 <= low < power && t == c / 4 && v < 5 * power && power > 5
    ensures t <= 1 && (t == 1 <==> v >= 4 * power - 5)
  {
  }

  /** The second loop of `crypto_poly1305_final`. */
  method AddPad(h: seq<limb>, pad: seq<limb>, t: limb) returns (mac: seq<limb>)
    requires |h| == 5 && |pad| == 4 && t <= 1
    ensures |mac| == 4 && Value(mac) == (Value(h[..4]) + Value(pad) + 5 * t as int) % Power(4)
  {
    var c: limb := t * 5;
    mac := [];
    var i := 0;
    while i < 4
      invariant 0 <= i <= 4 && |mac| == i && c <= 5
      invariant Power(i) * c as int + Value(mac) == Value(h[..i]) + Value(pad[..i]) + 5 * t as int
    {
      var sum := c as wide + (h[i] as wide + pad[i] as wide);
      PadStep(Power(i), c as int, h[i] as int, pad[i] as int, Low(sum) as int, High(sum) as int);
      ValueNext(h, i);
      ValueNext(pad, i);
      ValueSnoc(mac, Low(sum));
      mac := mac + [Low(sum)];
      c := High(sum);
      i := i + 1;
    }
    assert pad[..4] == pad;
    PadDone(mac, c as int, Value(h[..4]) + Value(pad) + 5 * t as int);
  }

  lemma PadStep(power: int, c: int, x: int, y: int, d: int, c': int)
    requires d + BASE * c' == c + x + y
    ensures (BASE * power) * c' + power * d == power * c + power * x + power * y
  {
    assert power * (d + BASE * c') == power * d + (BASE * power) * c';
    assert power * (c + x + y) == power * c + power * x + power * y;
  }

  lemma {:induction false} PadDone(mac: seq<limb>, c: int, v: int)
    requires Power(|mac|) * c + Value(mac) == v
    ensures Value(mac) == v % Power(|mac|)
  {
    ValueBound(mac);
    Unique(v, Power(|mac|), c, Value(mac));
  }

  /** Subtracting p once reduces h, and is invisible modulo the power beyond the five added back. */
  lemma TagValue(p: int, power: int, low: int, top: int, pad: int, t: int, acc: int)
    requires power > 5 && p == 4 * power - 5 && 0 <= low + power * top < 5 * power
    requires t == (if low + power * top >= p then 1 else 0) && acc == (low + power * top) % p
    ensures (low + pad + 5 * t) % power == (acc + pad) % power
  {
    var h := low + power * top;
    if t == 1 {
      Unique(h, p, 1, h - p);
      assert acc + pad == (low + pad + 5 * t) - (4 - top) * power by {
        assert (4 - top) * power == 4 * power - power * top;
      }
      Reduction.SameRemainder(low + pad + 5 * t, 4 - top, power, acc + pad);
    } else {
      Unique(h, p, 0, h);
      assert low + pad == acc + pad - top * power;
      Reduction.SameRemainder(acc + pad, top, power, low + pad);
    }
  }

  /** Bytes are determined by their number. */
  lemma BytesOf(s: seq<byte>, v: int)
    requires DecodeLE(s) == v % Pow256(|s|)
    ensures s == EncodeLE(v, |s|)
  {
    EncodeDecodeLE(s);
    DecodeEncodeLE(v, |s|);
    EncodeDecodeLE(EncodeLE(v, |s|));
  }

  method FinalTag(h: seq<limb>, pad: seq<limb>) returns (mac: seq<byte>)
    requires Small(h) && |pad| == 4
    ensures mac == EncodeLE(Value(h) % PRIME + Value(pad), 16)
  {
    var t := Excess(h);
    var limbs := AddPad(h, pad, t);
    mac := Store(limbs);
    StoreValue(limbs);
    FinalSum(h, Value(pad), t as int);
    Pow16();
    Power4();
    BytesOf(mac, Value(h) % PRIME + Value(pad));
  }

  lemma {:induction false} FinalSum(h: seq<limb>, pad: int, t: int)
    requires Small(h) && t == (if Value(h) >= 4 * Power(4) - 5 then 1 else 0)
    ensures (Value(h[..4]) + pad + 5 * t) % Power(4) == (Value(h) % PRIME + pad) % Power(4)
  {
    SmallBound(h);
    ValueNext(h, 4);
    assert h[..4 + 1] == h;
    Power4();
    TagValue(PRIME, Power(4), Value(h[..4]), h[4] as int, pad, t, Value(h) % PRIME);
  }

  // -------------------------------------------------------------- the context

  /** The accumulator `h` stands for the whole blocks `m`. */
  ghost predicate Absorbed(h: seq<limb>, r: seq<limb>, m: seq<byte>) {
    Small(h) && |m| % 16 == 0 && Value(h) % PRIME == Accumulate(PRIME, Value(r), m)
  }

  /** One more block: `words` and `end` are its number, with the 1 behind it. */
  lemma {:induction false} BlockAbsorbed(h: seq<limb>, r: seq<limb>, m: seq<byte>, block: seq<byte>, words: int,
                                         end: int,
                                         h': seq<limb>, k: int)
    requires Absorbed(h, r, m) && 0 < |block| <= 16 && words + B4 * end == Chunk(block)
    requires Value(h') == (Value(h) + words + B4 * end) * Value(r) - PRIME * k
    ensures Value(h') % PRIME == Accumulate(PRIME, Value(r), m + block)
  {
    StepCongruent(PRIME, Value(h), Accumulate(PRIME, Value(r), m), words + B4 * end, Value(r), Value(h'), k);
    AccumulateBlock(PRIME, Value(r), m, block);
  }

  lemma FullChunk(block: seq<byte>)
    requires |block| == 16
    ensures Value(Load(block)) + B4 == Chunk(block)
  {
    LoadValue(block);
    Pow16();
  }

  lemma WholeBlocks(m: seq<byte>, block: seq<byte>)
    requires |m| % 16 == 0 && |block| == 16
    ensures |m + block| % 16 == 0
  {
  }

  method AbsorbBlock(h: seq<limb>, r: seq<limb>, block: seq<byte>, ghost m: seq<byte>) returns (h': seq<limb>)
    requires Absorbed(h, r, m) && Clamped(r) && |block| == 16
    ensures Absorbed(h', r, m + block)
  {
    ghost var k;
    var words := Load(block);
    FullChunk(block);
    ghost var number := Value(words);
    h', k := Block(h, r, words, 1);
    BlockAbsorbed(h, r, m, block, number, 1, h', k);
    WholeBlocks(m, block);
  }

  /** The last, short block, already followed by its 1 and zeros. */
  method AbsorbLast(h: seq<limb>, r: seq<limb>, padded: seq<byte>, ghost m: seq<byte>, ghost block: seq<byte>)
    returns (h': seq<limb>)
    requires Absorbed(h, r, m) && Clamped(r) && |padded| == 16 && 0 < |block| < 16
    requires DecodeLE(padded) == Chunk(block)
    ensures Small(h') && Value(h') % PRIME == Accumulate(PRIME, Value(r), m + block)
  {
    ghost var k;
    h', k := Block(h, r, Load(padded), 0);
    LoadValue(padded);
    BlockAbsorbed(h, r, m, block, Value(Load(padded)), 0, h', k);
  }

  /** The distance to the next block boundary. */
  function Gap(x: nat): (g: nat)
    requires x < 16
    ensures g == if x == 0 then 0 else 16 - x
  {
    (16 - x) % 16
  }

  class Context {
    const r: seq<limb>
    const pad: seq<limb>
    var h: seq<limb>
    const c: array<byte>
    var cIdx: nat
    ghost const key: seq<byte>
    ghost var done: seq<byte>

    ghost predicate Holds()
      reads this, c
    {
      && |key| == 32 && Clamped(r) && |pad| == 4 && c.Length == 16 && cIdx <= 16
      && Value(r) == DecodeLE(Clamp(key[..16])) && Value(pad) == DecodeLE(key[16..])
      && Absorbed(h, r, done)
    }

    ghost predicate Valid()
      reads this, c
    {
      Holds() && cIdx < 16
    }

    /** The bytes given so far. */
    ghost function Message(): seq<byte>
      reads this, c
      requires Holds()
    {
      done + c[..cIdx]
    }

    /** `crypto_poly1305_init`. */
    constructor (key: seq<byte>)
      requires |key| == 32
      ensures Valid() && Message() == [] && this.key == key && fresh(c)
    {
      LoadValue(key[16..]);
      ClampAgrees(key[..16]);
      this.key := key;
      r := ClampLimbs(Load(key[..16]));
      pad := Load(key[16..]);
      h := [0, 0, 0, 0, 0];
      ZeroValue([0, 0, 0, 0, 0]);
      c := new byte[16];
      cIdx, done := 0, [];
    }

    /** Copies bytes behind those already in the block buffer. */
    method Fill(bytes: seq<byte>)
      requires Holds() && cIdx + |bytes| <= 16
      modifies this`cIdx, c
      ensures Holds() && cIdx == old(cIdx) + |bytes| && Message() == old(Message()) + bytes
    {
      var i := 0;
      ghost var start := c[..cIdx];
      while i < |bytes|
        invariant 0 <= i <= |bytes| && Holds() && cIdx == old(cIdx) + i
        invariant c[..cIdx] == start + bytes[..i]
      {
        c[cIdx] := bytes[i];
        cIdx := cIdx + 1;
        i := i + 1;
      }
    }

    method TakeBuffer()
      requires Holds() && cIdx == 16
      modifies this`h, this`cIdx, this`done
      ensures Valid() && cIdx == 0 && Message() == old(Message())
    {
      h := AbsorbBlock(h, r, c[..], done);
      done := done + c[..];
      cIdx := 0;
    }

    /** `poly_blocks` on whole blocks of the input. */
    method TakeBlocks(input: seq<byte>, count: nat)
      requires Valid() && 16 * count <= |input| && (count > 0 ==> cIdx == 0)
      modifies this`h, this`done
      ensures Valid() && Message() == old(Message()) + input[..16 * count]
    {
      var i := 0;
      ghost var start := done;
      while i < count
        invariant 0 <= i <= count && Valid() && done == start + input[..16 * i]
      {
        var block := input[16 * i..16 * i + 16];
        h := AbsorbBlock(h, r, block, done);
        NextBlock(start, input, i);
        done := done + block;
        i := i + 1;
      }
    }

    /** Aligns with block boundaries. */
    method Align(input: seq<byte>) returns (aligned: nat)
      requires Valid()
      modifies this, c
      ensures Valid() && aligned <= |input| && (aligned < |input| ==> cIdx == 0)
      ensures Message() == old(Message()) + input[..aligned]
    {
      var gap := Gap(cIdx);
      aligned := if gap <= |input| then gap else |input|;
      Fill(input[..aligned]);
      if cIdx == 16 {
        TakeBuffer();
      }
    }

    /** The blocks of an aligned input, and what is left of it. */
    method TakeRest(rest: seq<byte>)
      requires Valid() && (rest != [] ==> cIdx == 0)
      modifies this, c
      ensures Valid() && Message() == old(Message()) + rest
    {
      var count := |rest| / 16;
      TakeBlocks(rest, count);
      Fill(rest[16 * count..]);
      Rejoin(old(Message()), rest, 16 * count);
    }

    /** `crypto_poly1305_update`. */
    method Update(input: seq<byte>)
      requires Valid()
      modifies this, c
      ensures Valid() && Message() == old(Message()) + input
    {
      if input == [] {
        return;
      }
      var aligned := Align(input);
      TakeRest(input[aligned..]);
      Rejoin(old(Message()), input, aligned);
    }

    /** `crypto_poly1305_final`. */
    method Final() returns (mac: seq<byte>)
      requires Valid()
      modifies this`h, c
      ensures mac == Tag(key, old(Message()))
    {
      if cIdx != 0 {
        ghost var block := c[..cIdx];
        PadBlock();
        h := AbsorbLast(h, r, c[..], done, block);
      } else {
        assert Message() == done;
      }
      mac := FinalTag(h, pad);
    }

    method PadBlock()
      requires Valid()
      modifies c
      ensures DecodeLE(c[..]) == Chunk(old(c[..cIdx]))
    {
      ghost var block := c[..cIdx];
      ZeroTail();
      c[cIdx] := 1;
      assert c[..][..cIdx] == block;
      PaddedBlock(block, c[..]);
    }

    method ZeroTail()
      requires Holds()
      modifies c
      ensures c[..cIdx] == old(c[..cIdx]) && forall i :: cIdx <= i < 16 ==> c[i] == 0
    {
      var i := cIdx;
      while i < 16
        invariant cIdx <= i <= 16 && c[..cIdx] == old(c[..cIdx])
        invariant forall k :: cIdx <= k < i ==> c[k] == 0
      {
        c[i] := 0;
        i := i + 1;
      }
    }
  }

  lemma NextBlock(start: seq<byte>, input: seq<byte>, i: nat)
    requires 16 * i + 16 <= |input|
    ensures start + input[..16 * i] + input[16 * i..16 * i + 16] == start + input[..16 * (i + 1)]
  {
  }

  lemma Rejoin(before: seq<byte>, input: seq<byte>, n: nat)
    requires n <= |input|
    ensures before + input[..n] + input[n..] == before + input
  {
    assert input == input[..n] + input[n..];
  }

  /** Two ways of splitting the same message give the same tag, the one the standard prescribes. */
  method TagOfChunks(key: seq<byte>, chunks: seq<seq<byte>>) returns (mac: seq<byte>)
    requires |key| == 32
    ensures mac == Tag(key, Flatten(chunks))
  {
    var ctx := new Context(key);
    var i := 0;
    while i < |chunks|
      invariant 0 <= i <= |chunks| && fresh(ctx) && fresh(ctx.c)
      invariant ctx.Valid() && ctx.key == key && ctx.Message() == Flatten(chunks[..i])
    {
      ctx.Update(chunks[i]);
      assert chunks[..i + 1] == chunks[..i] + [chunks[i]];
      FlattenSnoc(chunks[..i], chunks[i]);
      i := i + 1;
    }
    assert chunks[..i] == chunks;
    mac := ctx.Final();
  }
}
