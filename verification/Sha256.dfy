/** SHA-256 and HMAC as streaming code over an arbitrary compression function: the digest is the compression of
    the padded message, sections 5.1.1 and 6.2 of FIPS 180-4, however the message is split. */
module Sha256 {
  import opened Common
  import opened Bytes
  import opened Limbs

  type Words = w: seq<limb> | |w| == 8 witness [0, 0, 0, 0, 0, 0, 0, 0]

  type Compression = (Words, seq<byte>) -> Words

  const INITIAL: Words := [0x6a09_e667, 0xbb67_ae85, 0x3c6e_f372, 0xa54f_f53a,
                           0x510e_527f, 0x9b05_688c, 0x1f83_d9ab, 0x5be0_cd19]

  // ------------------------------------------------------------- specification

  function Reverse(s: seq<byte>): (r: seq<byte>)
    ensures |r| == |s|
  {
    seq(|s|, i requires 0 <= i < |s| => s[|s| - 1 - i])
  }

  function BigEndian(x: int, n: nat): (r: seq<byte>)
    ensures |r| == n
  {
    Reverse(EncodeLE(x, n))
  }

  function Zeros(n: nat): (r: seq<byte>)
    ensures |r| == n
  {
    seq(n, i => 0)
  }

  /** The number of zero bytes between the final 1 bit and the length. */
  function Filler(n: nat): (z: nat)
    ensures z < 64 && (n + 1 + z + 8) % 64 == 0
  {
    (119 - n % 64) % 64
  }

  function BitLength(n: nat): int {
    8 * n % TWO64
  }

  function Pad(message: seq<byte>): (r: seq<byte>)
    ensures |r| % 64 == 0
  {
    message + [0x80] + Zeros(Filler(|message|)) + BigEndian(BitLength(|message|), 8)
  }

  /** The compression of whole blocks. */
  function Fold(f: Compression, blocks: seq<byte>): Words {
    if |blocks| < 64 then INITIAL
    else f(Fold(f, blocks[..|blocks| - 64]), blocks[|blocks| - 64..])
  }

  function Output(w: seq<limb>): (r: seq<byte>)
    ensures |r| == 4 * |w|
  {
    if w == [] then [] else Output(w[..|w| - 1]) + BigEndian(w[|w| - 1] as int, 4)
  }

  function Digest(f: Compression, message: seq<byte>): (r: seq<byte>)
    ensures |r| == 32
  {
    Output(Fold(f, Pad(message)))
  }

  /** The initial state: the first 32 bits of the fractional parts of the square roots of the first eight primes,
      section 5.3.3 of FIPS 180-4. */
  lemma InitialAreRoots(i: nat)
    requires i < 8
    ensures var p, w, x := [2, 3, 5, 7, 11, 13, 17, 19][i], [1, 1, 2, 2, 3, 3, 4, 4][i], INITIAL[i] as int;
            && w * w <= p < (w + 1) * (w + 1)
            && (w * 0x1_0000_0000 + x) * (w * 0x1_0000_0000 + x) <= p * 0x1_0000_0000_0000_0000
            && p * 0x1_0000_0000_0000_0000 < (w * 0x1_0000_0000 + x + 1) * (w * 0x1_0000_0000 + x + 1)
  {
  }

  /** Bytes are stored most significant first. */
  lemma BigEndianAt(x: int, n: nat, i: nat)
    requires i < n
    ensures BigEndian(x, n)[i] == x / Pow256(n - 1 - i) % 256
  {
  }

  lemma {:induction false} OutputAt(w: seq<limb>, i: nat)
    requires i < |w|
    ensures Output(w)[4 * i..4 * i + 4] == BigEndian(w[i] as int, 4)
  {
    if i < |w| - 1 {
      OutputAt(w[..|w| - 1], i);
    }
  }

  /** The padded message is the message, a byte 0x80, the least number of zeros that makes whole blocks, and the length
      in bits modulo 2^64, most significant byte first. */
  lemma PadExact(m: seq<byte>)
    ensures var p, z := Pad(m), |Pad(m)| - |m| - 9;
            && |p| % 64 == 0 && 0 <= z < 64 && p[..|m|] == m && p[|m|] == 0x80
            && (forall k :: |m| < k < |p| - 8 ==> p[k] == 0)
            && p[|p| - 8..] == BigEndian(8 * |m| % TWO64, 8)
  {
  }

  lemma FoldBlock(f: Compression, done: seq<byte>, block: seq<byte>)
    requires |block| == 64
    ensures Fold(f, done + block) == f(Fold(f, done), block)
  {
    assert (done + block)[..|done|] == done && (done + block)[|done|..] == block;
  }

  // ----------------------------------------------------------------- the context

  class Context {
    const f: Compression
    var state: Words
    var count: int
    const buf: array<byte>
    /** The part of the message already compressed, the number of its blocks, the bytes waiting in the buffer, and
        how often the 64-bit counter has wrapped around. */
    ghost var done: seq<byte>
    ghost var blocks: nat
    ghost var waiting: nat
    ghost var laps: nat

    ghost predicate Valid()
      reads this
    {
      && buf.Length == 64 && 0 <= count < TWO64 && waiting < 64 && |done| == 64 * blocks
      && 64 * blocks + waiting == laps * TWO64 + count && state == Fold(f, done)
    }

    /** The bytes given so far. */
    ghost function Message(): seq<byte>
      reads this, buf
      requires Valid()
    {
      done + buf[..waiting]
    }

    /** `redp2p_sha256_init`. */
    constructor (f: Compression)
      ensures Valid() && Message() == [] && this.f == f && fresh(buf)
    {
      this.f := f;
      state := INITIAL;
      buf := new byte[64];
      count, done, blocks, waiting, laps := 0, [], 0, 0, 0;
    }

    /** One byte. */
    method Put(b: byte)
      requires Valid()
      modifies this, buf
      ensures Valid() && Message() == old(Message()) + [b]
    {
      ghost var part := buf[..waiting];
      Place(blocks, waiting, laps, count);
      buf[count % 64] := b;
      assert buf[..waiting + 1] == part + [b];
      assert done + (part + [b]) == done + part + [b];
      count := (count + 1) % TWO64;
      if count % 64 == 0 {
        assert buf[..] == part + [b];
        Compress();
      } else {
        waiting := waiting + 1;
      }
      laps := if count == 0 then laps + 1 else laps;
    }

    /** Compresses the full buffer. */
    method Compress()
      requires buf.Length == 64 && |done| == 64 * blocks && state == Fold(f, done)
      modifies this`state, this`done, this`blocks, this`waiting
      ensures done == old(done) + buf[..] && blocks == old(blocks) + 1 && waiting == 0 && |done| == 64 * blocks
      ensures state == Fold(f, done) && done + buf[..0] == done
    {
      FoldBlock(f, done, buf[..]);
      state := f(state, buf[..]);
      done, blocks, waiting := done + buf[..], blocks + 1, 0;
    }

    /** `redp2p_sha256_update`. */
    method Update(data: seq<byte>)
      requires Valid()
      modifies this, buf
      ensures Valid() && Message() == old(Message()) + data
    {
      var i := 0;
      ghost var start := Message();
      while i < |data|
        invariant 0 <= i <= |data| && Valid() && Message() == start + data[..i]
      {
        Put(data[i]);
        assert start + data[..i] + [data[i]] == start + data[..i + 1];
        i := i + 1;
      }
      assert data[..i] == data;
    }

    /** Zeroes the buffer from `from` to `to`. */
    method Zero(from: nat, to: nat)
      requires buf.Length == 64 && from <= to <= 64
      modifies buf
      ensures buf[..from] == old(buf[..from]) && buf[from..to] == Zeros(to - from)
    {
      var i := from;
      while i < to
        invariant from <= i <= to && buf[..from] == old(buf[..from]) && forall k :: from <= k < i ==> buf[k] == 0
      {
        buf[i] := 0;
        i := i + 1;
      }
    }

    /** The eight bytes of the length, most significant first. */
    method StoreLength(bits: int)
      requires buf.Length == 64
      modifies buf
      ensures buf[..56] == old(buf[..56]) && buf[56..] == BigEndian(bits, 8)
    {
      var bytes := BigEndian(bits, 8);
      var i := 0;
      while i < 8
        invariant 0 <= i <= 8 && buf[..56] == old(buf[..56]) && forall k :: 0 <= k < i ==> buf[56 + k] == bytes[k]
      {
        buf[56 + i] := bytes[i];
        i := i + 1;
      }
    }

    /** The final 1 bit, and a block of its own when the length no longer fits: the place to go on filling. */
    method Mark() returns (idx: nat)
      requires Valid()
      modifies this, buf
      ensures buf.Length == 64 && |done| == 64 * blocks && state == Fold(f, done) && count == old(count)
      ensures laps == old(laps)
      ensures idx <= 56
      ensures done + buf[..idx] + Zeros(56 - idx) == old(Message()) + [0x80] + Zeros(Filler(|old(Message())|))
    {
      FillerOf(blocks, waiting);
      ghost var rest := Zeros(Filler(|Message()|));
      idx := MarkBit();
      if idx > 56 {
        Spill(idx);
        assert done + buf[..0] == done;
        idx := 0;
      }
      assert Zeros(0) == [];
    }

    /** The byte behind the message. */
    method MarkBit() returns (idx: nat)
      requires Valid()
      modifies buf
      ensures idx == waiting + 1 && done + buf[..idx] == old(Message()) + [0x80]
    {
      ghost var part := buf[..waiting];
      Place(blocks, waiting, laps, count);
      idx := count % 64;
      buf[idx] := 0x80;
      idx := idx + 1;
      assert buf[..idx] == part + [0x80];
      assert done + (part + [0x80]) == done + part + [0x80];
    }

    /** Fills up and compresses a block without room for the length. */
    method Spill(idx: nat)
      requires buf.Length == 64 && |done| == 64 * blocks && state == Fold(f, done) && idx <= 64
      modifies this`state, this`done, this`blocks, this`waiting, buf
      ensures |done| == 64 * blocks && state == Fold(f, done) && done == old(done + buf[..idx]) + Zeros(64 - idx)
      ensures done + Zeros(56) == old(done + buf[..idx]) + Zeros(64 - idx + 56)
    {
      ghost var pre := done + buf[..idx];
      Zero(idx, 64);
      assert buf[..] == buf[..idx] + buf[idx..64];
      Compress();
      assert done == pre + Zeros(64 - idx);
      ZerosSplit(64 - idx, 56);
    }

    /** The padding and the length, behind the bytes up to `idx`. */
    method PadBlock(idx: nat, bits: int)
      requires buf.Length == 64 && idx <= 56
      modifies buf
      ensures buf[..] == old(buf[..idx]) + Zeros(56 - idx) + BigEndian(bits, 8)
    {
      Zero(idx, 56);
      assert buf[..56] == buf[..idx] + buf[idx..56];
      StoreLength(bits);
      assert buf[..] == buf[..56] + buf[56..];
    }

    /** `redp2p_sha256_final`. */
    method Final() returns (hash: seq<byte>)
      requires Valid()
      modifies this, buf
      ensures hash == Digest(f, old(Message()))
    {
      ghost var m := Message();
      var bits := Bits();
      var idx := Mark();
      ghost var pre := done + buf[..idx];
      PadBlock(idx, bits);
      PadIs(m, pre, idx, bits);
      assert done + buf[..] == pre + Zeros(56 - idx) + BigEndian(bits, 8);
      Compress();
      hash := Output(state);
    }

    /** The length in bits, modulo 2^64. */
    method Bits() returns (bits: int)
      requires Valid()
      ensures bits == BitLength(|Message()|)
    {
      BitCount(|Message()|, laps, count);
      bits := count * 8 % TWO64;
    }
  }

  lemma PadIs(m: seq<byte>, pre: seq<byte>, idx: nat, bits: int)
    requires idx <= 56 && pre + Zeros(56 - idx) == m + [0x80] + Zeros(Filler(|m|)) && bits == BitLength(|m|)
    ensures pre + Zeros(56 - idx) + BigEndian(bits, 8) == Pad(m)
  {
  }

  lemma ZerosSplit(a: nat, b: nat)
    ensures Zeros(a) + Zeros(b) == Zeros(a + b)
  {
  }

  lemma FillerOf(blocks: nat, w: nat)
    requires w < 64
    ensures Filler(64 * blocks + w) == if w <= 55 then 55 - w else 119 - w
  {
    Unique(64 * blocks + w, 64, blocks, w);
  }

  lemma BitCount(n: nat, laps: nat, count: int)
    requires 0 <= count < TWO64 && n == laps * TWO64 + count
    ensures count * 8 % TWO64 == BitLength(n)
  {
    Unique(8 * n, TWO64, 8 * laps + count * 8 / TWO64, count * 8 % TWO64);
  }

  /** Where the counter points, and what its increment does. */
  lemma Place(blocks: nat, waiting: nat, laps: nat, count: int)
    requires waiting < 64 && 0 <= count < TWO64 && 64 * blocks + waiting == laps * TWO64 + count
    ensures count % 64 == waiting
    ensures (count + 1) % TWO64 == (if count + 1 == TWO64 then 0 else count + 1)
    ensures (count + 1) % TWO64 % 64 == 0 <==> waiting == 63
  {
    var m := 0x400_0000_0000_0000;
    assert TWO64 == 64 * m;
    Unique(count, 64, blocks - laps * m, waiting);
    if count + 1 < TWO64 {
      if waiting < 63 {
        Unique(count + 1, 64, blocks - laps * m, waiting + 1);
      } else {
        Unique(count + 1, 64, blocks - laps * m + 1, 0);
      }
    }
  }

  /** However a message is split, its digest is the same. */
  method DigestOfChunks(f: Compression, chunks: seq<seq<byte>>) returns (hash: seq<byte>)
    ensures hash == Digest(f, Flatten(chunks))
  {
    var ctx := new Context(f);
    var i := 0;
    while i < |chunks|
      invariant 0 <= i <= |chunks| && fresh(ctx) && fresh(ctx.buf)
      invariant ctx.Valid() && ctx.f == f && ctx.Message() == Flatten(chunks[..i])
    {
      ctx.Update(chunks[i]);
      assert chunks[..i + 1] == chunks[..i] + [chunks[i]];
      FlattenSnoc(chunks[..i], chunks[i]);
      i := i + 1;
    }
    assert chunks[..i] == chunks;
    hash := ctx.Final();
  }
}
