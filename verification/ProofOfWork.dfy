/** The proof of work of registration: HMAC-SHA256 (section 2 of RFC 2104) of challenge, id and a counter, with a
    required number of leading zero bits. */
module ProofOfWork {
  import opened Common
  import opened Bytes
  import opened Limbs
  import opened Sha256
  import Json

  const MESSAGE_MAX: nat := 96

  // ---------------------------------------------------------------------- HMAC

  /** Bitwise exclusive or of the low `n` bits. */
  function XorBits(x: nat, y: nat, n: nat): (r: nat)
    ensures r < Pow2(n)
    decreases n
  {
    if n == 0 then 0 else (if x % 2 == y % 2 then 0 else 1) + 2 * XorBits(x / 2, y / 2, n - 1)
  }

  /** Bitwise or of the low `n` bits. */
  function OrBits(x: nat, y: nat, n: nat): (r: nat)
    ensures r < Pow2(n)
    decreases n
  {
    if n == 0 then 0 else (if x % 2 == 0 && y % 2 == 0 then 0 else 1) + 2 * OrBits(x / 2, y / 2, n - 1)
  }

  lemma {:induction false} XorZero(x: nat, y: nat, n: nat)
    requires x < Pow2(n) && y < Pow2(n)
    ensures XorBits(x, y, n) == 0 <==> x == y
    decreases n
  {
    if n > 0 {
      XorZero(x / 2, y / 2, n - 1);
    }
  }

  lemma {:induction false} OrZero(x: nat, y: nat, n: nat)
    requires x < Pow2(n) && y < Pow2(n)
    ensures OrBits(x, y, n) == 0 <==> x == 0 && y == 0
    decreases n
  {
    if n > 0 {
      OrZero(x / 2, y / 2, n - 1);
    }
  }

  lemma ByteBits()
    ensures Pow2(8) == 256
  {
    assert Pow2(4) == 16;
  }

  function Xor(b: byte, mask: byte): byte {
    ByteBits();
    XorBits(b, mask, 8)
  }

  function Masked(s: seq<byte>, mask: byte): (r: seq<byte>)
    ensures |r| == |s|
  {
    seq(|s|, i requires 0 <= i < |s| => Xor(s[i], mask))
  }

  /** Bit `i` of a number. */
  function Bit(x: nat, i: nat): nat
    decreases i
  {
    if i == 0 then x % 2 else Bit(x / 2, i - 1)
  }

  lemma {:induction false} XorBitAt(x: nat, y: nat, n: nat, i: nat)
    requires i < n
    ensures Bit(XorBits(x, y, n), i) == (Bit(x, i) + Bit(y, i)) % 2
    decreases i
  {
    if i > 0 {
      XorBitAt(x / 2, y / 2, n - 1, i - 1);
    }
  }

  /** Masking flips exactly the bits that are set in the mask: 1, 2, 4 and 5 in the inner one, 2, 3, 4 and 6 in the
      outer one, section 2 of RFC 2104. */
  lemma MaskFlips(s: seq<byte>, k: nat, i: nat)
    requires k < |s| && i < 8
    ensures Bit(Masked(s, 0x36)[k], i) == (if i in {1, 2, 4, 5} then 1 - Bit(s[k], i) else Bit(s[k], i))
    ensures Bit(Masked(s, 0x5c)[k], i) == (if i in {2, 3, 4, 6} then 1 - Bit(s[k], i) else Bit(s[k], i))
  {
    XorBitAt(s[k], 0x36, 8, i);
    XorBitAt(s[k], 0x5c, 8, i);
    BitIsBit(s[k], i);
    MaskBits(i);
  }

  lemma {:induction false} BitIsBit(x: nat, i: nat)
    ensures Bit(x, i) <= 1
    decreases i
  {
    if i > 0 {
      BitIsBit(x / 2, i - 1);
    }
  }

  lemma MaskBits(i: nat)
    requires i < 8
    ensures Bit(0x36, i) == if i in {1, 2, 4, 5} then 1 else 0
    ensures Bit(0x5c, i) == if i in {2, 3, 4, 6} then 1 else 0
  {
    assert Bit(0x36, 0) == 0 && Bit(0x36, 1) == Bit(0x1b, 0) && Bit(0x36, 2) == Bit(0x1b, 1) == Bit(0xd, 0);
    assert Bit(0x36, 3) == Bit(0xd, 1) == Bit(6, 0) && Bit(0x36, 4) == Bit(0xd, 2) == Bit(6, 1) == Bit(3, 0);
    assert Bit(0x36, 5) == Bit(6, 2) == Bit(3, 1) == Bit(1, 0);
    assert Bit(0x36, 6) == Bit(6, 3) == Bit(3, 2) == Bit(1, 1) == Bit(0, 0);
    assert Bit(0x36, 7) == Bit(3, 3) == Bit(1, 2) == Bit(0, 1) == Bit(0, 0);
    assert Bit(0x5c, 0) == 0 && Bit(0x5c, 1) == Bit(0x2e, 0) && Bit(0x5c, 2) == Bit(0x2e, 1) == Bit(0x17, 0);
    assert Bit(0x5c, 3) == Bit(0x17, 1) == Bit(0xb, 0) && Bit(0x5c, 4) == Bit(0x17, 2) == Bit(0xb, 1) == Bit(5, 0);
    assert Bit(0x5c, 5) == Bit(0xb, 2) == Bit(5, 1) == Bit(2, 0);
    assert Bit(0x5c, 6) == Bit(0xb, 3) == Bit(5, 2) == Bit(2, 1) == Bit(1, 0);
    assert Bit(0x5c, 7) == Bit(5, 3) == Bit(2, 2) == Bit(1, 1) == Bit(0, 0);
  }

  /** The key, hashed if it is longer than a block, and filled up with zeros. */
  function KeyBlock(f: Compression, key: seq<byte>): (r: seq<byte>)
    ensures |r| == 64
  {
    if |key| > 64 then Digest(f, key) + Zeros(32) else key + Zeros(64 - |key|)
  }

  function Hmac(f: Compression, key: seq<byte>, message: seq<byte>): (r: seq<byte>)
    ensures |r| == 32
  {
    var k := KeyBlock(f, key);
    Digest(f, Masked(k, 0x5c) + Digest(f, Masked(k, 0x36) + message))
  }

  lemma FlattenTwo(a: seq<byte>, b: seq<byte>)
    ensures Flatten([a, b]) == a + b
  {
    assert [a, b] == [a] + [b];
    FlattenSnoc([a], b);
    FlattenOne(a);
  }

  method HashTwo(f: Compression, a: seq<byte>, b: seq<byte>) returns (hash: seq<byte>)
    ensures hash == Digest(f, a + b)
  {
    hash := DigestOfChunks(f, [a, b]);
    FlattenTwo(a, b);
  }

  /** `redp2p_hmac_sha256`. */
  method HmacSha256(f: Compression, key: seq<byte>, message: seq<byte>) returns (hash: seq<byte>)
    ensures hash == Hmac(f, key, message)
  {
    var block := key;
    if |key| > 64 {
      block := HashTwo(f, key, []);
      assert key + [] == key;
    }
    block := block + Zeros(64 - |block|);
    var inner := HashTwo(f, Masked(block, 0x36), message);
    hash := HashTwo(f, Masked(block, 0x5c), inner);
  }

  /** Challenge, id and solution, cut to the size of the buffer. */
  function RegisterMessage(nonce: seq<byte>, id: seq<byte>, solution: seq<byte>): seq<byte> {
    var all := nonce + id + solution;
    if |all| <= MESSAGE_MAX then all else all[..MESSAGE_MAX]
  }

  /** Where the parts stand in the message, as far as its 96 bytes reach. */
  lemma MessageParts(nonce: seq<byte>, id: seq<byte>, solution: seq<byte>, k: nat)
    requires k < |RegisterMessage(nonce, id, solution)|
    ensures |RegisterMessage(nonce, id, solution)| == Min(96, |nonce| + |id| + |solution|)
    ensures RegisterMessage(nonce, id, solution)[k]
         == if k < |nonce| then nonce[k]
            else if k < |nonce| + |id| then id[k - |nonce|]
            else solution[k - |nonce| - |id|]
  {
  }

  function Clip(n: nat, room: nat): nat {
    if n > room then room else n
  }

  /** `redp2p_hash_register_once`: each part is cut to the room left. */
  method HashRegisterOnce(f: Compression, pass: seq<byte>, nonce: seq<byte>, id: seq<byte>, solution: seq<byte>)
    returns (hash: seq<byte>)
    ensures hash == Hmac(f, pass, RegisterMessage(nonce, id, solution))
  {
    var n := Clip(|nonce|, MESSAGE_MAX);
    var i := Clip(|id|, MESSAGE_MAX - n);
    var s := Clip(|solution|, MESSAGE_MAX - n - i);
    var message := nonce[..n] + id[..i] + solution[..s];
    Clipped(nonce, id, solution, n, i, s);
    hash := HmacSha256(f, pass, message);
  }

  lemma Clipped(nonce: seq<byte>, id: seq<byte>, solution: seq<byte>, n: nat, i: nat, s: nat)
    requires n == Clip(|nonce|, MESSAGE_MAX) && i == Clip(|id|, MESSAGE_MAX - n)
    requires s == Clip(|solution|, MESSAGE_MAX - n - i)
    ensures nonce[..n] + id[..i] + solution[..s] == RegisterMessage(nonce, id, solution)
  {
  }

  // ------------------------------------------------------------------ difficulty

  function Pow2(n: nat): (r: int)
    ensures r > 0
  {
    if n == 0 then 1 else 2 * Pow2(n - 1)
  }

  /** The digest as a number, most significant byte first. */
  function BigValue(s: seq<byte>): int {
    if s == [] then 0 else s[0] as int * Pow2(8 * (|s| - 1)) + BigValue(s[1..])
  }

  /** Zero bits above the highest 1 bit of a byte. */
  function ByteZeros(b: int): (z: nat)
    requires 0 < b < 256
    decreases 256 - b
  {
    if b >= 128 then 0 else 1 + ByteZeros(2 * b)
  }

  function LeadingZeros(s: seq<byte>): nat {
    if s == [] then 0 else if s[0] == 0 then 8 + LeadingZeros(s[1..]) else ByteZeros(s[0])
  }

  lemma {:induction false} Pow2Add(m: nat, n: nat)
    ensures Pow2(m + n) == Pow2(m) * Pow2(n)
  {
    if m > 0 {
      Pow2Add(m - 1, n);
      Associate(2, Pow2(m - 1), Pow2(n));
    }
  }

  lemma {:induction false} ByteBracket(b: int)
    requires 0 < b < 256
    ensures ByteZeros(b) <= 7 && Pow2(7 - ByteZeros(b)) <= b < Pow2(8 - ByteZeros(b))
    decreases 256 - b
  {
    if b >= 128 {
      assert Pow2(4) == 16 && Pow2(7) == 128 && Pow2(8) == 256;
    } else {
      ByteBracket(2 * b);
    }
  }

  lemma {:induction false} BigBound(s: seq<byte>)
    ensures 0 <= BigValue(s) < Pow2(8 * |s|)
  {
    if s != [] {
      BigBound(s[1..]);
      Pow2Add(8, 8 * (|s| - 1));
      assert Pow2(4) == 16 && Pow2(8) == 256;
      ProductBound(s[0], Pow2(8 * (|s| - 1)), 255, Pow2(8 * (|s| - 1)));
    }
  }

  /** The digest has t leading zero bits exactly when, of n bits in all, its value has n - t. */
  lemma {:induction false} LeadingZerosMeaning(s: seq<byte>)
    ensures LeadingZeros(s) <= 8 * |s| && BigValue(s) < Pow2(8 * |s| - LeadingZeros(s))
    ensures LeadingZeros(s) < 8 * |s| ==> BigValue(s) >= Pow2(8 * |s| - LeadingZeros(s) - 1)
  {
    if s == [] {
    } else if s[0] == 0 {
      LeadingZerosMeaning(s[1..]);
    } else {
      var z, n := ByteZeros(s[0]), 8 * (|s| - 1);
      ByteBracket(s[0]);
      BigBound(s[1..]);
      Pow2Add(8 - z, n);
      Pow2Add(7 - z, n);
      TopByte(s[0], Pow2(n), BigValue(s[1..]), Pow2(7 - z), Pow2(8 - z));
    }
  }

  lemma TopByte(b: int, p: int, rest: int, low: int, high: int)
    requires 0 <= low <= b < high && 0 <= rest < p
    ensures low * p <= b * p + rest < high * p
  {
    ProductBound(low, p, b, p);
    ProductBound(b + 1, p, high, p);
    assert (b + 1) * p == b * p + p;
  }

  /** The difficulty test is a bound on the digest's value. */
  lemma DifficultyIsBound(s: seq<byte>, bits: nat)
    requires bits <= 8 * |s|
    ensures LeadingZeros(s) >= bits <==> BigValue(s) < Pow2(8 * |s| - bits)
  {
    LeadingZerosMeaning(s);
    var t := LeadingZeros(s);
    if t >= bits {
      Pow2Mono(8 * |s| - t, 8 * |s| - bits);
    } else {
      Pow2Mono(8 * |s| - bits, 8 * |s| - t - 1);
    }
  }

  lemma {:induction false} Pow2Mono(m: nat, n: nat)
    requires m <= n
    ensures Pow2(m) <= Pow2(n)
  {
    if m < n {
      Pow2Mono(m, n - 1);
    }
  }

  /** `redp2p_count_leading_zero_bits`. */
  method CountLeadingZeroBits(hash: seq<byte>) returns (total: nat)
    ensures total == LeadingZeros(hash)
  {
    total := 0;
    var i := 0;
    while i < |hash|
      invariant 0 <= i <= |hash| && total + LeadingZeros(hash[i..]) == LeadingZeros(hash)
    {
      assert hash[i..][1..] == hash[i + 1..];
      if hash[i] == 0 {
        total := total + 8;
      } else {
        var z := CountByte(hash[i]);
        total := total + z;
        return;
      }
      i := i + 1;
    }
    assert hash[|hash|..] == [];
  }

  method CountByte(byte0: byte) returns (z: nat)
    requires byte0 > 0
    ensures z == ByteZeros(byte0)
  {
    z := 0;
    var b: int := byte0;
    ByteBracket(byte0);
    while z < 8 && b < 128
      invariant 0 < b < 256 && z + ByteZeros(b) == ByteZeros(byte0)
      decreases 256 - b
    {
      b := 2 * b;
      z := z + 1;
    }
  }

  // ---------------------------------------------------------------- the protocol

  datatype Proof = Proof(solution: seq<byte>, proof: seq<byte>)

  function HexDigits(c: nat, n: nat): (r: seq<byte>)
    ensures |r| == n
    decreases n
  {
    if n == 0 then [] else HexDigits(c / 16, n - 1) + [Json.HexDigit(c % 16)]
  }

  /** `%08x`. */
  function Hex8(c: nat): (r: seq<byte>)
    ensures |r| == 8
  {
    HexDigits(c, 8)
  }

  /** `redp2p_hex_encode`. */
  function HexEncode(s: seq<byte>): (r: seq<byte>)
    ensures |r| == 2 * |s|
  {
    if s == [] then [] else HexEncode(s[..|s| - 1]) + [Json.HexDigit(s[|s| - 1] / 16), Json.HexDigit(s[|s| - 1] % 16)]
  }

  /** The number that lower-case hexadecimal digits spell. */
  function Spelled(s: seq<byte>): Option<nat> {
    if s == [] then Some(0)
    else
      var d, rest := s[|s| - 1], Spelled(s[..|s| - 1]);
      if rest.None? then None
      else if 48 <= d <= 57 then Some(16 * rest.value + (d - 48))
      else if 97 <= d <= 102 then Some(16 * rest.value + (d - 97 + 10))
      else None
  }

  lemma {:induction false} DigitsSpell(c: nat, n: nat)
    requires c < Pow2(4 * n)
    ensures Spelled(HexDigits(c, n)) == Some(c)
    decreases n
  {
    if n > 0 {
      Pow2Add(4, 4 * (n - 1));
      assert Pow2(4) == 16;
      DigitsSpell(c / 16, n - 1);
    }
  }

  /** A counter is sent as its eight lower-case hexadecimal digits. */
  lemma CounterSpelled(c: nat)
    requires c < 0x1_0000_0000
    ensures |Hex8(c)| == 8 && Spelled(Hex8(c)) == Some(c)
  {
    Pow2Add(8, 8);
    Pow2Add(16, 16);
    assert Pow2(4) == 16 && Pow2(8) == 256;
    DigitsSpell(c, 8);
  }

  /** Every byte is sent as its two digits, in order. */
  lemma {:induction false} BytesSpelled(s: seq<byte>, k: nat)
    requires k < |s|
    ensures Spelled(HexEncode(s)[2 * k..2 * k + 2]) == Some(s[k] as nat)
  {
    var front, last := s[..|s| - 1], s[|s| - 1];
    var two := [Json.HexDigit(last / 16), Json.HexDigit(last % 16)];
    assert HexEncode(s) == HexEncode(front) + two;
    if k < |front| {
      BytesSpelled(front, k);
      assert HexEncode(s)[2 * k..2 * k + 2] == HexEncode(front)[2 * k..2 * k + 2];
    } else {
      assert HexEncode(s)[2 * k..2 * k + 2] == two;
      assert two[..1] == [two[0]] && two[..1][..0] == [];
      assert Spelled(two[..1]) == Some(last / 16);
    }
  }

  function RegisterHash(f: Compression, pass: seq<byte>, nonce: seq<byte>, id: seq<byte>,
                        solution: seq<byte>): (r: seq<byte>)
    ensures |r| == 32
  {
    Hmac(f, pass, RegisterMessage(nonce, id, solution))
  }

  type Hash = seq<byte> -> seq<byte>

  /** The hash of a solution, for one password, challenge and id. */
  function Hasher(f: Compression, pass: seq<byte>, nonce: seq<byte>, id: seq<byte>): Hash {
    solution => RegisterHash(f, pass, nonce, id, solution)
  }

  ghost predicate Computes(h: Hash, f: Compression, pass: seq<byte>, nonce: seq<byte>, id: seq<byte>) {
    forall solution {:trigger RegisterHash(f, pass, nonce, id, solution)} ::
      h(solution) == RegisterHash(f, pass, nonce, id, solution)
  }

  /** What the index accepts. */
  predicate Verifies(h: Hash, p: Proof, bits: int) {
    p.proof == HexEncode(h(p.solution)) && LeadingZeros(h(p.solution)) >= bits
  }

  /** What acceptance means: the proof spells the digest, byte for byte in lower-case hexadecimal, and the digest is a
      number below 2^(256 - bits). */
  lemma AcceptedMeans(h: Hash, p: Proof, bits: nat)
    requires bits <= 256 && |h(p.solution)| == 32
    ensures Verifies(h, p, bits)
       <==> && |p.proof| == 64 && (forall k :: 0 <= k < 32 ==> SpelledAt(p.proof, k) == Some(h(p.solution)[k] as nat))
            && BigValue(h(p.solution)) < Pow2(256 - bits)
  {
    var s := h(p.solution);
    DifficultyIsBound(s, bits);
    forall k | 0 <= k < 32
      ensures SpelledAt(HexEncode(s), k) == Some(s[k] as nat)
    {
      BytesSpelled(s, k);
    }
    if |p.proof| == 64 && forall k :: 0 <= k < 32 ==> SpelledAt(p.proof, k) == Some(s[k] as nat) {
      SameSpelling(p.proof, HexEncode(s), 32);
    }
  }

  function SpelledAt(s: seq<byte>, k: nat): Option<nat>
    requires 2 * k + 2 <= |s|
  {
    Spelled(s[2 * k..2 * k + 2])
  }

  lemma TwoDigits(a: byte, b: byte)
    ensures Spelled([a, b]).Some? ==> Spelled([a]).Some? && Spelled([b]).Some?
    ensures Spelled([a, b]).Some? ==> Spelled([a, b]).value == 16 * Spelled([a]).value + Spelled([b]).value
  {
    assert [a, b][..1] == [a] && [a][..0] == [] && [b][..0] == [];
  }

  lemma OneDigit(a: byte, b: byte)
    requires Spelled([a]).Some? && Spelled([a]) == Spelled([b])
    ensures a == b
  {
    assert [a][..0] == [] && [b][..0] == [];
  }

  lemma SameDigits(a: byte, b: byte, c: byte, d: byte)
    requires Spelled([a, b]).Some? && Spelled([a, b]) == Spelled([c, d])
    ensures a == c && b == d
  {
    TwoDigits(a, b);
    TwoDigits(c, d);
    DigitBound(b);
    DigitBound(d);
    OneDigit(a, c);
    OneDigit(b, d);
  }

  lemma SamePair(s: seq<byte>, t: seq<byte>, k: nat)
    requires |s| == |t| && 2 * k + 2 <= |s|
    requires SpelledAt(s, k).Some? && SpelledAt(s, k) == SpelledAt(t, k)
    ensures s[2 * k] == t[2 * k] && s[2 * k + 1] == t[2 * k + 1]
  {
    assert s[2 * k..2 * k + 2] == [s[2 * k], s[2 * k + 1]];
    assert t[2 * k..2 * k + 2] == [t[2 * k], t[2 * k + 1]];
    SameDigits(s[2 * k], s[2 * k + 1], t[2 * k], t[2 * k + 1]);
  }

  lemma SameSpelling(s: seq<byte>, t: seq<byte>, n: nat)
    requires |s| == |t| == 2 * n
    requires forall k :: 0 <= k < n ==> SpelledAt(s, k).Some? && SpelledAt(s, k) == SpelledAt(t, k)
    ensures s == t
  {
    forall i | 0 <= i < 2 * n
      ensures s[i] == t[i]
    {
      SamePair(s, t, i / 2);
    }
  }

  lemma DigitBound(a: byte)
    ensures Spelled([a]).Some? ==> Spelled([a]).value < 16
  {
    assert [a][..0] == [];
  }

  /** The counter `c` meets the difficulty. */
  predicate Works(h: Hash, bits: int, c: nat) {
    LeadingZeros(h(Hex8(c))) >= bits
  }

  /** No counter below `n` does. */
  predicate NoneWorks(h: Hash, bits: int, n: nat) {
    forall c | 0 <= c < n :: !Works(h, bits, c)
  }

  /** A stop request is looked at after every 2^20 attempts; `stop(c)` tells whether one is seen before attempt `c`. */
  ghost predicate Stopped(h: Hash, bits: int, stop: nat -> bool) {
    exists c: nat :: 0 < c < BASE && c % 0x10_0000 == 0 && stop(c) && NoneWorks(h, bits, c)
  }

  ghost predicate FirstWorking(h: Hash, bits: int, solution: seq<byte>) {
    exists c: nat :: c < BASE && solution == Hex8(c) && NoneWorks(h, bits, c)
  }

  method Attempt(f: Compression, pass: seq<byte>, nonce: seq<byte>, id: seq<byte>, bits: int, counter: nat,
                 ghost h: Hash)
    returns (r: Option<Proof>)
    requires Computes(h, f, pass, nonce, id)
    ensures r.Some? <==> Works(h, bits, counter)
    ensures r.Some? ==> r.value.solution == Hex8(counter) && Verifies(h, r.value, bits)
  {
    var solution := Hex8(counter);
    var hash := HashOf(f, pass, nonce, id, solution, h);
    var zeros := CountLeadingZeroBits(hash);
    r := if zeros >= bits then Some(Proof(solution, HexEncode(hash))) else None;
  }

  method HashOf(f: Compression, pass: seq<byte>, nonce: seq<byte>, id: seq<byte>, solution: seq<byte>, ghost h: Hash)
    returns (hash: seq<byte>)
    requires Computes(h, f, pass, nonce, id)
    ensures hash == h(solution)
  {
    hash := HashRegisterOnce(f, pass, nonce, id, solution);
    assert hash == RegisterHash(f, pass, nonce, id, solution);
  }

  lemma HasherComputes(f: Compression, pass: seq<byte>, nonce: seq<byte>, id: seq<byte>)
    ensures Computes(Hasher(f, pass, nonce, id), f, pass, nonce, id)
  {
  }

  /** `redp2p_solve_register_pow`: returns the first counter that works, in a form that the index accepts, and
      fails only if none of the 2^32 counters works or a stop was requested. */
  method Solve(f: Compression, pass: seq<byte>, nonce: seq<byte>, id: seq<byte>, bits: int, stop: nat -> bool)
    returns (r: Option<Proof>)
    ensures r.Some? ==> Verifies(Hasher(f, pass, nonce, id), r.value, bits)
    ensures r.Some? ==> FirstWorking(Hasher(f, pass, nonce, id), bits, r.value.solution)
    ensures r.None? ==>
              NoneWorks(Hasher(f, pass, nonce, id), bits, BASE) || Stopped(Hasher(f, pass, nonce, id), bits, stop)
  {
    HasherComputes(f, pass, nonce, id);
    r := Search(f, pass, nonce, id, bits, stop, Hasher(f, pass, nonce, id));
  }

  /** The loop over the 32-bit counter. */
  method Search(f: Compression, pass: seq<byte>, nonce: seq<byte>, id: seq<byte>, bits: int, stop: nat -> bool,
                ghost h: Hash)
    returns (r: Option<Proof>)
    requires Computes(h, f, pass, nonce, id)
    ensures r.Some? ==> Verifies(h, r.value, bits) && FirstWorking(h, bits, r.value.solution)
    ensures r.None? ==> NoneWorks(h, bits, BASE) || Stopped(h, bits, stop)
  {
    var counter: nat := 0;
    while true
      invariant counter < BASE && NoneWorks(h, bits, counter)
      decreases BASE - counter
    {
      r := Attempt(f, pass, nonce, id, bits, counter, h);
      if r.Some? {
        FirstHere(h, bits, counter);
        return;
      }
      NoneNext(h, bits, counter);
      counter := Increment(counter);
      if counter == 0 {
        return;
      }
      if counter % 0x10_0000 == 0 && stop(counter) {
        StopHere(h, bits, stop, counter);
        return;
      }
    }
  }

  /** 32-bit increment. */
  function Increment(c: nat): (r: nat)
    requires c < BASE
    ensures r == if c + 1 == BASE then 0 else c + 1
  {
    (c + 1) % BASE
  }

  lemma NoneNext(h: Hash, bits: int, c: nat)
    requires NoneWorks(h, bits, c) && !Works(h, bits, c)
    ensures NoneWorks(h, bits, c + 1)
  {
  }

  lemma FirstHere(h: Hash, bits: int, c: nat)
    requires NoneWorks(h, bits, c) && c < BASE
    ensures FirstWorking(h, bits, Hex8(c))
  {
  }

  lemma StopHere(h: Hash, bits: int, stop: nat -> bool, c: nat)
    requires 0 < c < BASE && c % 0x10_0000 == 0 && stop(c) && NoneWorks(h, bits, c)
    ensures Stopped(h, bits, stop)
  {
  }

  /** The accumulated difference stays zero exactly while the bytes are equal. */
  lemma DifferenceStep(diff: byte, x: byte, y: byte)
    ensures OrBits(diff, Xor(x, y), 8) < 256
    ensures OrBits(diff, Xor(x, y), 8) == 0 <==> diff == 0 && x == y
  {
    ByteBits();
    XorZero(x, y, 8);
    OrZero(diff, Xor(x, y), 8);
  }

  /** `redp2p_verify_register_pow`: compares in constant time. */
  method Verify(f: Compression, pass: seq<byte>, nonce: seq<byte>, id: seq<byte>, p: Proof, bits: int)
    returns (ok: bool)
    ensures ok == Verifies(Hasher(f, pass, nonce, id), p, bits)
  {
    ghost var h := Hasher(f, pass, nonce, id);
    HasherComputes(f, pass, nonce, id);
    assert |h(p.solution)| == 32;
    ok := Check(f, pass, nonce, id, p, bits, h);
  }

  method Check(f: Compression, pass: seq<byte>, nonce: seq<byte>, id: seq<byte>, p: Proof, bits: int, ghost h: Hash)
    returns (ok: bool)
    requires Computes(h, f, pass, nonce, id) && |h(p.solution)| == 32
    ensures ok == Verifies(h, p, bits)
  {
    if |p.proof| != 64 {
      return false;
    }
    var hash := HashOf(f, pass, nonce, id, p.solution, h);
    var same := SameBytes(p.proof, HexEncode(hash));
    if !same {
      return false;
    }
    var zeros := CountLeadingZeroBits(hash);
    ok := zeros >= bits;
  }

  lemma NextEqual(a: seq<byte>, b: seq<byte>, k: nat)
    requires |a| == |b| && k < |a|
    ensures a[..k + 1] == b[..k + 1] <==> a[..k] == b[..k] && a[k] == b[k]
  {
    assert a[..k + 1] == a[..k] + [a[k]] && b[..k + 1] == b[..k] + [b[k]];
  }

  method SameBytes(a: seq<byte>, b: seq<byte>) returns (same: bool)
    requires |a| == |b|
    ensures same == (a == b)
  {
    var diff: byte := 0;
    var k := 0;
    while k < |a|
      invariant 0 <= k <= |a| && (diff == 0 <==> a[..k] == b[..k])
    {
      DifferenceStep(diff, a[k], b[k]);
      NextEqual(a, b, k);
      diff := OrBits(diff, Xor(a[k], b[k]), 8);
      k := k + 1;
    }
    assert a[..k] == a && b[..k] == b;
    same := diff == 0;
  }

  /** Every proof the solver returns is accepted. */
  method SolveThenVerify(f: Compression, pass: seq<byte>, nonce: seq<byte>, id: seq<byte>, bits: int, stop: nat -> bool)
    returns (solved: bool, accepted: bool)
    ensures solved ==> accepted
    ensures !solved ==>
              NoneWorks(Hasher(f, pass, nonce, id), bits, BASE) || Stopped(Hasher(f, pass, nonce, id), bits, stop)
  {
    var r := Solve(f, pass, nonce, id, bits, stop);
    solved, accepted := r.Some?, false;
    if r.Some? {
      accepted := Verify(f, pass, nonce, id, r.value, bits);
    }
  }
}
