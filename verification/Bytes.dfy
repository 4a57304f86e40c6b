/** Byte strings, their little-endian integers, and concatenation. */
module Bytes {

  type byte = b: int | 0 <= b < 256

  function Flatten(chunks: seq<seq<byte>>): (r: seq<byte>)
  {
    if chunks == [] then [] else chunks[0] + Flatten(chunks[1..])
  }

  lemma {:induction false} FlattenAppend(a: seq<seq<byte>>, b: seq<seq<byte>>)
    ensures Flatten(a + b) == Flatten(a) + Flatten(b)
  {
    if a == [] {
      assert a + b == b;
    } else {
      assert (a + b)[1..] == a[1..] + b;
      FlattenAppend(a[1..], b);
    }
  }

  lemma FlattenOne(x: seq<byte>)
    ensures Flatten([x]) == x
  {
    assert [x][1..] == [];
  }

  lemma FlattenSnoc(a: seq<seq<byte>>, x: seq<byte>)
    ensures Flatten(a + [x]) == Flatten(a) + x
  {
    FlattenAppend(a, [x]);
    FlattenOne(x);
  }

  /** Flattening a prefix of the chunks gives a prefix of the bytes. */
  lemma FlattenPrefix(a: seq<seq<byte>>, n: nat)
    requires n <= |a|
    ensures Flatten(a[..n]) <= Flatten(a)
  {
    assert a == a[..n] + a[n..];
    FlattenAppend(a[..n], a[n..]);
  }

  function Pow256(n: nat): (r: int)
    ensures r > 0
  {
    if n == 0 then 1 else 256 * Pow256(n - 1)
  }

  /** The low `n` bytes of `x`, least significant first. */
  function EncodeLE(x: int, n: nat): (r: seq<byte>)
    ensures |r| == n
  {
    seq(n, i requires 0 <= i => x / Pow256(i) % 256)
  }

  function DecodeLE(s: seq<byte>): (r: int)
    ensures r >= 0
  {
    if s == [] then 0 else s[0] + 256 * DecodeLE(s[1..])
  }

  lemma EncodeStep(x: int, n: nat)
    requires n > 0
    ensures EncodeLE(x, n)[0] == x % 256
    ensures EncodeLE(x, n)[1..] == EncodeLE(x / 256, n - 1)
  {
    forall i | 0 <= i < n - 1
      ensures EncodeLE(x, n)[1..][i] == EncodeLE(x / 256, n - 1)[i]
    {
      DivDiv(x, Pow256(i));
    }
  }

  lemma DivDiv(x: int, p: int)
    requires p > 0
    ensures x / (256 * p) == (x / 256) / p
  {
    SplitMod(x, p);
  }

  /** Storing a number in `n` bytes and loading it again reduces it modulo 256^n. */
  lemma {:induction false} DecodeEncodeLE(x: int, n: nat)
    ensures DecodeLE(EncodeLE(x, n)) == x % Pow256(n)
    decreases n
  {
    if n == 0 {
    } else {
      EncodeStep(x, n);
      DecodeEncodeLE(x / 256, n - 1);
      SplitMod(x, Pow256(n - 1));
    }
  }

  /** Loading and storing again gives back the same bytes. */
  lemma {:induction false} EncodeDecodeLE(s: seq<byte>)
    ensures EncodeLE(DecodeLE(s), |s|) == s
    decreases |s|
  {
    if s == [] {
    } else {
      var x := DecodeLE(s);
      EncodeStep(x, |s|);
      EncodeDecodeLE(s[1..]);
      assert x % 256 == s[0] && x / 256 == DecodeLE(s[1..]);
      assert s == [s[0]] + s[1..];
      assert EncodeLE(x, |s|) == [EncodeLE(x, |s|)[0]] + EncodeLE(x, |s|)[1..];
    }
  }

  lemma SplitMod(x: int, p: int)
    requires p > 0
    ensures x % (256 * p) == x % 256 + 256 * (x / 256 % p)
    ensures x / (256 * p) == (x / 256) / p
  {
    var hi, lo := x / 256, x % 256;
    var q, r := hi / p, hi % p;
    assert hi == q * p + r;
    var rest := lo + 256 * r;
    assert x == q * (256 * p) + rest by {
      assert 256 * (q * p) == q * (256 * p);
    }
    assert rest < 256 * p;
    Unique(x, 256 * p, q, rest);
  }

  lemma Unique(x: int, d: int, q: int, r: int)
    requires d > 0 && x == q * d + r && 0 <= r < d
    ensures x % d == r && x / d == q
  {
    var k := x / d - q;
    assert k * d == (x / d) * d - q * d;
    assert x == (x / d) * d + x % d;
    assert k * d == r - x % d;
  }

  lemma Pow256Values()
    ensures Pow256(1) == 0x100 && Pow256(2) == 0x1_0000 && Pow256(4) == 0x1_0000_0000
  {
    assert Pow256(3) == 0x100_0000;
  }
}
