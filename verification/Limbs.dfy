/** Numbers as arrays of 32-bit limbs, least significant first, and the carry loops over them.

    `limb` and `wide` are range-checked: every 32-bit or 64-bit expression below is verified not to overflow,
    and truncation is written out where the C code truncates. */
module Limbs {
  import opened Bytes

  const BASE: int := 0x1_0000_0000

  newtype limb = x: int | 0 <= x < 0x1_0000_0000
  newtype wide = x: int | 0 <= x < 0x1_0000_0000_0000_0000

  function Low(c: wide): (r: limb)
    ensures r as int == c as int % BASE
  {
    (c % 0x1_0000_0000) as limb
  }

  function High(c: wide): (r: limb)
    ensures r as int == c as int / BASE
  {
    (c / 0x1_0000_0000) as limb
  }

  /** Bitwise complement of a limb. */
  function Not(x: limb): (r: limb)
    ensures r as int == BASE - 1 - x as int
  {
    0xffff_ffff - x
  }

  function Power(n: nat): (r: int)
    ensures r > 0
  {
    if n == 0 then 1 else BASE * Power(n - 1)
  }

  function Value(s: seq<limb>): (r: int)
  {
    if s == [] then 0 else s[0] as int + BASE * Value(s[1..])
  }

  lemma {:induction false} PowerAdd(m: nat, n: nat)
    ensures Power(m + n) == Power(m) * Power(n)
  {
    if m > 0 {
      PowerAdd(m - 1, n);
      Associate(BASE, Power(m - 1), Power(n));
    }
  }

  lemma Associate(a: int, b: int, c: int)
    ensures a * b * c == a * (b * c)
  {
  }

  lemma {:induction false} ValueConcat(s: seq<limb>, t: seq<limb>)
    ensures Value(s + t) == Value(s) + Power(|s|) * Value(t)
    decreases |s|
  {
    if s == [] {
      assert s + t == t;
    } else {
      assert (s + t)[1..] == s[1..] + t;
      ValueConcat(s[1..], t);
      Associate(BASE, Power(|s| - 1), Value(t));
    }
  }

  lemma ValueOne(x: limb)
    ensures Value([x]) == x as int
  {
    assert [x][1..] == [];
  }

  lemma ValueSnoc(s: seq<limb>, x: limb)
    ensures Value(s + [x]) == Value(s) + Power(|s|) * x as int
  {
    ValueConcat(s, [x]);
    ValueOne(x);
  }

  lemma {:induction false} ValueBound(s: seq<limb>)
    ensures 0 <= Value(s) < Power(|s|)
  {
    if s != [] {
      ValueBound(s[1..]);
    }
  }

  lemma ValueSplit(s: seq<limb>, n: nat)
    requires n <= |s|
    ensures Value(s) == Value(s[..n]) + Power(n) * Value(s[n..])
  {
    assert s == s[..n] + s[n..];
    ValueConcat(s[..n], s[n..]);
  }

  /** One more limb of a prefix. */
  lemma ValueNext(s: seq<limb>, n: nat)
    requires n < |s|
    ensures Value(s[..n + 1]) == Value(s[..n]) + Power(n) * s[n] as int
  {
    assert s[..n + 1] == s[..n] + [s[n]];
    ValueSnoc(s[..n], s[n]);
  }

  lemma {:induction false} ZeroValue(s: seq<limb>)
    requires forall i :: 0 <= i < |s| ==> s[i] == 0
    ensures Value(s) == 0
  {
    if s != [] {
      ZeroValue(s[1..]);
    }
  }

  lemma {:induction false} Value4(s: seq<limb>)
    requires |s| >= 4
    ensures Value(s) == s[0] as int + 0x1_0000_0000 * s[1] as int + 0x1_0000_0000_0000_0000 * s[2] as int
                      + 0x1_0000_0000_0000_0000_0000_0000 * s[3] as int
                      + 0x1_0000_0000_0000_0000_0000_0000_0000_0000 * Value(s[4..])
  {
    assert Value(s[1..]) == s[1] as int + BASE * Value(s[2..]) by {
      assert s[1..][1..] == s[2..];
    }
    assert Value(s[2..]) == s[2] as int + BASE * Value(s[3..]) by {
      assert s[2..][1..] == s[3..];
    }
    assert Value(s[3..]) == s[3] as int + BASE * Value(s[4..]) by {
      assert s[3..][1..] == s[4..];
    }
  }

  lemma Power4()
    ensures Power(4) == 0x1_0000_0000_0000_0000_0000_0000_0000_0000
  {
    assert Power(2) == 0x1_0000_0000_0000_0000;
    PowerAdd(2, 2);
  }

  // --------------------------------------------------------------- bytes

  /** `load32_le_buf`. */
  function Load(b: seq<byte>): (r: seq<limb>)
    requires |b| % 4 == 0
    ensures |r| == |b| / 4
  {
    seq(|b| / 4, i requires 0 <= i < |b| / 4 => Load32(b[4 * i..4 * i + 4]))
  }

  function Load32(b: seq<byte>): limb
    requires |b| == 4
  {
    var b0: int, b1: int, b2: int, b3: int := b[0], b[1], b[2], b[3];
    (b0 + 0x100 * b1 + 0x1_0000 * b2 + 0x100_0000 * b3) as limb
  }

  /** `store32_le_buf`. */
  function Store(s: seq<limb>): (r: seq<byte>)
    ensures |r| == 4 * |s|
  {
    if s == [] then [] else Store32(s[0]) + Store(s[1..])
  }

  function Store32(x: limb): (r: seq<byte>)
    ensures |r| == 4
  {
    var v := x as int;
    [v % 0x100, v / 0x100 % 0x100, v / 0x1_0000 % 0x100, v / 0x100_0000 % 0x100]
  }

  lemma Decode4(b: seq<byte>)
    requires |b| >= 4
    ensures DecodeLE(b) == Load32(b[..4]) as int + BASE * DecodeLE(b[4..])
  {
    assert DecodeLE(b[1..]) == b[1] + 256 * DecodeLE(b[2..]) by {
      assert b[1..][1..] == b[2..];
    }
    assert DecodeLE(b[2..]) == b[2] + 256 * DecodeLE(b[3..]) by {
      assert b[2..][1..] == b[3..];
    }
    assert DecodeLE(b[3..]) == b[3] + 256 * DecodeLE(b[4..]) by {
      assert b[3..][1..] == b[4..];
    }
  }

  lemma LoadRest(b: seq<byte>)
    requires |b| % 4 == 0 && b != []
    ensures Load(b)[0] == Load32(b[..4]) && Load(b)[1..] == Load(b[4..])
  {
    forall i | 0 <= i < |b| / 4 - 1
      ensures Load(b)[1..][i] == Load(b[4..])[i]
    {
      assert b[4..][4 * i..4 * i + 4] == b[4 * (i + 1)..4 * (i + 1) + 4];
    }
  }

  lemma {:induction false} LoadValue(b: seq<byte>)
    requires |b| % 4 == 0
    ensures Value(Load(b)) == DecodeLE(b)
    decreases |b|
  {
    if b != [] {
      Decode4(b);
      LoadRest(b);
      LoadValue(b[4..]);
    }
  }

  lemma LoadStore32(x: limb)
    ensures Load32(Store32(x)) == x
  {
  }

  lemma {:induction false} StoreValue(s: seq<limb>)
    ensures DecodeLE(Store(s)) == Value(s)
  {
    if s != [] {
      StoreValue(s[1..]);
      var b := Store(s);
      assert b[..4] == Store32(s[0]) && b[4..] == Store(s[1..]);
      Decode4(b);
      LoadStore32(s[0]);
    }
  }

  // ------------------------------------------------------ multiply and accumulate

  lemma ProductBound(a: int, b: int, m: int, n: int)
    requires 0 <= a <= m && 0 <= b <= n
    ensures 0 <= a * b <= m * n
  {
    assert m * n - a * b == (m - a) * b + m * (n - b);
    assert (m - a) * b >= 0 && m * (n - b) >= 0 && a * b >= 0;
  }

  function MulAcc(c: limb, p: limb, a: limb, b: limb): (r: wide)
    ensures r as int == c as int + p as int + a as int * b as int
  {
    ProductBound(a as int, b as int, 0xffff_ffff, 0xffff_ffff);
    c as wide + p as wide + a as wide * b as wide
  }

  lemma RowStep(v: int, c: int, was: int, w: int, a: int, power: int, d: int, c': int, p: int, b: int)
    requires v + power * c == was + a * w && d + BASE * c' == c + p + a * b
    ensures v + power * d + (BASE * power) * c' == was + power * p + a * (w + power * b)
  {
    assert power * (d + BASE * c') == power * (c + p + a * b);
    assert power * (d + BASE * c') == power * d + (BASE * power) * c';
    assert power * (c + p + a * b) == power * c + power * p + power * (a * b);
    assert a * (w + power * b) == a * w + power * (a * b);
  }

  /** Adds `a` times the first `n` limbs of `b` into `p[at..at + n]`; the carry out is returned. */
  method MulRow(p: array<limb>, at: nat, n: nat, a: limb, b: seq<limb>) returns (carry: limb)
    requires n <= |b| && at + n <= p.Length
    modifies p
    ensures p[..at] == old(p[..at]) && p[at + n..] == old(p[at + n..])
    ensures Value(p[at..at + n]) + Power(n) * carry as int == Value(old(p[at..at + n])) + a as int * Value(b[..n])
  {
    carry := 0;
    ghost var was := p[at..at + n];
    var j := 0;
    while j < n
      invariant 0 <= j <= n
      invariant p[..at] == old(p[..at]) && p[at + j..] == old(p[at + j..])
      invariant Value(p[at..at + j]) + Power(j) * carry as int == Value(was[..j]) + a as int * Value(b[..j])
    {
      ghost var v, c := Value(p[at..at + j]), carry;
      var sum := MulAcc(carry, p[at + j], a, b[j]);
      ghost var before := p[at..at + j];
      assert p[at + j] == was[j];
      RowStep(v, c as int, Value(was[..j]), Value(b[..j]), a as int, Power(j), Low(sum) as int, High(sum) as int,
              was[j] as int, b[j] as int);
      ValueNext(was, j);
      ValueNext(b, j);
      p[at + j] := Low(sum);
      carry := High(sum);
      assert p[at..at + j + 1] == before + [Low(sum)];
      ValueSnoc(before, Low(sum));
      j := j + 1;
    }
    assert was[..n] == was;
  }
}
