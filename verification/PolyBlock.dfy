/** One block of Poly1305 on 32-bit limbs: `poly_blocks` computes h := (h + c) r modulo 2^130 - 5, leaves h below
    5 * 2^128 and overflows nowhere. */
module PolyBlock {
  import opened Limbs

  const B1: int := 0x1_0000_0000
  const B2: int := 0x1_0000_0000_0000_0000
  const B3: int := 0x1_0000_0000_0000_0000_0000_0000
  const B4: int := 0x1_0000_0000_0000_0000_0000_0000_0000_0000

  /** 2^130 - 5. */
  const PRIME: int := 0x3_ffff_ffff_ffff_ffff_ffff_ffff_ffff_fffb

  /** The bound kept on the accumulator. */
  predicate Small(h: seq<limb>) {
    |h| == 5 && h[4] <= 4
  }

  /** The bits of the key that the format clears. */
  predicate Clamped(r: seq<limb>) {
    && |r| == 4 && r[0] <= 0x0fff_ffff
    && (forall i :: 1 <= i < 4 ==> r[i] <= 0x0fff_fffc && r[i] % 4 == 0)
  }

  lemma {:induction false} Value5(h: seq<limb>)
    requires |h| == 5
    ensures Value(h) == h[0] as int + B1 * h[1] as int + B2 * h[2] as int + B3 * h[3] as int + B4 * h[4] as int
  {
    Value4(h);
    assert h[4..] == [h[4]];
    ValueOne(h[4]);
  }

  lemma {:induction false} ValueOf4(r: seq<limb>)
    requires |r| == 4
    ensures Value(r) == r[0] as int + B1 * r[1] as int + B2 * r[2] as int + B3 * r[3] as int
  {
    Value4(r);
    assert r[4..] == [];
  }

  // ---------------------------------------------------------------- products

  /** A sum of limb and message word. */
  const TOP: int := 0x1_ffff_fffe

  lemma RowBound(s0: int, s1: int, s2: int, s3: int, s4: int, a: int, b: int, c: int, d: int, e: int)
    requires 0 <= s0 <= TOP && 0 <= s1 <= TOP && 0 <= s2 <= TOP && 0 <= s3 <= TOP && 0 <= s4 <= 5
    requires 0 <= a && 0 <= b && 0 <= c && 0 <= d && 0 <= e
    ensures 0 <= s0 * a <= TOP * a && 0 <= s1 * b <= TOP * b && 0 <= s2 * c <= TOP * c && 0 <= s3 * d <= TOP * d
    ensures 0 <= s4 * e <= 5 * e
  {
    ProductBound(s0, a, TOP, a);
    ProductBound(s1, b, TOP, b);
    ProductBound(s2, c, TOP, c);
    ProductBound(s3, d, TOP, d);
    ProductBound(s4, e, 5, e);
  }

  /** One 64-bit sum of products; the last product is taken in 32 bits. */
  function Row(s0: wide, s1: wide, s2: wide, s3: wide, s4: limb, a: limb, b: limb, c: limb, d: limb, e: limb): (x: wide)
    requires s0 as int <= TOP && s1 as int <= TOP && s2 as int <= TOP && s3 as int <= TOP && s4 <= 5
    requires a as int + b as int + c as int + d as int <= 0x4c00_0000 && e <= 0x1400_0000
    ensures x as int
         == s0 as int * a as int + s1 as int * b as int + s2 as int * c as int + s3 as int * d as int
          + s4 as int * e as int
    ensures x as int <= TOP * (a as int + b as int + c as int + d as int) + 5 * e as int
  {
    RowBound(s0 as int, s1 as int, s2 as int, s3 as int, s4 as int, a as int, b as int, c as int, d as int, e as int);
    s0 * a as wide + s1 * b as wide + s2 * c as wide + s3 * d as wide + (s4 * e) as wide
  }

  // ----------------------------------------------------------------- reduction

  datatype Row5 = Row5(x0: wide, x1: wide, x2: wide, x3: wide, x4: limb)

  predicate Bounded(x: Row5) {
    && x.x2 as int < 0x9000_0000_0000_0000 && x.x3 as int <= 0x7fff_ffe5_ffff_ffff && x.x4 <= 15
  }

  function RowValue(x: Row5): int {
    x.x0 as int + B1 * x.x1 as int + B2 * x.x2 as int + B3 * x.x3 as int + B4 * x.x4 as int
  }

  /** The carries: the bits from 130 up return, five-fold, at the bottom. */
  method Carry(x: Row5) returns (h: seq<limb>, ghost k: int)
    requires Bounded(x)
    ensures Small(h) && Value(h) == RowValue(x) - PRIME * k
  {
    var u5: limb := x.x4 + High(x.x3);
    var u0: wide := (u5 / 4 * 5) as wide + Low(x.x0) as wide;
    var u1: wide := High(u0) as wide + Low(x.x1) as wide + High(x.x0) as wide;
    var u2: wide := High(u1) as wide + Low(x.x2) as wide + High(x.x1) as wide;
    var u3: wide := High(u2) as wide + Low(x.x3) as wide + High(x.x2) as wide;
    var u4: limb := High(u3) + u5 % 4;
    h := [Low(u0), Low(u1), Low(u2), Low(u3), u4];
    k := (u5 / 4) as int;
    Value5(h);
    CarrySum(x, u0, u1, u2, u3, u5);
  }

  lemma CarrySum(x: Row5, u0: wide, u1: wide, u2: wide, u3: wide, u5: limb)
    requires u5 as int == x.x4 as int + High(x.x3) as int
    requires u0 as int == 5 * (u5 / 4) as int + Low(x.x0) as int
    requires u1 as int == High(u0) as int + Low(x.x1) as int + High(x.x0) as int
    requires u2 as int == High(u1) as int + Low(x.x2) as int + High(x.x1) as int
    requires u3 as int == High(u2) as int + Low(x.x3) as int + High(x.x2) as int
    ensures Low(u0) as int + B1 * Low(u1) as int + B2 * Low(u2) as int + B3 * Low(u3) as int
          + B4 * (High(u3) as int + (u5 % 4) as int)
         == RowValue(x) - PRIME * (u5 / 4) as int
  {
  }

  // -------------------------------------------------------------- the product

  /** Word j of h + c times r: what passes 2^130 has been folded back, and r[i] = 4 q[i] above the lowest limb. */
  lemma Column1(s: int, v: int, r0: int, r1: int, r2: int, q3: int)
    requires v == r0 + B1 * r1 + B2 * r2 + B3 * (4 * q3)
    ensures B1 * (s * v)
         == s * (5 * q3) + B1 * (s * r0) + B2 * (s * r1) + B3 * (s * r2) + PRIME * (s * q3)
  {
  }

  lemma Column2(s: int, v: int, r0: int, r1: int, q2: int, q3: int)
    requires v == r0 + B1 * r1 + B2 * (4 * q2) + B3 * (4 * q3)
    ensures B2 * (s * v)
         == s * (5 * q2) + B1 * (s * (5 * q3)) + B2 * (s * r0) + B3 * (s * r1) + PRIME * (s * q2 + B1 * (s * q3))
  {
  }

  lemma Column3(s: int, v: int, r0: int, q1: int, q2: int, q3: int)
    requires v == r0 + B1 * (4 * q1) + B2 * (4 * q2) + B3 * (4 * q3)
    ensures B3 * (s * v)
         == s * (5 * q1) + B1 * (s * (5 * q2)) + B2 * (s * (5 * q3)) + B3 * (s * r0)
          + PRIME * (s * q1 + B1 * (s * q2) + B2 * (s * q3))
  {
  }

  lemma Column4(s: int, v: int, low: int, q0: int, q1: int, q2: int, q3: int)
    requires v == low + 4 * q0 + B1 * (4 * q1) + B2 * (4 * q2) + B3 * (4 * q3)
    ensures B4 * (s * v)
         == s * (5 * q0) + B1 * (s * (5 * q1)) + B2 * (s * (5 * q2)) + B3 * (s * (5 * q3)) + B4 * (s * low)
          + PRIME * (s * q0 + B1 * (s * q1) + B2 * (s * q2) + B3 * (s * q3))
  {
  }

  lemma Column0(s: int, v: int, r0: int, r1: int, r2: int, r3: int)
    requires v == r0 + B1 * r1 + B2 * r2 + B3 * r3
    ensures s * v == s * r0 + B1 * (s * r1) + B2 * (s * r2) + B3 * (s * r3)
  {
  }

  lemma SumTimes(s0: int, s1: int, s2: int, s3: int, s4: int, r: int)
    ensures (s0 + B1 * s1 + B2 * s2 + B3 * s3 + B4 * s4) * r
         == s0 * r + B1 * (s1 * r) + B2 * (s2 * r) + B3 * (s3 * r) + B4 * (s4 * r)
  {
  }

  /** The rows, added up column by column: `c` are the words of h + c times r, `a` their unfolded products, and
      `f` to `i` the products folded back. */
  lemma RowsAddUp(c0: int, c1: int, c2: int, c3: int, c4: int, a00: int, a01: int, a02: int, a03: int,
                  f1: int, a10: int, a11: int, a12: int, f2: int, g2: int, a20: int, a21: int,
                  f3: int, g3: int, h3: int, a30: int, f4: int, g4: int, h4: int, i4: int, a4: int,
                  k1: int, k2: int, k3: int, k4: int)
    requires c0 == a00 + B1 * a01 + B2 * a02 + B3 * a03
    requires B1 * c1 == f1 + B1 * a10 + B2 * a11 + B3 * a12 + PRIME * k1
    requires B2 * c2 == f2 + B1 * g2 + B2 * a20 + B3 * a21 + PRIME * k2
    requires B3 * c3 == f3 + B1 * g3 + B2 * h3 + B3 * a30 + PRIME * k3
    requires B4 * c4 == f4 + B1 * g4 + B2 * h4 + B3 * i4 + B4 * a4 + PRIME * k4
    ensures (a00 + f1 + f2 + f3 + f4) + B1 * (a01 + a10 + g2 + g3 + g4) + B2 * (a02 + a11 + a20 + h3 + h4)
          + B3 * (a03 + a12 + a21 + a30 + i4) + B4 * a4
         == c0 + B1 * c1 + B2 * c2 + B3 * c3 + B4 * c4 - PRIME * (k1 + k2 + k3 + k4)
  {
  }

  /** Limb i of the key above the lowest is four times `Quarter`, and its folded form five times. */
  function Quarter(r: limb): limb {
    r / 4
  }

  function Folded(r: limb): (f: limb)
    requires r <= 0x0fff_ffff
    ensures f as int == 5 * Quarter(r) as int && f <= 0x13ff_fffb
  {
    Quarter(r) * 5
  }

  /** The limbs that are multiples of four are folded by an addition. */
  function FoldedHigh(r: limb): (f: limb)
    requires r <= 0x0fff_fffc && r % 4 == 0
    ensures f as int == 5 * Quarter(r) as int && f <= 0x13ff_fffb
  {
    r / 4 + r
  }

  /** The five sums of products. */
  method Rows(s0: wide, s1: wide, s2: wide, s3: wide, s4: limb, r: seq<limb>) returns (x: Row5)
    requires Clamped(r) && s4 <= 5
    requires s0 as int <= TOP && s1 as int <= TOP && s2 as int <= TOP && s3 as int <= TOP
    ensures Bounded(x)
    ensures var t0, t1, t2, t3, t4 := s0 as int, s1 as int, s2 as int, s3 as int, s4 as int;
            var q0, q1 := Quarter(r[0]) as int, Quarter(r[1]) as int;
            var q2, q3 := Quarter(r[2]) as int, Quarter(r[3]) as int;
            var r0, r1, r2, r3, low := r[0] as int, r[1] as int, r[2] as int, r[3] as int, (r[0] % 4) as int;
            && x.x0 as int == t0 * r0 + t1 * (5 * q3) + t2 * (5 * q2) + t3 * (5 * q1) + t4 * (5 * q0)
            && x.x1 as int == t0 * r1 + t1 * r0 + t2 * (5 * q3) + t3 * (5 * q2) + t4 * (5 * q1)
            && x.x2 as int == t0 * r2 + t1 * r1 + t2 * r0 + t3 * (5 * q3) + t4 * (5 * q2)
            && x.x3 as int == t0 * r3 + t1 * r2 + t2 * r1 + t3 * r0 + t4 * (5 * q3)
            && x.x4 as int == t4 * low
  {
    var r0, r1, r2, r3 := r[0], r[1], r[2], r[3];
    var rr0, rr1, rr2, rr3 := Folded(r0), FoldedHigh(r1), FoldedHigh(r2), FoldedHigh(r3);
    var rr4 := r0 % 4;
    var x0 := Row(s0, s1, s2, s3, s4, r0, rr3, rr2, rr1, rr0);
    var x1 := Row(s0, s1, s2, s3, s4, r1, r0, rr3, rr2, rr1);
    var x2 := Row(s0, s1, s2, s3, s4, r2, r1, r0, rr3, rr2);
    var x3 := Row(s0, s1, s2, s3, s4, r3, r2, r1, r0, rr3);
    ProductBound(s4 as int, rr4 as int, 5, 3);
    x := Row5(x0, x1, x2, x3, s4 * rr4);
  }

  /** (h + c) r without carries. */
  method Products(s0: wide, s1: wide, s2: wide, s3: wide, s4: limb, r: seq<limb>) returns (x: Row5, ghost k: int)
    requires Clamped(r) && s4 <= 5
    requires s0 as int <= TOP && s1 as int <= TOP && s2 as int <= TOP && s3 as int <= TOP
    ensures Bounded(x)
    ensures RowValue(x)
         == (s0 as int + B1 * s1 as int + B2 * s2 as int + B3 * s3 as int + B4 * s4 as int) * Value(r) - PRIME * k
  {
    x := Rows(s0, s1, s2, s3, s4, r);
    ghost var t0, t1, t2, t3, t4 := s0 as int, s1 as int, s2 as int, s3 as int, s4 as int;
    ghost var q0, q1, q2, q3 := Quarter(r[0]) as int, Quarter(r[1]) as int, Quarter(r[2]) as int, Quarter(r[3]) as int;
    ghost var r0, r1, r2, r3, low := r[0] as int, r[1] as int, r[2] as int, r[3] as int, (r[0] % 4) as int;
    ghost var v := Value(r);
    ValueOf4(r);
    SumTimes(t0, t1, t2, t3, t4, v);
    Column0(t0, v, r0, r1, r2, r3);
    Column1(t1, v, r0, r1, r2, q3);
    Column2(t2, v, r0, r1, q2, q3);
    Column3(t3, v, r0, q1, q2, q3);
    Column4(t4, v, low, q0, q1, q2, q3);
    ghost var k1, k2 := t1 * q3, t2 * q2 + B1 * (t2 * q3);
    ghost var k3 := t3 * q1 + B1 * (t3 * q2) + B2 * (t3 * q3);
    ghost var k4 := t4 * q0 + B1 * (t4 * q1) + B2 * (t4 * q2) + B3 * (t4 * q3);
    RowsAddUp(t0 * v, t1 * v, t2 * v, t3 * v, t4 * v, t0 * r0, t0 * r1, t0 * r2, t0 * r3,
              t1 * (5 * q3), t1 * r0, t1 * r1, t1 * r2, t2 * (5 * q2), t2 * (5 * q3), t2 * r0, t2 * r1,
              t3 * (5 * q1), t3 * (5 * q2), t3 * (5 * q3), t3 * r0,
              t4 * (5 * q0), t4 * (5 * q1), t4 * (5 * q2), t4 * (5 * q3), t4 * low, k1, k2, k3, k4);
    k := k1 + k2 + k3 + k4;
  }

  /** One iteration of `poly_blocks`. */
  method Block(h: seq<limb>, r: seq<limb>, c: seq<limb>, end: limb) returns (h': seq<limb>, ghost k: int)
    requires Small(h) && Clamped(r) && |c| == 4 && end <= 1
    ensures Small(h')
    ensures Value(h') == (Value(h) + Value(c) + B4 * end as int) * Value(r) - PRIME * k
  {
    var s0 := h[0] as wide + c[0] as wide;
    var s1 := h[1] as wide + c[1] as wide;
    var s2 := h[2] as wide + c[2] as wide;
    var s3 := h[3] as wide + c[3] as wide;
    var s4 := h[4] + end;
    Value5(h);
    ValueOf4(c);
    var x, k0 := Products(s0, s1, s2, s3, s4, r);
    ghost var k1;
    h', k1 := Carry(x);
    k := k0 + k1;
  }
}
