/** Multiplication, comparison and Barrett reduction on limbs, for any modulus with a suitable reciprocal.

    The loops are those of `multiply`, `is_above_l`, `remove_l` and `mod_l`; the modulus, its reciprocal and the
    number of limbs are parameters, fixed in module `ModL`. */
module Reduction {
  import opened Bytes
  import opened Limbs

  lemma Distribute(p: int, x: int, y: int)
    ensures p * (x + y) == p * x + p * y
  {
  }

  // ---------------------------------------------------------------- multiply

  lemma {:induction false} ValueOfRow(lo: seq<limb>, mid: seq<limb>, carry: limb)
    ensures Value(lo + mid + [carry]) == Value(lo) + Power(|lo|) * (Value(mid) + Power(|mid|) * carry as int)
  {
    assert lo + mid + [carry] == lo + (mid + [carry]);
    ValueConcat(lo, mid + [carry]);
    ValueSnoc(mid, carry);
  }

  lemma {:induction false} RowPlaced(lo: seq<limb>, mid: seq<limb>, mid': seq<limb>, carry: limb, add: int)
    requires |mid| == |mid'| && Value(mid') + Power(|mid|) * carry as int == Value(mid) + add
    ensures Value(lo + mid' + [carry]) == Value(lo + mid) + Power(|lo|) * add
  {
    ValueConcat(lo, mid);
    ValueOfRow(lo, mid', carry);
    Distribute(Power(|lo|), Value(mid), add);
  }

  lemma NextFactor(start: int, w: int, a: int, b: int, power: int)
    ensures start + w * b + power * (a * b) == start + (w + power * a) * b
  {
  }

  /** `multiply`: the limbs of `p` above those of `b` are overwritten, so it is the low part of `p` to which the
      product is added.  It is all of `p`, as the comment in the code promises, if and only if the limbs above are
      zero. */
  method Multiply(p: array<limb>, a: seq<limb>, b: seq<limb>)
    requires |a| + |b| <= p.Length
    modifies p
    ensures Value(p[..|a| + |b|]) == Value(old(p[..|b|])) + Value(a) * Value(b)
    ensures p[|a| + |b|..] == old(p[|a| + |b|..])
    ensures Value(p[..|a| + |b|]) == Value(old(p[..|a| + |b|])) + Value(a) * Value(b)
            <==> Value(old(p[|b|..|a| + |b|])) == 0
  {
    LowIsAll(p[..|a| + |b|], |b|);
    assert p[..|a| + |b|][..|b|] == p[..|b|] && p[..|a| + |b|][|b|..] == p[|b|..|a| + |b|];
    MultiplyLoop(p, a, b);
  }

  method MultiplyLoop(p: array<limb>, a: seq<limb>, b: seq<limb>)
    requires |a| + |b| <= p.Length
    modifies p
    ensures Value(p[..|a| + |b|]) == Value(old(p[..|b|])) + Value(a) * Value(b)
    ensures p[|a| + |b|..] == old(p[|a| + |b|..])
  {
    var i, n := 0, |b|;
    assert a[..0] == [];
    while i < |a|
      invariant 0 <= i <= |a|
      invariant Value(p[..i + n]) == Value(old(p[..n])) + Value(a[..i]) * Value(b)
      invariant p[i + n..] == old(p[i + n..])
    {
      MultiplyRow(p, i, a[i], b);
      ValueNext(a, i);
      NextFactor(Value(old(p[..n])), Value(a[..i]), a[i] as int, Value(b), Power(i));
      i := i + 1;
    }
    assert a[..i] == a;
  }

  /** One row: `p[at + |b|]` receives the carry. */
  method MultiplyRow(p: array<limb>, at: nat, a: limb, b: seq<limb>)
    requires at + |b| < p.Length
    modifies p
    ensures Value(p[..at + |b| + 1]) == Value(old(p[..at + |b|])) + Power(at) * (a as int * Value(b))
    ensures p[at + |b| + 1..] == old(p[at + |b| + 1..])
  {
    var n := |b|;
    ghost var lo, mid := p[..at], p[at..at + n];
    assert p[..at + n] == lo + mid;
    assert b[..n] == b;
    var carry := MulRow(p, at, n, a, b);
    ghost var mid' := p[at..at + n];
    p[at + n] := carry;
    assert p[..at + n + 1] == lo + mid' + [carry];
    RowPlaced(lo, mid, mid', carry, a as int * Value(b));
  }

  /** The low limbs are the whole number if and only if the high ones are zero. */
  lemma {:induction false} LowIsAll(p: seq<limb>, n: nat)
    requires n <= |p|
    ensures Value(p[..n]) == Value(p) <==> Value(p[n..]) == 0
  {
    ValueSplit(p, n);
    ValueBound(p[n..]);
    ZeroProduct(Power(n), Value(p[n..]));
  }

  lemma ZeroProduct(p: int, v: int)
    requires p > 0 && v >= 0
    ensures p * v == 0 <==> v == 0
  {
    if v > 0 {
      assert p * v >= v;
    }
  }

  // ---------------------------------------------- comparison and subtraction

  lemma ComplementStep(power: int, c: int, low: int, x: int, y: int, d: int, c': int, vx: int, vy: int)
    requires power * c + low == vx + power - vy && 0 <= low < power && 0 <= d < BASE
    requires d + BASE * c' == c + x + (BASE - 1 - y)
    ensures (BASE * power) * c' + (low + power * d) == (vx + power * x) + BASE * power - (vy + power * y)
    ensures 0 <= low + power * d < BASE * power
  {
    assert power * (d + BASE * c') == power * d + (BASE * power) * c';
    assert power * (c + x + (BASE - 1 - y)) == power * c + power * x + BASE * power - power - power * y;
    assert power * d <= power * (BASE - 1);
  }

  lemma CarryDecides(c: limb, low: int, vx: int, vy: int, power: int)
    requires power * c as int + low == vx + power - vy && 0 <= low < power
    requires 0 <= vx < power && 0 <= vy < power
    ensures c == (if vx >= vy then 1 else 0) && low == (if vx >= vy then vx - vy else vx - vy + power)
  {
    var k := c as int - 2;
    assert power * c as int == power * k + power * 2;
    assert k >= 0 ==> power * k >= 0;
  }

  function Sum(a: limb, x: limb, y: limb): wide {
    a as wide + x as wide + y as wide
  }

  /** `is_above_l`: the carry out of x + ~l + 1. */
  method IsAbove(x: seq<limb>, l: seq<limb>) returns (carry: limb)
    requires |x| == |l|
    ensures carry == if Value(x) >= Value(l) then 1 else 0
  {
    carry := 1;
    ghost var low := 0;
    var i := 0;
    while i < |l|
      invariant 0 <= i <= |l|
      invariant Power(i) * carry as int + low == Value(x[..i]) + Power(i) - Value(l[..i]) && 0 <= low < Power(i)
    {
      var sum := Sum(carry, x[i], Not(l[i]));
      ComplementStep(Power(i), carry as int, low, x[i] as int, l[i] as int, Low(sum) as int, High(sum) as int,
                     Value(x[..i]), Value(l[..i]));
      ValueNext(x, i);
      ValueNext(l, i);
      low := low + Power(i) * Low(sum) as int;
      carry := High(sum);
      i := i + 1;
    }
    assert x[..|l|] == x && l[..|l|] == l;
    ValueBound(x);
    ValueBound(l);
    CarryDecides(carry, low, Value(x), Value(l), Power(|l|));
  }

  /** What one conditional subtraction of `l` leaves. */
  function Reduced(v: int, l: int): int {
    if v >= l then v - l else v
  }

  /** `remove_l`, also with `r` and `x` the same array. */
  method Remove(r: array<limb>, x: array<limb>, l: seq<limb>)
    requires r.Length >= |l| && x.Length >= |l|
    modifies r
    ensures Value(r[..|l|]) == Reduced(Value(old(x[..|l|])), Value(l))
  {
    var n := |l|;
    ghost var start := x[..n];
    var carry := IsAbove(x[..n], l);
    var above := carry == 1; // the mask is all ones or all zeros
    var i := 0;
    while i < n
      invariant 0 <= i <= n
      invariant x[i..n] == start[i..]
      invariant Power(i) * carry as int + Value(r[..i])
           == Value(start[..i]) + (if above then Power(i) - Value(l[..i]) else 0)
      invariant !above ==> carry == 0
    {
      var sum := Sum(carry, x[i], if above then Not(l[i]) else 0);
      assert x[i] == start[i];
      ghost var before := r[..i];
      ValueBound(before);
      RemoveStep(Power(i), carry, Value(before), start[i], l[i], above, sum, Value(start[..i]), Value(l[..i]));
      ValueNext(start, i);
      ValueNext(l, i);
      r[i] := Low(sum);
      carry := High(sum);
      assert r[..i + 1] == before + [Low(sum)];
      ValueSnoc(before, Low(sum));
      i := i + 1;
    }
    RemoveDone(r[..n], start, l, carry, above);
  }

  lemma RemoveStep(power: int, c: limb, low: int, x: limb, l: limb, above: bool, sum: wide, vx: int, vl: int)
    requires power > 0 && power * c as int + low == vx + (if above then power - vl else 0) && 0 <= low < power
    requires sum == Sum(c, x, if above then Not(l) else 0) && (!above ==> c == 0)
    ensures (BASE * power) * High(sum) as int + (low + power * Low(sum) as int)
         == (vx + power * x as int) + (if above then BASE * power - (vl + power * l as int) else 0)
    ensures !above ==> High(sum) == 0
  {
    if above {
      ComplementStep(power, c as int, low, x as int, l as int, Low(sum) as int, High(sum) as int, vx, vl);
    }
  }

  lemma {:induction false} RemoveDone(r: seq<limb>, x: seq<limb>, l: seq<limb>, c: limb, above: bool)
    requires |r| == |x| == |l| && (above <==> Value(x) >= Value(l)) && (!above ==> c == 0)
    requires Power(|l|) * c as int + Value(r) == Value(x[..|l|]) + (if above then Power(|l|) - Value(l[..|l|]) else 0)
    ensures Value(r) == Reduced(Value(x), Value(l))
  {
    assert x[..|l|] == x && l[..|l|] == l;
    ValueBound(x);
    ValueBound(l);
    ValueBound(r);
    if above {
      CarryDecides(c, Value(r), Value(x), Value(l), Power(|l|));
    }
  }

  /** One conditional subtraction gives the remainder exactly below twice the modulus. */
  lemma OneSubtractionSuffices(v: int, l: int)
    requires v >= 0 && l > 0
    ensures Reduced(v, l) == v % l <==> v < 2 * l
  {
    if v < l {
      Unique(v, l, 0, v);
    } else if v < 2 * l {
      Unique(v, l, 1, v - l);
    }
  }

  /** y := x - y modulo the power of its limbs, by adding the complement. */
  method SubtractFrom(y: array<limb>, x: seq<limb>, n: nat)
    requires y.Length >= n && |x| >= n
    modifies y
    ensures Value(y[..n]) == (Value(x[..n]) - Value(old(y[..n]))) % Power(n)
  {
    ghost var start := y[..n];
    var carry: limb := 1;
    var i := 0;
    while i < n
      invariant 0 <= i <= n && y[i..n] == start[i..]
      invariant Power(i) * carry as int + Value(y[..i]) == Value(x[..i]) + Power(i) - Value(start[..i])
    {
      assert y[i] == start[i];
      var sum := Sum(carry, x[i], Not(y[i]));
      ghost var before := y[..i];
      ValueBound(before);
      ComplementStep(Power(i), carry as int, Value(before), x[i] as int, start[i] as int,
                     Low(sum) as int, High(sum) as int, Value(x[..i]), Value(start[..i]));
      ValueNext(x, i);
      ValueNext(start, i);
      y[i] := Low(sum);
      carry := High(sum);
      assert y[..i + 1] == before + [Low(sum)];
      ValueSnoc(before, Low(sum));
      i := i + 1;
    }
    assert start[..n] == start;
    SubtractDone(y[..n], Value(x[..n]), Value(start), carry as int);
  }

  lemma {:induction false} SubtractDone(y: seq<limb>, vx: int, was: int, carry: int)
    requires Power(|y|) * carry + Value(y) == vx + Power(|y|) - was
    ensures Value(y) == (vx - was) % Power(|y|)
  {
    ValueBound(y);
    assert (carry - 1) * Power(|y|) == Power(|y|) * carry - Power(|y|);
    Unique(vx - was, Power(|y|), carry - 1, Value(y));
  }

  // ---------------------------------------------------------- truncated product

  /** A row of the truncated product, modulo the power of all limbs: the dropped carry and the dropped limbs of
      `l` are multiples of it. */
  lemma {:induction false} TruncatedRow(lo: seq<limb>, mid: seq<limb>, mid': seq<limb>, carry: limb, a: limb,
                                        l: seq<limb>)
    returns (k: int)
    requires |mid| == |mid'| && |lo| + |mid| == |l|
    requires Value(mid') + Power(|mid|) * carry as int == Value(mid) + a as int * Value(l[..|mid|])
    ensures Value(lo + mid') == Value(lo + mid) + Power(|lo|) * (a as int * Value(l)) - Power(|l|) * k
  {
    var p, n := Power(|lo|), Power(|mid|);
    var tail := Value(l[|mid|..]);
    ValueConcat(lo, mid);
    ValueConcat(lo, mid');
    ValueSplit(l, |mid|);
    PowerAdd(|lo|, |mid|);
    k := a as int * tail + carry as int;
    TruncatedSum(p, n, Value(mid'), Value(mid), carry as int, a as int, Value(l[..|mid|]), tail);
  }

  lemma TruncatedSum(p: int, n: int, v': int, v: int, c: int, a: int, head: int, tail: int)
    requires v' + n * c == v + a * head
    ensures p * v' == p * v + p * (a * (head + n * tail)) - (p * n) * (a * tail + c)
  {
    assert a * (head + n * tail) == a * head + n * (a * tail);
    assert p * v' == p * (v + a * head - n * c);
    assert p * (v + a * head - n * c) == p * v + p * (a * head) - (p * n) * c;
    assert p * (n * (a * tail)) == (p * n) * (a * tail);
    Distribute(p, a * head, n * (a * tail));
    Distribute(p * n, a * tail, c);
  }

  method LowRow(xr: array<limb>, i: nat, a: limb, l: seq<limb>) returns (ghost k: int)
    requires xr.Length >= |l| && i < |l|
    modifies xr
    ensures xr[|l|..] == old(xr[|l|..])
    ensures Value(xr[..|l|]) == Value(old(xr[..|l|])) + Power(i) * (a as int * Value(l)) - Power(|l|) * k
  {
    var n := |l|;
    ghost var lo, mid := xr[..i], xr[i..n];
    assert xr[..n] == lo + mid;
    var carry := MulRow(xr, i, n - i, a, l);
    assert i + (n - i) == n;
    ghost var mid' := xr[i..n];
    assert xr[..n] == lo + mid';
    k := TruncatedRow(lo, mid, mid', carry, a, l);
  }

  lemma RowsSum(v: int, w: int, a: int, l: int, power: int, n: int, k: int, k': int)
    requires v == w * l - n * k
    ensures v + power * (a * l) - n * k' == (w + power * a) * l - n * (k + k')
  {
    assert power * (a * l) == (power * a) * l;
    assert (w + power * a) * l == w * l + (power * a) * l;
    Distribute(n, k, k');
  }

  /** The low limbs of `q` times `l`, where `q` lies in `xr` from `at` on. */
  method LowProduct(xr: array<limb>, at: nat, l: seq<limb>) returns (ghost k: int)
    requires |l| <= at && at + |l| <= xr.Length && Value(xr[..|l|]) == 0
    modifies xr
    ensures Value(xr[..|l|]) == Value(old(xr[at..at + |l|])) * Value(l) - Power(|l|) * k
  {
    var n := |l|;
    ghost var q := xr[at..at + n];
    k := 0;
    var i := 0;
    while i < n
      invariant 0 <= i <= n && xr[n..] == old(xr[n..])
      invariant Value(xr[..n]) == Value(q[..i]) * Value(l) - Power(n) * k
    {
      assert xr[i + at] == q[i] by {
        assert xr[i + at] == xr[n..][i + at - n];
      }
      ghost var v := Value(xr[..n]);
      ghost var k' := LowRow(xr, i, xr[i + at], l);
      RowsSum(v, Value(q[..i]), q[i] as int, Value(l), Power(i), Power(n), k, k');
      ValueNext(q, i);
      k := k + k';
      i := i + 1;
    }
    assert q[..n] == q;
  }

  // ------------------------------------------------------------------- Barrett

  lemma ProductMono(a: int, b: int, k: int)
    requires a <= b && k >= 0
    ensures a * k <= b * k
  {
    assert (b - a) * k >= 0;
  }

  lemma CancelPositive(a: int, b: int, k: int)
    requires k > 0
    ensures a * k <= b * k ==> a <= b
    ensures a * k < b * k ==> a < b
  {
    if a > b {
      ProductMono(b + 1, a, k);
    } else if a == b {
      assert a * k == b * k;
    }
  }

  /** With r the quotient of n by l, the estimate q of x / l taken from x r / n is not too large... */
  lemma EstimateBelow(x: int, r: int, l: int, n: int, q: int)
    requires 0 <= x && l > 0 && n > 0 && r * l <= n && q * n <= x * r
    ensures q * l <= x
  {
    ProductMono(q * n, x * r, l);
    ProductMono(r * l, n, x);
    assert (q * l) * n == (q * n) * l;
    assert (x * r) * l == (r * l) * x;
    CancelPositive(q * l, x, n);
  }

  /** ...and at most one too small. */
  lemma EstimateAbove(x: int, r: int, l: int, n: int, q: int)
    requires 0 <= x < n && l > 0 && n < (r + 1) * l && x * r < (q + 1) * n
    ensures x < (q + 2) * l
  {
    ProductMono(n, (r + 1) * l, x);
    ProductMono(x * r, (q + 1) * n, l);
    assert ((r + 1) * l) * x == (x * r) * l + x * l;
    assert ((q + 1) * n) * l == ((q + 1) * l) * n;
    assert x * l < n * l by {
      ProductMono(1, n - x, l);
      assert (n - x) * l == n * l - x * l;
    }
    assert ((q + 1) * l) * n + n * l == ((q + 2) * l) * n;
    CancelPositive(x, (q + 2) * l, n);
  }

  /** `r` is the quotient of the double-length power by `l`, and twice `l` still fits its limbs. */
  ghost predicate Reciprocal(l: seq<limb>, r: seq<limb>) {
    && |r| == |l| + 1 && Value(l) > 0 && 2 * Value(l) <= Power(|l|)
    && Value(r) * Value(l) <= Power(2 * |l|) < (Value(r) + 1) * Value(l)
  }

  /** What Barrett's estimate leaves is below twice the modulus. */
  lemma {:induction false} BarrettLeaves(x: seq<limb>, l: seq<limb>, r: seq<limb>, q: int)
    requires Reciprocal(l, r) && |x| == 2 * |l|
    requires q * Power(2 * |l|) <= Value(x) * Value(r) < (q + 1) * Power(2 * |l|)
    ensures 0 <= Value(x) - q * Value(l) < 2 * Value(l)
  {
    ValueBound(x);
    EstimateBelow(Value(x), Value(r), Value(l), Power(2 * |l|), q);
    EstimateAbove(Value(x), Value(r), Value(l), Power(2 * |l|), q);
    assert (q + 2) * Value(l) == q * Value(l) + 2 * Value(l);
  }

  /** The estimate is read off the product at limb 2 |l|; its topmost limb is not used, which only changes the
      truncated product by a multiple of the power. */
  lemma {:induction false} EstimateLimbs(xr: seq<limb>, n: nat, product: int) returns (top: int)
    requires |xr| == 3 * n + 1 && Value(xr) == product
    ensures var q := Value(xr[2 * n..]);
            q * Power(2 * n) <= product < (q + 1) * Power(2 * n) && Value(xr[2 * n..3 * n]) == q - Power(n) * top
  {
    ValueSplit(xr, 2 * n);
    ValueBound(xr[..2 * n]);
    ValueSplit(xr[2 * n..], n);
    assert xr[2 * n..][..n] == xr[2 * n..3 * n];
    top := Value(xr[2 * n..][n..]);
    var q, p := Value(xr[2 * n..]), Power(2 * n);
    assert (q + 1) * p == q * p + p;
  }

  /** The low halves decide: the difference is below the power of its limbs. */
  lemma LowHalvesSuffice(low: int, high: int, ql: int, taken: int, k: int, power: int, l: int)
    requires power > 0 && taken == ql - power * k && 0 <= low + power * high - ql < 2 * l <= power
    ensures (low - taken) % power == low + power * high - ql
  {
    assert (k - high) * power == power * k - power * high;
    Unique(low - taken, power, k - high, low + power * high - ql);
  }

  lemma ShiftedProduct(q: int, top: int, l: int, power: int, k: int)
    ensures (q - power * top) * l - power * k == q * l - power * (top * l + k)
  {
    assert (power * top) * l == power * (top * l);
    Distribute(power, top * l, k);
    assert (q - power * top) * l == q * l - (power * top) * l;
  }

  method Clear(xr: array<limb>, n: nat)
    requires n <= xr.Length
    modifies xr
    ensures xr[n..] == old(xr[n..]) && Value(xr[..n]) == 0
  {
    var i := 0;
    while i < n
      invariant 0 <= i <= n && xr[n..] == old(xr[n..])
      invariant forall k :: 0 <= k < i ==> xr[k] == 0
    {
      xr[i] := 0;
      i := i + 1;
    }
    ZeroValue(xr[..n]);
  }

  /** The product of `x` and the reciprocal, cleared below the estimate. */
  method Estimate(xr: array<limb>, x: seq<limb>, r: seq<limb>, n: nat) returns (ghost q: int, ghost top: int)
    requires |r| == n + 1 && |x| == 2 * n && xr.Length == 3 * n + 1
    modifies xr
    ensures q * Power(2 * n) <= Value(x) * Value(r) < (q + 1) * Power(2 * n)
    ensures Value(xr[..n]) == 0 && Value(xr[2 * n..3 * n]) == q - Power(n) * top
  {
    Clear(xr, xr.Length);
    assert xr[..xr.Length] == xr[..];
    ZeroPrefix(xr[..], |x|);
    assert xr[..][..|x|] == xr[..|x|];
    Multiply(xr, r, x);
    assert xr[..|r| + |x|] == xr[..];
    top := EstimateLimbs(xr[..], n, Value(r) * Value(x));
    q := Value(xr[..][2 * n..]);
    ghost var low := xr[2 * n..3 * n];
    assert low == xr[..][2 * n..3 * n] == xr[n..][n..2 * n];
    Clear(xr, n);
    assert xr[2 * n..3 * n] == xr[n..][n..2 * n];
  }

  /** The estimate times `l`, truncated to the low limbs: the first three loops of `mod_l`. */
  method EstimateTimes(xr: array<limb>, x: seq<limb>, l: seq<limb>, r: seq<limb>) returns (ghost q: int, ghost k: int)
    requires |r| == |l| + 1 && |x| == 2 * |l| && xr.Length == 3 * |l| + 1
    modifies xr
    ensures q * Power(2 * |l|) <= Value(x) * Value(r) < (q + 1) * Power(2 * |l|)
    ensures Value(xr[..|l|]) == q * Value(l) - Power(|l|) * k
  {
    var n := |l|;
    ghost var top;
    q, top := Estimate(xr, x, r, n);
    assert 2 * n + n == 3 * n;
    ghost var m := LowProduct(xr, 2 * n, l);
    ShiftedProduct(q, top, Value(l), Power(n), m);
    k := top * Value(l) + m;
  }

  lemma {:induction false} ZeroPrefix(s: seq<limb>, n: nat)
    requires n <= |s| && Value(s) == 0
    ensures Value(s[..n]) == 0
  {
    ValueSplit(s, n);
    ValueBound(s[..n]);
    ValueBound(s[n..]);
    ZeroProduct(Power(n), Value(s[n..]));
    assert Power(n) * Value(s[n..]) >= 0;
  }

  /** `mod_l`. */
  method Reduce(x: seq<limb>, l: seq<limb>, r: seq<limb>) returns (reduced: seq<limb>)
    requires Reciprocal(l, r) && |x| == 2 * |l|
    ensures |reduced| == |l| && Value(reduced) == Value(x) % Value(l)
  {
    var n := |l|;
    var xr := new limb[3 * n + 1];
    ghost var q, k := EstimateTimes(xr, x, l, r);
    BarrettLeaves(x, l, r, q);
    ValueSplit(x, n);
    LowHalvesSuffice(Value(x[..n]), Value(x[n..]), q * Value(l), Value(xr[..n]), k, Power(n), Value(l));
    SubtractFrom(xr, x, n);
    ghost var v := Value(xr[..n]);
    Remove(xr, xr, l);
    OneSubtractionSuffices(v, Value(l));
    SameRemainder(Value(x), q, Value(l), v);
    reduced := xr[..n];
  }

  lemma SameRemainder(x: int, q: int, l: int, v: int)
    requires l > 0 && v == x - q * l
    ensures v % l == x % l
  {
    var m := v / l;
    assert v == m * l + v % l;
    assert x == (q + m) * l + v % l by {
      assert (q + m) * l == q * l + m * l;
    }
    Unique(x, l, q + m, v % l);
  }
}
