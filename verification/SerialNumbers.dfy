/** Sequence numbers and their comparison, in two readings.

    `Wrapping` is what the C code computes: a number is kept modulo 2^32 and two numbers are
    compared by the sign of their 32-bit difference (`_itimediff`).  `Unbounded` is the ideal
    reading, in which numbers never wrap.  Every operation of the protocol model takes the
    reading as a parameter, so the code's behaviour and its ideal are one definition. */
module SerialNumbers {

  const TWO31: int := 0x8000_0000
  const TWO32: int := 0x1_0000_0000

  type u32 = x: int | 0 <= x < 0x1_0000_0000

  datatype Arith = Unbounded | Wrapping

  /** The stored form of a number. */
  function Norm(m: Arith, x: int): (r: int)
  {
    if m.Wrapping? then x % TWO32 else x
  }

  /** The `IINT32` value of a 32-bit pattern. */
  function Signed32(x: int): (r: int)
    requires 0 <= x < TWO32
    ensures -TWO31 <= r < TWO31
    ensures r == x || r == x - TWO32
  {
    if x < TWO31 then x else x - TWO32
  }

  /** `_itimediff(later, earlier)`. */
  function Diff(m: Arith, later: int, earlier: int): (r: int)
  {
    if m.Wrapping? then Signed32((later - earlier) % TWO32) else later - earlier
  }

  lemma ModShift(x: int, k: int)
    ensures (x + k * TWO32) % TWO32 == x % TWO32
  {
    var q := x / TWO32;
    assert x + k * TWO32 == (q + k) * TWO32 + x % TWO32;
    DivModUnique(x + k * TWO32, q + k, x % TWO32);
  }

  lemma DivModUnique(x: int, q: int, r: int)
    requires x == q * TWO32 + r && 0 <= r < TWO32
    ensures x / TWO32 == q && x % TWO32 == r
  {
    var d := x / TWO32 - q;
    assert x == (x / TWO32) * TWO32 + x % TWO32;
    assert d * TWO32 == r - x % TWO32;
  }

  /** Reducing the operands first does not change a 32-bit subtraction. */
  lemma DiffOfNorms(a: int, b: int)
    ensures Diff(Wrapping, Norm(Wrapping, a), Norm(Wrapping, b)) == Diff(Wrapping, a, b)
  {
    var k := b / TWO32 - a / TWO32;
    assert a % TWO32 - b % TWO32 == (a - b) + k * TWO32;
    ModShift(a - b, k);
  }

  /** The 32-bit difference is the true difference exactly inside half the number circle. */
  lemma DiffExact(a: int, b: int)
    ensures Diff(Wrapping, Norm(Wrapping, a), Norm(Wrapping, b)) == a - b <==> -TWO31 <= a - b < TWO31
  {
    DiffOfNorms(a, b);
    if 0 <= a - b < TWO31 {
      DivModUnique(a - b, 0, a - b);
    } else if -TWO31 <= a - b < 0 {
      DivModUnique(a - b, -1, a - b + TWO32);
    }
  }

  lemma NormIncrement(a: int)
    ensures Norm(Wrapping, Norm(Wrapping, a) + 1) == Norm(Wrapping, a + 1)
  {
    ModShift(a + 1, -(a / TWO32));
    assert a % TWO32 + 1 == (a + 1) + -(a / TWO32) * TWO32;
  }

  /** Two numbers less than 2^32 apart are told apart by their stored forms. */
  lemma NormInjective(a: int, b: int)
    requires -TWO32 < a - b < TWO32
    ensures Norm(Wrapping, a) == Norm(Wrapping, b) <==> a == b
  {
    var k := a / TWO32 - b / TWO32;
    if Norm(Wrapping, a) == Norm(Wrapping, b) {
      assert a - b == k * TWO32;
    }
  }

  lemma NegatedMod(d: int)
    ensures (-d) % TWO32 == if d % TWO32 == 0 then 0 else TWO32 - d % TWO32
  {
    var q, r := d / TWO32, d % TWO32;
    if r == 0 {
      DivModUnique(-d, -q, 0);
    } else {
      DivModUnique(-d, -q - 1, TWO32 - r);
    }
  }
}
