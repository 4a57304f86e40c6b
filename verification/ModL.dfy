/** Arithmetic modulo the order L of the Ed25519 base point. */
module ModL {
  import opened Bytes
  import opened Limbs
  import opened Reduction

  /** 2^252 + 27742317777372353535851937790883648493. */
  const ORDER: int := 0x1000_0000_0000_0000_0000_0000_0000_0000_14de_f9de_a2f7_9cd6_5812_631a_5cf5_d3ed

  const L: seq<limb> := [0x5cf5_d3ed, 0x5812_631a, 0xa2f7_9cd6, 0x14de_f9de, 0, 0, 0, 0x1000_0000]

  const RECIPROCAL: int := 0xf_ffff_ffff_ffff_ffff_ffff_ffff_ffff_ffeb_2106_215d_0863_29a7_ed9c_e5a3_0a2c_131b

  const R: seq<limb> := [0x0a2c_131b, 0xed9c_e5a3, 0x0863_29a7, 0x2106_215d,
                         0xffff_ffeb, 0xffff_ffff, 0xffff_ffff, 0xffff_ffff, 0xf]

  const TWO256: int := 0x1_0000_0000_0000_0000_0000_0000_0000_0000_0000_0000_0000_0000_0000_0000_0000_0000

  lemma ValueOfL()
    ensures Value(L) == ORDER
  {
    Value4(L);
    Value4(L[4..]);
    assert L[4..][4..] == [];
  }

  lemma ValueOfR()
    ensures Value(R) == RECIPROCAL
  {
    Value4(R);
    Value4(R[4..]);
    assert R[4..][4..] == [R[8]];
    ValueOne(R[8]);
  }

  lemma Powers()
    ensures Power(8) == TWO256 && Power(16) == TWO256 * TWO256
  {
    Power4();
    PowerAdd(4, 4);
    PowerAdd(8, 8);
  }

  /** The constant table `r` is the 512-bit reciprocal of L. */
  lemma ReciprocalOfL()
    ensures Reciprocal(L, R)
  {
    ValueOfL();
    ValueOfR();
    Powers();
    assert RECIPROCAL * ORDER <= TWO256 * TWO256 < (RECIPROCAL + 1) * ORDER;
    assert 2 * ORDER <= TWO256;
  }

  /** `mod_l`: the remainder of any 512-bit number, as 32 bytes. */
  method Reduce512(x: seq<limb>) returns (reduced: seq<byte>)
    requires |x| == 16
    ensures |reduced| == 32 && DecodeLE(reduced) == Value(x) % ORDER
  {
    ReciprocalOfL();
    ValueOfL();
    var limbs := Reduce(x, L, R);
    StoreValue(limbs);
    reduced := Store(limbs);
  }

  /** `crypto_eddsa_reduce`. */
  method EddsaReduce(expanded: seq<byte>) returns (reduced: seq<byte>)
    requires |expanded| == 64
    ensures |reduced| == 32 && DecodeLE(reduced) == DecodeLE(expanded) % ORDER
  {
    LoadValue(expanded);
    reduced := Reduce512(Load(expanded));
  }

  /** `crypto_eddsa_mul_add`. */
  method EddsaMulAdd(a: seq<byte>, b: seq<byte>, c: seq<byte>) returns (r: seq<byte>)
    requires |a| == |b| == |c| == 32
    ensures |r| == 32 && DecodeLE(r) == (DecodeLE(a) * DecodeLE(b) + DecodeLE(c)) % ORDER
  {
    LoadValue(a);
    LoadValue(b);
    LoadValue(c);
    var p := new limb[16](i => 0);
    var addend := Load(c);
    forall i | 0 <= i < 8 {
      p[i] := addend[i];
    }
    assert p[..8] == addend;
    Multiply(p, Load(a), Load(b));
    assert p[..8 + 8] == p[..];
    r := Reduce512(p[..]);
  }
}
