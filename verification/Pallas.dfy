/** Reduction of a 256-bit digest modulo the Pallas base field, on big-endian byte arrays. */
module Pallas {
  import opened Bytes

  const PALLAS_P: seq<Byte> := [
    0x40, 0x00, 0x00, 0x00, 0x00, 0x00, 0x00, 0x00,
    0x00, 0x00, 0x00, 0x00, 0x00, 0x00, 0x00, 0x00,
    0x22, 0x46, 0x98, 0xfc, 0x09, 0x4c, 0xf9, 0x1b,
    0x99, 0x2d, 0x30, 0xed, 0x00, 0x00, 0x00, 0x01]

  /** The modulus of the Pallas curve's base field. */
  const MODULUS: nat := 0x40000000_00000000_00000000_00000000_224698fc_094cf91b_992d30ed_00000001

  const U256: nat := 0x1_00000000_00000000_00000000_00000000_00000000_00000000_00000000_00000000

  lemma UpperHalf()
    ensures BeValue(PALLAS_P[..16]) == 0x40000000_00000000_00000000_00000000
  {
    assert PALLAS_P[..0] == [];
    FourBytes(PALLAS_P, 0);
    assert BeValue(PALLAS_P[..4]) == 0x40000000;
    FourBytes(PALLAS_P, 4);
    FourBytes(PALLAS_P, 8);
    FourBytes(PALLAS_P, 12);
  }

  lemma ThreeQuarters()
    ensures BeValue(PALLAS_P[..24]) == 0x40000000_00000000_00000000_00000000_224698fc_094cf91b
  {
    UpperHalf();
    FourBytes(PALLAS_P, 16);
    assert BeValue(PALLAS_P[..20]) == 0x40000000_00000000_00000000_00000000_224698fc;
    FourBytes(PALLAS_P, 20);
  }

  /** The 32 bytes of the constant are the modulus. */
  lemma ConstantIsModulus()
    ensures BeValue(PALLAS_P) == MODULUS
  {
    ThreeQuarters();
    FourBytes(PALLAS_P, 24);
    assert BeValue(PALLAS_P[..28]) == 0x40000000_00000000_00000000_00000000_224698fc_094cf91b_992d30ed;
    FourBytes(PALLAS_P, 28);
    assert PALLAS_P[..32] == PALLAS_P;
  }

  lemma Pow256Of32()
    ensures Pow256(32) == U256
  {
    WordSizes();
    PowAdds(8, 8);
    PowAdds(16, 16);
  }

  lemma {:induction false} PowAdds(m: nat, n: nat)
    ensures Pow256(m + n) == Pow256(m) * Pow256(n)
  {
    if m > 0 {
      PowAdds(m - 1, n);
      assert 256 * (Pow256(m - 1) * Pow256(n)) == Pow256(m) * Pow256(n);
    }
  }

  /** The first differing byte decides the order of the numbers. */
  lemma {:induction false} FirstDifferenceDecides(s: seq<Byte>, t: seq<Byte>, i: nat)
    requires |s| == |t| && i < |s| && s[..i] == t[..i] && s[i] < t[i]
    ensures BeValue(s) < BeValue(t)
  {
    var last := |s| - 1;
    if i < last {
      assert s[..last][..i] == s[..i] && t[..last][..i] == t[..i];
      FirstDifferenceDecides(s[..last], t[..last], i);
    }
  }

  method GeP(a: seq<Byte>) returns (ge: bool)
    requires |a| == 32
    ensures ge <==> BeValue(a) >= MODULUS
  {
    ConstantIsModulus();
    hide BeValue;
    for i := 0 to 32
      invariant a[..i] == PALLAS_P[..i]
    {
      if a[i] > PALLAS_P[i] {
        FirstDifferenceDecides(PALLAS_P, a, i);
        return true;
      }
      if a[i] < PALLAS_P[i] {
        FirstDifferenceDecides(a, PALLAS_P, i);
        return false;
      }
      assert a[..i + 1] == a[..i] + [a[i]] && PALLAS_P[..i + 1] == PALLAS_P[..i] + [PALLAS_P[i]];
    }
    assert a == a[..32] && PALLAS_P == PALLAS_P[..32];
    return true;
  }

  /** One more byte in front of a difference that is already computed up to its borrow. */
  lemma BorrowStep(s: seq<Byte>, t: seq<Byte>, d: seq<Byte>, borrow: int, i: nat, x: Byte, borrow': int)
    requires |s| == |t| && i < |s| && |d| == |s| - i - 1
    requires BeValue(d) == BeValue(s[i + 1..]) - BeValue(t[i + 1..]) + borrow * Pow256(|d|)
    requires x == s[i] - t[i] - borrow + 256 * borrow'
    ensures BeValue([x] + d) == BeValue(s[i..]) - BeValue(t[i..]) + borrow' * Pow256(|d| + 1)
  {
    assert s[i..] == [s[i]] + s[i + 1..] && t[i..] == [t[i]] + t[i + 1..];
    BeValueCons(s[i], s[i + 1..]);
    BeValueCons(t[i], t[i + 1..]);
    BeValueCons(x, d);
    ScaledDifference(s[i], t[i], borrow, borrow', Pow256(|d|));
  }

  lemma ScaledDifference(a: int, b: int, c: int, d: int, p: int)
    ensures (a - b - c + 256 * d) * p == a * p - b * p - c * p + d * (256 * p)
  {
  }

  /** One 16-bit step of the chain: the byte kept and the borrow passed on. */
  method SubByte(x: Byte, y: Byte, borrow: int) returns (byte: Byte, borrow': int)
    requires 0 <= borrow <= 1
    ensures byte == x - y - borrow + 256 * borrow' && 0 <= borrow' <= 1
  {
    assert (x - y) % 0x1_0000 == if x >= y then x - y else x - y + 0x1_0000;
    var diff := ((x - y) % 0x1_0000 - borrow) % 0x1_0000;
    byte := diff % 256;
    borrow' := if diff > 0xFF then 1 else 0;
  }

  lemma NothingSubtracted(d: seq<Byte>, s: seq<Byte>, t: seq<Byte>)
    requires |d| == |s| == |t| == 0
    ensures BeValue(d) == BeValue(s) - BeValue(t) + 0 * Pow256(0)
  {
  }

  /** Subtraction with a borrow chain in wrapping 16-bit arithmetic is subtraction modulo 2^256. */
  method Sub256(a: seq<Byte>, b: seq<Byte>) returns (difference: seq<Byte>)
    requires |a| == 32 && |b| == 32
    ensures |difference| == 32
    ensures BeValue(difference) == (BeValue(a) - BeValue(b)) % U256
  {
    var result := new Byte[32](_ => 0);
    var borrow := 0;
    var i := 32;
    NothingSubtracted(result[32..], a[32..], b[32..]);
    hide BeValue, Pow256;
    while i > 0
      invariant 0 <= i <= 32 && 0 <= borrow <= 1
      invariant BeValue(result[i..]) == BeValue(a[i..]) - BeValue(b[i..]) + borrow * Pow256(32 - i)
    {
      i := i - 1;
      ghost var done, borrowIn := result[i + 1..], borrow;
      var byte;
      byte, borrow := SubByte(a[i], b[i], borrow);
      BorrowStep(a, b, done, borrowIn, i, byte, borrow);
      result[i] := byte;
      assert result[i..] == [byte] + done;
    }
    difference := result[..];
    assert result[0..] == difference && a[0..] == a && b[0..] == b;
    WrappedDifference(a, b, difference, borrow);
  }

  /** The borrow that is left over counts for 2^256. */
  lemma WrappedDifference(a: seq<Byte>, b: seq<Byte>, d: seq<Byte>, borrow: int)
    requires |d| == 32 && 0 <= borrow <= 1
    requires BeValue(d) == BeValue(a) - BeValue(b) + borrow * Pow256(32)
    ensures BeValue(d) == (BeValue(a) - BeValue(b)) % U256
  {
    BeValueBound(d);
    Pow256Of32();
    hide BeValue, Pow256;
    DivModUnique(BeValue(a) - BeValue(b), -borrow, BeValue(d), U256);
  }

  /** Repeated subtraction is reduction modulo the Pallas prime, in at most three subtractions. */
  method ReduceModP(val: seq<Byte>) returns (r: seq<Byte>, ghost subtractions: nat)
    requires |val| == 32
    ensures |r| == 32 && BeValue(r) == BeValue(val) % MODULUS
    ensures subtractions == BeValue(val) / MODULUS <= 3
  {
    r, subtractions := val, 0;
    ConstantIsModulus();
    Pow256Of32();
    BeValueBound(val);
    var ge := GeP(r);
    while ge
      invariant |r| == 32 && BeValue(r) < U256
      invariant ge <==> BeValue(r) >= MODULUS
      invariant BeValue(val) == subtractions * MODULUS + BeValue(r)
      decreases BeValue(r)
    {
      r := Sub256(r, PALLAS_P);
      subtractions := subtractions + 1;
      ge := GeP(r);
    }
    DivModUnique(BeValue(val), subtractions, BeValue(r), MODULUS);
  }
}
