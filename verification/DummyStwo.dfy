/** The placeholder proof of the STWO integration: eighteen bytes that carry a claim over the field of 2^31 - 1. */
module DummyStwo {
  import opened Wrappers
  import opened Bytes

  const STWO_PROOF_MAX_BYTES: nat := 2 * 1024 * 1024
  const DUMMY_PROOF_LEN: nat := 18
  const MAGIC: seq<Byte> := [0x44, 0x53, 0x54, 0x57]
  const PROVER_ID_STWO: Byte := 2
  const CURVE_ID_M31: Byte := 5

  datatype ProofError = ProofTooLarge(length: nat) | Truncated | BadMagic | WrongProverId(id: Byte)
                      | WrongCurveId(id: Byte) | PublicInputMismatch

  /** The claim, reduced step by step. */
  function DummyM31Hash(a: u32, b: u32): (c: u32)
    ensures c == (3 * (a as int) + 5 * (b as int) + 7) % 0x7FFF_FFFF
  {
    var aa := 3 * (a as int) % 0x7FFF_FFFF;
    var bb := 5 * (b as int) % 0x7FFF_FFFF;
    ReducedSum(3 * (a as int), 5 * (b as int));
    ((aa + bb) % 0x7FFF_FFFF + 7) % 0x7FFF_FFFF
  }

  lemma ReducedSum(x: int, y: int)
    ensures ((x % 0x7FFF_FFFF + y % 0x7FFF_FFFF) % 0x7FFF_FFFF + 7) % 0x7FFF_FFFF == (x + y + 7) % 0x7FFF_FFFF
  {
    var m := 0x7FFF_FFFF;
    var s := x % m + y % m;
    var t := s % m + 7;
    DivModUnique(x + y + 7, x / m + y / m + s / m + t / m, t % m, m);
  }

  method ProveDummy(a: u32, b: u32) returns (out: seq<Byte>)
    ensures out == Claim(a, b, DummyM31Hash(a, b))
    ensures |out| == 18 && out[0..4] == Ascii("DSTW") && out[4] == 2 && out[5] == 5
    ensures LittleWord4(out[6..10]) == a && LittleWord4(out[10..14]) == b
    ensures LittleWord4(out[14..18]) == (3 * (a as int) + 5 * (b as int) + 7) % 0x7FFF_FFFF
  {
    ClaimLayout(a, b, DummyM31Hash(a, b));
    hide LeBytes, LittleWord4;
    var c := DummyM31Hash(a, b);
    out := MAGIC;
    out := out + [PROVER_ID_STWO];
    out := out + [CURVE_ID_M31];
    out := out + LeBytes(a, 4);
    out := out + LeBytes(b, 4);
    out := out + LeBytes(c, 4);
  }

  /** A proof whose size is accepted. */
  predicate InRange(proof: seq<Byte>) {
    DUMMY_PROOF_LEN <= |proof| <= STWO_PROOF_MAX_BYTES
  }

  /** The eighteen bytes that carry a claim, true or not. */
  function Claim(a: u32, b: u32, c: u32): (proof: seq<Byte>)
    ensures |proof| == 18
  {
    MAGIC + ([PROVER_ID_STWO] + ([CURVE_ID_M31] + (LeBytes(a, 4) + (LeBytes(b, 4) + LeBytes(c, 4)))))
  }

  /** The verdict is decided by the size, the six header bytes, and the claim, in that order. */
  method VerifyDummy(proof: seq<Byte>, a: u32, b: u32, claimedHash: u32) returns (r: Result<bool, ProofError>)
    ensures r == Err(ProofTooLarge(|proof|)) <==> |proof| > 2_097_152
    ensures r == Err(Truncated) <==> |proof| < 18
    ensures r == Err(BadMagic) <==> InRange(proof) && proof[0..4] != MAGIC
    ensures InRange(proof) && proof[0..4] == MAGIC && proof[4] != PROVER_ID_STWO <==> r.Err? && r.error.WrongProverId?
    ensures r.Err? && r.error.WrongProverId? ==> r.error.id == proof[4]
    ensures InRange(proof) && proof[0..4] == MAGIC && proof[4] == PROVER_ID_STWO && proof[5] != CURVE_ID_M31
       <==> r.Err? && r.error.WrongCurveId?
    ensures r.Err? && r.error.WrongCurveId? ==> r.error.id == proof[5]
    ensures r.Ok? <==> InRange(proof) && Claim(a, b, claimedHash) <= proof
    ensures r.Ok? ==> (r.value <==> claimedHash == DummyM31Hash(a, b))
  {
    if |proof| > STWO_PROOF_MAX_BYTES {
      return Err(ProofTooLarge(|proof|));
    }
    if |proof| < DUMMY_PROOF_LEN {
      return Err(Truncated);
    }
    Layout(proof, a, b, claimedHash);
    hide Claim, LeValue, LeBytes, DummyM31Hash;
    if proof[0..4] != MAGIC {
      return Err(BadMagic);
    }
    var proverId := proof[4];
    var curveId := proof[5];
    if proverId != PROVER_ID_STWO {
      return Err(WrongProverId(proverId));
    }
    if curveId != CURVE_ID_M31 {
      return Err(WrongCurveId(curveId));
    }
    var pa := LeValue(proof[6..10]);
    var pb := LeValue(proof[10..14]);
    var pc := LeValue(proof[14..18]);
    if pa != a || pb != b || pc != claimedHash {
      return Err(PublicInputMismatch);
    }
    if DummyM31Hash(pa, pb) != pc {
      return Ok(false);
    }
    return Ok(true);
  }

  lemma ClaimFields(a: u32, b: u32, c: u32)
    ensures var h := Claim(a, b, c);
      && h[0..4] == MAGIC && h[4] == PROVER_ID_STWO && h[5] == CURVE_ID_M31
      && h[6..10] == LeBytes(a, 4) && h[10..14] == LeBytes(b, 4) && h[14..18] == LeBytes(c, 4)
  {
    hide LeBytes;
    var h, tail := Claim(a, b, c), LeBytes(a, 4) + (LeBytes(b, 4) + LeBytes(c, 4));
    assert h == MAGIC + ([PROVER_ID_STWO] + ([CURVE_ID_M31] + tail));
    hide Claim;
    assert h[6..] == tail;
    assert h[6..10] == tail[0..4] && h[10..14] == tail[4..8] && h[14..18] == tail[8..12];
  }

  /** The tag, the prover and curve numbers, and three little-endian words. */
  lemma ClaimLayout(a: u32, b: u32, c: u32)
    ensures var h := Claim(a, b, c);
      && h[0..4] == Ascii("DSTW") && h[4] == 2 && h[5] == 5
      && LittleWord4(h[6..10]) == a && LittleWord4(h[10..14]) == b && LittleWord4(h[14..18]) == c
  {
    hide Claim, LeBytes, LeValue, LittleWord4;
    ClaimFields(a, b, c);
    WordSizes();
    assert MAGIC == Ascii("DSTW");
    LeValueOfBytes(a, 4);
    LeValueOfBytes(b, 4);
    LeValueOfBytes(c, 4);
    LeWord4(LeBytes(a, 4));
    LeWord4(LeBytes(b, 4));
    LeWord4(LeBytes(c, 4));
  }

  /** A proof starts with a claim exactly when each of its fields is the claim's. */
  lemma Layout(proof: seq<Byte>, a: u32, b: u32, c: u32)
    requires |proof| >= 18
    ensures Claim(a, b, c) <= proof
       <==> (proof[0..4] == MAGIC && proof[4] == PROVER_ID_STWO && proof[5] == CURVE_ID_M31
             && LeValue(proof[6..10]) == a && LeValue(proof[10..14]) == b && LeValue(proof[14..18]) == c)
  {
    hide Claim, LeBytes, LeValue;
    SameWord(proof[6..10], a);
    SameWord(proof[10..14], b);
    SameWord(proof[14..18], c);
    ClaimFields(a, b, c);
    PrefixByFields(Claim(a, b, c), proof);
  }

  lemma PrefixByFields(h: seq<Byte>, p: seq<Byte>)
    requires |h| == 18 <= |p|
    ensures h <= p
       <==> (h[0..4] == p[0..4] && h[4] == p[4] && h[5] == p[5] && h[6..10] == p[6..10]
             && h[10..14] == p[10..14] && h[14..18] == p[14..18])
  {
    if h[0..4] == p[0..4] && h[4] == p[4] && h[5] == p[5] && h[6..10] == p[6..10]
       && h[10..14] == p[10..14] && h[14..18] == p[14..18] {
      assert h == h[0..4] + [h[4]] + [h[5]] + h[6..10] + h[10..14] + h[14..18];
      assert p[..18] == p[0..4] + [p[4]] + [p[5]] + p[6..10] + p[10..14] + p[14..18];
    }
  }

  lemma SameWord(s: seq<Byte>, v: u32)
    requires |s| == 4
    ensures LeValue(s) == v <==> s == LeBytes(v, 4)
  {
    WordSizes();
    LeValueOfBytes(v, 4);
    LeBytesOfValue(s, 4);
  }

  /** Accepted are exactly the proofs that start with the honest one, under the true claim. */
  method Accepts(proof: seq<Byte>, a: u32, b: u32, c: u32) returns (accepted: bool)
    ensures accepted
       <==> (InRange(proof) && Claim(a, b, DummyM31Hash(a, b)) <= proof
             && c == (3 * (a as int) + 5 * (b as int) + 7) % 0x7FFF_FFFF)
  {
    hide Claim;
    var r := VerifyDummy(proof, a, b, c);
    accepted := r == Ok(true);
  }

  /**
   * Any change within the first eighteen bytes of an honest proof is rejected under the honest public inputs,
   * and changes after them are not noticed.
   */
  method VerifyTampered(a: u32, b: u32, position: nat, byte: Byte, tail: seq<Byte>) returns (accepted: bool)
    requires position < 18 + |tail| <= STWO_PROOF_MAX_BYTES
    ensures var honest := Claim(a, b, DummyM31Hash(a, b)) + tail;
            accepted <==> position >= 18 || honest[position] == byte
  {
    hide Claim;
    var honest := ProveDummy(a, b);
    ghost var proof := honest + tail;
    var tampered := (honest + tail)[position := byte];
    accepted := Accepts(tampered, a, b, DummyM31Hash(a, b));
    if position >= 18 || proof[position] == byte {
      assert tampered[..18] == honest;
    } else {
      assert tampered[position] != honest[position];
    }
  }
}
