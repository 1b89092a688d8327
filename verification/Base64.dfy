/**
 * Base64 as section 4 of RFC 4648 defines it. `RfcEncode` follows the standard on bits; `Encode` is the
 * byte-group form that the programs compute. Text is a string of UTF-8 bytes.
 */
module Base64 {
  import opened Wrappers
  import opened Bytes

  type Sextet = x: int | 0 <= x < 64

  const PAD: Byte := 61  // '='

  /** Table 1 of RFC 4648: A-Z, a-z, 0-9, '+', '/'. */
  function Digit(v: Sextet): Byte {
    if v < 26 then v + 65
    else if v < 52 then v + 71
    else if v < 62 then v - 4
    else if v == 62 then 43
    else 47
  }

  /** The value of a digit, by the ranges every decoder matches on. */
  function DigitValue(c: Byte): Option<Sextet> {
    if 65 <= c <= 90 then Some(c - 65)
    else if 97 <= c <= 122 then Some(c - 97 + 26)
    else if 48 <= c <= 57 then Some(c - 48 + 52)
    else if c == 43 then Some(62)
    else if c == 47 then Some(63)
    else None
  }

  lemma DigitsAreDistinct(v: Sextet)
    ensures DigitValue(Digit(v)) == Some(v) && Digit(v) != PAD
  {
  }

  lemma PadAsText()
    ensures [PAD] == Ascii("=")
  {
  }

  /** A byte has a value exactly when it is the digit of that value. */
  lemma DigitValueExactly(c: Byte, v: Sextet)
    ensures DigitValue(c) == Some(v) <==> c == Digit(v)
  {
  }

  // ---- the standard, on bits ----

  /** The bits of a byte, most significant first. */
  function ByteBits(b: Byte): (bits: seq<bool>)
    ensures |bits| == 8
  {
    var b1 := b / 2;
    var b2 := b1 / 2;
    var b3 := b2 / 2;
    var b4 := b3 / 2;
    var b5 := b4 / 2;
    var b6 := b5 / 2;
    [b6 / 2 == 1, b6 % 2 == 1, b5 % 2 == 1, b4 % 2 == 1, b3 % 2 == 1, b2 % 2 == 1, b1 % 2 == 1, b % 2 == 1]
  }

  function Bits(data: seq<Byte>): seq<bool> {
    if |data| == 0 then [] else ByteBits(data[0]) + Bits(data[1..])
  }

  /** The bit at position `i`; past the end the bits are zero. */
  function Bit(bits: seq<bool>, i: nat): int {
    if i < |bits| && bits[i] then 1 else 0
  }

  /** The number of the first six bits, with zero bits added on the right when there are fewer. */
  function SixBits(bits: seq<bool>): Sextet {
    32 * Bit(bits, 0) + 16 * Bit(bits, 1) + 8 * Bit(bits, 2) + 4 * Bit(bits, 3) + 2 * Bit(bits, 4) + Bit(bits, 5)
  }

  function SixBitGroups(bits: seq<bool>): seq<Sextet>
    decreases |bits|
  {
    if |bits| == 0 then []
    else if |bits| <= 6 then [SixBits(bits)]
    else [SixBits(bits)] + SixBitGroups(bits[6..])
  }

  function Digits(groups: seq<Sextet>): (text: seq<Byte>)
    ensures |text| == |groups|
    ensures forall i :: 0 <= i < |groups| ==> text[i] == Digit(groups[i])
  {
    if |groups| == 0 then [] else [Digit(groups[0])] + Digits(groups[1..])
  }

  function Pads(n: nat): (text: seq<Byte>)
    ensures |text| == n && forall i :: 0 <= i < n ==> text[i] == PAD
  {
    if n == 0 then [] else [PAD] + Pads(n - 1)
  }

  /** Six bits a digit, padded with '=' to a multiple of four digits. */
  function RfcEncode(data: seq<Byte>): seq<Byte> {
    var groups := SixBitGroups(Bits(data));
    Digits(groups) + Pads((4 - |groups| % 4) % 4)
  }

  // ---- the byte-group form ----

  /** The sextets of one group of up to three bytes. */
  function GroupSextets(data: seq<Byte>): seq<Sextet>
    requires 0 < |data|
  {
    if |data| == 1 then [data[0] / 4, data[0] % 4 * 16]
    else if |data| == 2 then [data[0] / 4, data[0] % 4 * 16 + data[1] / 16, data[1] % 16 * 4]
    else [data[0] / 4, data[0] % 4 * 16 + data[1] / 16, data[1] % 16 * 4 + data[2] / 64, data[2] % 64]
  }

  function Sextets(data: seq<Byte>): seq<Sextet> {
    if |data| == 0 then []
    else if |data| <= 3 then GroupSextets(data)
    else GroupSextets(data[..3]) + Sextets(data[3..])
  }

  /** The digits of one group and its padding. */
  function EncodeGroup(data: seq<Byte>): (text: seq<Byte>)
    requires 0 < |data| <= 3
  {
    Digits(GroupSextets(data)) + Pads(3 - |data|)
  }

  function Encode(data: seq<Byte>): (text: seq<Byte>) {
    if |data| == 0 then []
    else if |data| <= 3 then EncodeGroup(data)
    else EncodeGroup(data[..3]) + Encode(data[3..])
  }

  function Byte0(a: Sextet, b: Sextet): Byte {
    4 * (a as int) + b / 16
  }

  function Byte1(b: Sextet, c: Sextet): Byte {
    16 * (b as int % 16) + c / 4
  }

  function Byte2(c: Sextet, d: Sextet): Byte {
    64 * (c as int % 4) + d
  }

  /** The bytes of a run of sextets; what is left over after the last whole byte is dropped. */
  function Unpack(v: seq<Sextet>): seq<Byte>
    decreases |v|
  {
    if |v| <= 1 then []
    else if |v| == 2 then [Byte0(v[0], v[1])]
    else if |v| == 3 then [Byte0(v[0], v[1]), Byte1(v[1], v[2])]
    else [Byte0(v[0], v[1]), Byte1(v[1], v[2]), Byte2(v[2], v[3])] + Unpack(v[4..])
  }

  /** The values of the digits before the first '=', or nothing when another byte comes first. */
  function Values(text: seq<Byte>): Option<seq<Sextet>> {
    if |text| == 0 || text[0] == PAD then Some([])
    else
      match (DigitValue(text[0]), Values(text[1..]))
      case (Some(v), Some(rest)) => Some([v] + rest)
      case _ => None
  }

  // ---- the byte-group form is the standard ----

  lemma HalvesAddUp(b: int, b1: int, b2: int, b3: int, b4: int, b5: int, b6: int)
    requires b1 == b / 2 && b2 == b1 / 2 && b3 == b2 / 2 && b4 == b3 / 2 && b5 == b4 / 2 && b6 == b5 / 2
    ensures b / 4 == b2 && b / 16 == b4 && b / 64 == b6
    ensures b % 4 == 2 * (b1 % 2) + b % 2
    ensures b % 16 == 8 * (b3 % 2) + 4 * (b2 % 2) + b % 4
    ensures b % 64 == 32 * (b5 % 2) + 16 * (b4 % 2) + b % 16
    ensures b2 == 16 * b6 + 8 * (b5 % 2) + 4 * (b4 % 2) + 2 * (b3 % 2) + b2 % 2
    ensures b4 == 4 * b6 + 2 * (b5 % 2) + b4 % 2
  {
  }

  lemma BitsAreHalves(b: Byte, b1: int, b2: int, b3: int, b4: int, b5: int, b6: int)
    requires b1 == b / 2 && b2 == b1 / 2 && b3 == b2 / 2 && b4 == b3 / 2 && b5 == b4 / 2 && b6 == b5 / 2
    ensures var s := ByteBits(b);
      && Bit(s, 0) == b6 / 2 && Bit(s, 1) == b6 % 2 && Bit(s, 2) == b5 % 2 && Bit(s, 3) == b4 % 2
      && Bit(s, 4) == b3 % 2 && Bit(s, 5) == b2 % 2 && Bit(s, 6) == b1 % 2 && Bit(s, 7) == b % 2
  {
  }

  /** A byte cut after its second, fourth and sixth bit. */
  lemma ByteCuts(b: Byte)
    ensures var s := ByteBits(b);
      && b / 4 == 32 * Bit(s, 0) + 16 * Bit(s, 1) + 8 * Bit(s, 2) + 4 * Bit(s, 3) + 2 * Bit(s, 4) + Bit(s, 5)
      && b % 4 == 2 * Bit(s, 6) + Bit(s, 7)
      && b / 16 == 8 * Bit(s, 0) + 4 * Bit(s, 1) + 2 * Bit(s, 2) + Bit(s, 3)
      && b % 16 == 8 * Bit(s, 4) + 4 * Bit(s, 5) + 2 * Bit(s, 6) + Bit(s, 7)
      && b / 64 == 2 * Bit(s, 0) + Bit(s, 1)
      && b % 64 == 32 * Bit(s, 2) + 16 * Bit(s, 3) + 8 * Bit(s, 4) + 4 * Bit(s, 5) + 2 * Bit(s, 6) + Bit(s, 7)
  {
    hide *;
    var b1 := b / 2;
    var b2 := b1 / 2;
    var b3 := b2 / 2;
    var b4 := b3 / 2;
    var b5 := b4 / 2;
    var b6 := b5 / 2;
    BitsAreHalves(b, b1, b2, b3, b4, b5, b6);
    HalvesAddUp(b, b1, b2, b3, b4, b5, b6);
  }

  lemma BitsOfGroup(data: seq<Byte>)
    requires 0 < |data| <= 3
    ensures |data| == 1 ==> Bits(data) == ByteBits(data[0])
    ensures |data| == 2 ==> Bits(data) == ByteBits(data[0]) + ByteBits(data[1])
    ensures |data| == 3 ==> Bits(data) == ByteBits(data[0]) + ByteBits(data[1]) + ByteBits(data[2])
  {
    if |data| > 1 {
      assert data[1..][0] == data[1];
      if |data| > 2 {
        assert data[1..][1..] == [data[2]];
      }
    }
  }

  /** The groups of up to 24 bits, one by one. */
  lemma UnrollGroups(bits: seq<bool>)
    requires |bits| == 8 || |bits| == 16 || |bits| == 24
    ensures |bits| == 8 ==> SixBitGroups(bits) == [SixBits(bits), SixBits(bits[6..])]
    ensures |bits| == 16 ==> SixBitGroups(bits) == [SixBits(bits), SixBits(bits[6..]), SixBits(bits[12..])]
    ensures |bits| == 24 ==>
      SixBitGroups(bits) == [SixBits(bits), SixBits(bits[6..]), SixBits(bits[12..]), SixBits(bits[18..])]
  {
    if |bits| > 8 {
      assert bits[6..][6..] == bits[12..];
      assert SixBitGroups(bits[6..]) == [SixBits(bits[6..])] + SixBitGroups(bits[12..]);
      if |bits| > 16 {
        assert bits[12..][6..] == bits[18..];
        assert SixBitGroups(bits[12..]) == [SixBits(bits[12..])] + SixBitGroups(bits[18..]);
      }
    }
  }

  lemma SixBitsFrom(bits: seq<bool>, n: nat)
    requires n <= |bits|
    ensures SixBits(bits[n..]) == 32 * Bit(bits, n) + 16 * Bit(bits, n + 1) + 8 * Bit(bits, n + 2)
                                + 4 * Bit(bits, n + 3) + 2 * Bit(bits, n + 4) + Bit(bits, n + 5)
  {
    assert forall i: nat :: Bit(bits[n..], i) == Bit(bits, n + i);
  }

  lemma BitOfThreeBytes(s0: seq<bool>, s1: seq<bool>, s2: seq<bool>, i: nat)
    requires |s0| == |s1| == |s2| == 8 && i < 8
    ensures var bits := s0 + s1 + s2;
            Bit(bits, i) == Bit(s0, i) && Bit(bits, 8 + i) == Bit(s1, i) && Bit(bits, 16 + i) == Bit(s2, i)
  {
  }

  lemma BitsOfThreeBytes(s0: seq<bool>, s1: seq<bool>, s2: seq<bool>)
    requires |s0| == |s1| == |s2| == 8
    ensures var b := s0 + s1 + s2;
      && Bit(b, 0) == Bit(s0, 0) && Bit(b, 1) == Bit(s0, 1) && Bit(b, 2) == Bit(s0, 2) && Bit(b, 3) == Bit(s0, 3)
      && Bit(b, 4) == Bit(s0, 4) && Bit(b, 5) == Bit(s0, 5) && Bit(b, 6) == Bit(s0, 6) && Bit(b, 7) == Bit(s0, 7)
      && Bit(b, 8) == Bit(s1, 0) && Bit(b, 9) == Bit(s1, 1) && Bit(b, 10) == Bit(s1, 2) && Bit(b, 11) == Bit(s1, 3)
      && Bit(b, 12) == Bit(s1, 4) && Bit(b, 13) == Bit(s1, 5) && Bit(b, 14) == Bit(s1, 6) && Bit(b, 15) == Bit(s1, 7)
      && Bit(b, 16) == Bit(s2, 0) && Bit(b, 17) == Bit(s2, 1) && Bit(b, 18) == Bit(s2, 2) && Bit(b, 19) == Bit(s2, 3)
      && Bit(b, 20) == Bit(s2, 4) && Bit(b, 21) == Bit(s2, 5) && Bit(b, 22) == Bit(s2, 6) && Bit(b, 23) == Bit(s2, 7)
  {
    hide Bit;
    forall i: nat | i < 8
      ensures Bit(s0 + s1 + s2, i) == Bit(s0, i)
           && Bit(s0 + s1 + s2, 8 + i) == Bit(s1, i) && Bit(s0 + s1 + s2, 16 + i) == Bit(s2, i)
    {
      BitOfThreeBytes(s0, s1, s2, i);
    }
    assert forall i: nat {:trigger Bit(s1, i)} :: i < 8 ==> Bit(s0 + s1 + s2, 8 + i) == Bit(s1, i);
    assert forall i: nat {:trigger Bit(s2, i)} :: i < 8 ==> Bit(s0 + s1 + s2, 16 + i) == Bit(s2, i);
  }

  /** Where the bits of three bytes land in four groups of six. */
  lemma GroupsOfThreeBytes(d0: Byte, d1: Byte, d2: Byte)
    ensures var bits := ByteBits(d0) + ByteBits(d1) + ByteBits(d2);
      && SixBits(bits) == d0 / 4
      && SixBits(bits[6..]) == d0 % 4 * 16 + d1 / 16
      && SixBits(bits[12..]) == d1 % 16 * 4 + d2 / 64
      && SixBits(bits[18..]) == d2 % 64
  {
    var s0, s1, s2 := ByteBits(d0), ByteBits(d1), ByteBits(d2);
    var bits := s0 + s1 + s2;
    assert bits[0..] == bits;
    hide ByteBits, SixBits, Bit;
    BitsOfThreeBytes(s0, s1, s2);
    SixBitsFrom(bits, 0);
    SixBitsFrom(bits, 6);
    SixBitsFrom(bits, 12);
    SixBitsFrom(bits, 18);
    ByteCuts(d0);
    ByteCuts(d1);
    ByteCuts(d2);
  }

  /** Missing bytes count as zero bits. */
  lemma ZeroBitsOnTheRight(bits: seq<bool>, zeros: seq<bool>)
    requires forall i :: 0 <= i < |zeros| ==> !zeros[i]
    ensures SixBits(bits + zeros) == SixBits(bits)
  {
    assert forall i: nat :: Bit(bits + zeros, i) == Bit(bits, i);
  }

  /** The bits of a group followed by the zero bits of the missing bytes. */
  lemma GroupWithZeros(data: seq<Byte>, d1: Byte, d2: Byte) returns (zeros: seq<bool>)
    requires 0 < |data| <= 3
    requires d1 == (if |data| > 1 then data[1] else 0) && d2 == (if |data| > 2 then data[2] else 0)
    ensures ByteBits(data[0]) + ByteBits(d1) + ByteBits(d2) == Bits(data) + zeros
    ensures forall i :: 0 <= i < |zeros| ==> !zeros[i]
  {
    BitsOfGroup(data);
    assert forall i :: 0 <= i < 8 ==> !ByteBits(0)[i];
    hide ByteBits;
    zeros := if |data| == 1 then ByteBits(0) + ByteBits(0) else if |data| == 2 then ByteBits(0) else [];
  }

  /** The six-bit pieces of a group, its missing bytes read as zero. */
  lemma PiecesOfOneGroup(data: seq<Byte>, d1: Byte, d2: Byte)
    requires 0 < |data| <= 3
    requires d1 == (if |data| > 1 then data[1] else 0) && d2 == (if |data| > 2 then data[2] else 0)
    ensures var bits := Bits(data);
      && |bits| == 8 * |data|
      && SixBits(bits) == data[0] / 4
      && SixBits(bits[6..]) == data[0] % 4 * 16 + d1 / 16
      && (|data| > 1 ==> SixBits(bits[12..]) == d1 % 16 * 4 + d2 / 64)
      && (|data| > 2 ==> SixBits(bits[18..]) == d2 % 64)
  {
    var bits := Bits(data);
    var zeros := GroupWithZeros(data, d1, d2);
    BitsOfGroup(data);
    GroupsOfThreeBytes(data[0], d1, d2);
    hide ByteBits, Bits, SixBits;
    ZeroBitsOnTheRight(bits, zeros);
    DroppedWithZeros(bits, zeros, 6);
    if |data| > 1 {
      DroppedWithZeros(bits, zeros, 12);
    }
    if |data| > 2 {
      DroppedWithZeros(bits, zeros, 18);
    }
  }

  /** The sextets of a group, its missing bytes read as zero. */
  lemma SextetsWithZeros(data: seq<Byte>, d1: Byte, d2: Byte)
    requires 0 < |data| <= 3
    requires d1 == (if |data| > 1 then data[1] else 0) && d2 == (if |data| > 2 then data[2] else 0)
    ensures var g := GroupSextets(data);
      && |g| == |data| + 1
      && g[0] == data[0] / 4
      && g[1] == data[0] % 4 * 16 + d1 / 16
      && (|data| > 1 ==> g[2] == d1 % 16 * 4 + d2 / 64)
      && (|data| > 2 ==> g[3] == d2 % 64)
  {
  }

  lemma SameFirstFour(x: seq<Sextet>, y: seq<Sextet>)
    requires 2 <= |x| == |y| <= 4
    requires x[0] == y[0] && x[1] == y[1] && (|x| > 2 ==> x[2] == y[2]) && (|x| > 3 ==> x[3] == y[3])
    ensures x == y
  {
  }

  lemma PiecesAreSextets(data: seq<Byte>)
    requires 0 < |data| <= 3
    ensures var bits, g := Bits(data), GroupSextets(data);
      && |bits| == 8 * |data| && |g| == |data| + 1
      && SixBits(bits) == g[0] && SixBits(bits[6..]) == g[1]
      && (|data| > 1 ==> SixBits(bits[12..]) == g[2])
      && (|data| > 2 ==> SixBits(bits[18..]) == g[3])
  {
    var d1: Byte := if |data| > 1 then data[1] else 0;
    var d2: Byte := if |data| > 2 then data[2] else 0;
    PiecesOfOneGroup(data, d1, d2);
    SextetsWithZeros(data, d1, d2);
    hide Bits, SixBits, GroupSextets;
  }

  lemma GroupsOfOneGroup(data: seq<Byte>)
    requires 0 < |data| <= 3
    ensures SixBitGroups(Bits(data)) == GroupSextets(data)
  {
    hide Bits, SixBits, SixBitGroups, GroupSextets;
    PiecesAreSextets(data);
    UnrollGroups(Bits(data));
    SameFirstFour(SixBitGroups(Bits(data)), GroupSextets(data));
  }

  lemma DroppedWithZeros(bits: seq<bool>, zeros: seq<bool>, n: nat)
    requires n <= |bits| && forall i :: 0 <= i < |zeros| ==> !zeros[i]
    ensures SixBits((bits + zeros)[n..]) == SixBits(bits[n..])
  {
    assert (bits + zeros)[n..] == bits[n..] + zeros;
    ZeroBitsOnTheRight(bits[n..], zeros);
  }

  lemma {:induction false} BitsConcat(x: seq<Byte>, y: seq<Byte>)
    ensures Bits(x + y) == Bits(x) + Bits(y)
  {
    hide ByteBits;
    if |x| == 0 {
      assert x + y == y;
    } else {
      BitsConcat(x[1..], y);
      assert (x + y)[1..] == x[1..] + y;
      ConcatAssoc(ByteBits(x[0]), Bits(x[1..]), Bits(y));
    }
  }

  lemma {:induction false} GroupsConcat(x: seq<bool>, y: seq<bool>)
    requires |x| % 6 == 0
    ensures SixBitGroups(x + y) == SixBitGroups(x) + SixBitGroups(y)
    decreases |x|
  {
    if |x| == 0 {
      assert x + y == y;
    } else {
      GroupsConcat(x[6..], y);
      SixBitsOfPrefix(x, y);
      FirstGroup(x);
      FirstGroup(x + y);
      hide SixBitGroups, SixBits;
      assert (x + y)[6..] == x[6..] + y;
      ConcatAssoc([SixBits(x)], SixBitGroups(x[6..]), SixBitGroups(y));
    }
  }

  lemma FirstGroup(bits: seq<bool>)
    requires |bits| >= 6
    ensures SixBitGroups(bits) == [SixBits(bits)] + SixBitGroups(bits[6..])
  {
    hide SixBits;
    assert |bits| == 6 ==> bits[6..] == [];
  }

  lemma SixBitsOfPrefix(x: seq<bool>, y: seq<bool>)
    requires |x| >= 6
    ensures SixBits(x + y) == SixBits(x)
  {
    assert forall i: nat :: i < 6 ==> Bit(x + y, i) == Bit(x, i);
  }

  lemma {:induction false} GroupsOfBytes(data: seq<Byte>)
    ensures SixBitGroups(Bits(data)) == Sextets(data)
  {
    if |data| > 3 {
      var x, y := data[..3], data[3..];
      assert data == x + y;
      BitsConcat(x, y);
      BitsOfGroup(x);
      GroupsConcat(Bits(x), Bits(y));
      GroupsOfOneGroup(x);
      GroupsOfBytes(y);
    } else if |data| > 0 {
      GroupsOfOneGroup(data);
    }
  }

  lemma {:induction false} SextetCount(data: seq<Byte>)
    ensures |Sextets(data)| == 4 * (|data| / 3) + (if |data| % 3 == 0 then 0 else |data| % 3 + 1)
  {
    if |data| > 3 {
      SextetCount(data[3..]);
    }
  }

  lemma {:induction false} DigitsConcat(x: seq<Sextet>, y: seq<Sextet>)
    ensures Digits(x + y) == Digits(x) + Digits(y)
  {
    assert |Digits(x + y)| == |Digits(x) + Digits(y)|;
    forall i | 0 <= i < |x + y|
      ensures Digits(x + y)[i] == (Digits(x) + Digits(y))[i]
    {
    }
  }

  /** The padding completes the last group of four, whichever end it is counted from. */
  lemma PadCount(bytes: nat, sextets: nat)
    requires sextets == 4 * (bytes / 3) + (if bytes % 3 == 0 then 0 else bytes % 3 + 1)
    ensures (4 - sextets % 4) % 4 == (3 - bytes % 3) % 3
    ensures sextets + (3 - bytes % 3) % 3 == (bytes + 2) / 3 * 4
  {
    var q, r := bytes / 3, bytes % 3;
    DivModUnique(sextets, q, if r == 0 then 0 else r + 1, 4);
    DivModUnique(bytes + 2, if r == 0 then q else q + 1, if r == 0 then 2 else r - 1, 3);
  }

  /** The digits of all groups, then the padding of the last one. */
  lemma {:induction false} EncodeIsDigitsThenPads(data: seq<Byte>)
    ensures Encode(data) == Digits(Sextets(data)) + Pads((3 - |data| % 3) % 3)
  {
    if |data| > 3 {
      var x, y := data[..3], data[3..];
      EncodeIsDigitsThenPads(y);
      DivModUnique(|data|, |y| / 3 + 1, |y| % 3, 3);
      FirstGroupOfBytes(data);
      WholeGroup(x);
      hide GroupSextets, Digits, Pads, EncodeGroup, Encode, Sextets;
      DigitsConcat(GroupSextets(x), Sextets(y));
      ConcatAssoc(EncodeGroup(x), Digits(Sextets(y)), Pads((3 - |data| % 3) % 3));
    } else if |data| > 0 {
      hide GroupSextets, Digits, Pads;
      assert |data| == 1 || |data| == 2 || |data| == 3;
    }
  }

  lemma FirstGroupOfBytes(data: seq<Byte>)
    requires |data| > 3
    ensures Encode(data) == EncodeGroup(data[..3]) + Encode(data[3..])
    ensures Sextets(data) == GroupSextets(data[..3]) + Sextets(data[3..])
  {
    hide GroupSextets, EncodeGroup;
  }

  lemma WholeGroup(x: seq<Byte>)
    requires |x| == 3
    ensures EncodeGroup(x) == Digits(GroupSextets(x))
  {
    hide GroupSextets, Digits;
    assert Pads(0) == [];
  }

  /** The byte-group form is the standard's encoding, for every byte string. */
  lemma EncodeIsRfc4648(data: seq<Byte>)
    ensures Encode(data) == RfcEncode(data)
  {
    hide Encode, Sextets, SixBitGroups, Bits, Digits, Pads;
    GroupsOfBytes(data);
    SextetCount(data);
    PadCount(|data|, |Sextets(data)|);
    EncodeIsDigitsThenPads(data);
  }

  // ---- decoding inverts encoding ----

  lemma {:induction false} UnpackInvertsSextets(data: seq<Byte>)
    ensures Unpack(Sextets(data)) == data
  {
    hide GroupSextets, Unpack;
    assert Unpack([]) == [] by { UnpackNothing(); }
    if |data| > 3 {
      var x, y := data[..3], data[3..];
      UnpackInvertsSextets(y);
      UnpackGroup(x, Sextets(y));
      assert data == x + y;
    } else if |data| == 3 {
      UnpackGroup(data, []);
      assert GroupSextets(data) + [] == GroupSextets(data);
    } else if |data| > 0 {
      UnpackShortGroup(data);
    }
  }

  lemma UnpackNothing()
    ensures Unpack([]) == []
  {
  }

  lemma UnpackShortGroup(data: seq<Byte>)
    requires |data| == 1 || |data| == 2
    ensures Unpack(GroupSextets(data)) == data
  {
    DivModUnique(data[0] % 4 * 16, data[0] % 4, 0, 16);
    if |data| == 2 {
      DivModUnique(data[0] % 4 * 16 + data[1] / 16, data[0] % 4, data[1] / 16, 16);
      DivModUnique(data[1] % 16 * 4, data[1] % 16, 0, 4);
    }
  }

  lemma UnpackGroup(x: seq<Byte>, rest: seq<Sextet>)
    requires |x| == 3
    ensures Unpack(GroupSextets(x) + rest) == x + Unpack(rest)
  {
    var v := GroupSextets(x) + rest;
    assert v[4..] == rest;
    assert v[0] == x[0] / 4 && v[1] == x[0] % 4 * 16 + x[1] / 16;
    assert v[2] == x[1] % 16 * 4 + x[2] / 64 && v[3] == x[2] % 64;
    assert Byte0(v[0], v[1]) == x[0] && Byte1(v[1], v[2]) == x[1] && Byte2(v[2], v[3]) == x[2];
  }

  /** Whole groups of sextets are the sextets of the bytes they make. */
  lemma {:induction false} SextetsOfUnpack(v: seq<Sextet>)
    requires |v| % 4 == 0
    ensures Sextets(Unpack(v)) == v && |Unpack(v)| == |v| / 4 * 3
    decreases |v|
  {
    if |v| >= 4 {
      SextetsOfUnpack(v[4..]);
      var x := [Byte0(v[0], v[1]), Byte1(v[1], v[2]), Byte2(v[2], v[3])];
      var rest := Unpack(v[4..]);
      assert Unpack(v) == x + rest;
      GroupOfFourSextets(v[0], v[1], v[2], v[3]);
      assert v == v[..4] + v[4..] && v[..4] == [v[0], v[1], v[2], v[3]];
      hide GroupSextets, Byte0, Byte1, Byte2;
      if |rest| == 0 {
        assert x + rest == x;
      } else {
        assert (x + rest)[..3] == x && (x + rest)[3..] == rest;
      }
    }
  }

  lemma GroupOfFourSextets(v0: Sextet, v1: Sextet, v2: Sextet, v3: Sextet)
    ensures GroupSextets([Byte0(v0, v1), Byte1(v1, v2), Byte2(v2, v3)]) == [v0, v1, v2, v3]
  {
    DivModUnique(Byte0(v0, v1), v0, v1 / 16, 4);
    DivModUnique(Byte1(v1, v2), v1 % 16, v2 / 4, 16);
    DivModUnique(Byte2(v2, v3), v2 % 4, v3, 64);
    hide Byte0, Byte1, Byte2;
    var g := GroupSextets([Byte0(v0, v1), Byte1(v1, v2), Byte2(v2, v3)]);
    assert g[0] == v0 && g[3] == v3;
    assert g[1] == v1;
    assert g[2] == v2;
  }

  lemma {:induction false} ValuesOfDigits(v: seq<Sextet>, tail: seq<Byte>)
    requires |tail| == 0 || tail[0] == PAD
    ensures Values(Digits(v) + tail) == Some(v)
  {
    if |v| == 0 {
      assert Digits(v) + tail == tail;
    } else {
      ValuesOfDigits(v[1..], tail);
      DigitsAreDistinct(v[0]);
      assert (Digits(v) + tail)[1..] == Digits(v[1..]) + tail;
      assert [v[0]] + v[1..] == v;
    }
  }

  lemma ValuesOfEncoding(data: seq<Byte>)
    ensures Values(Encode(data)) == Some(Sextets(data))
  {
    EncodeIsDigitsThenPads(data);
    ValuesOfDigits(Sextets(data), Pads((3 - |data| % 3) % 3));
  }

  predicate IsDigit(c: Byte) {
    DigitValue(c).Some?
  }

  /** The shape of canonical text: whole groups of digits, with '=' at the last one or two places only. */
  lemma EncodingShape(data: seq<Byte>)
    ensures var text := Encode(data);
      && |text| == (|data| + 2) / 3 * 4
      && |Sextets(data)| + (3 - |data| % 3) % 3 == |text|
      && (forall i :: 0 <= i < |Sextets(data)| ==> IsDigit(text[i]))
      && (forall i :: |Sextets(data)| <= i < |text| ==> text[i] == PAD)
  {
    hide Encode, Sextets, DigitValue, Digit;
    EncodeIsDigitsThenPads(data);
    SextetCount(data);
    PadCount(|data|, |Sextets(data)|);
    var v := Sextets(data);
    forall i | 0 <= i < |v|
      ensures IsDigit(Encode(data)[i])
    {
      DigitsAreDistinct(v[i]);
    }
  }
}
