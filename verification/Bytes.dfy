/** The failure datatypes shared by the models: Rust's `Option` and `Result`. */
module Wrappers {
  datatype Option<+T> = None | Some(value: T) {
    function UnwrapOr(default: T): T {
      if Some? then value else default
    }
  }

  datatype Result<+T, +E> = Ok(value: T) | Err(error: E)
}

/** Bytes, byte strings and the fixed-width big- and little-endian integers of the wire formats. */
module Bytes {
  type Byte = x: int | 0 <= x < 256

  type u32 = x: int | 0 <= x < 0x1_0000_0000
  type u64 = x: int | 0 <= x < 0x1_0000_0000_0000_0000
  type i64 = x: int | -0x8000_0000_0000_0000 <= x < 0x8000_0000_0000_0000

  function Pow256(n: nat): (p: nat)
    ensures p > 0
  {
    if n == 0 then 1 else 256 * Pow256(n - 1)
  }

  lemma WordSizes()
    ensures Pow256(2) == 0x1_0000 && Pow256(4) == 0x1_0000_0000 && Pow256(8) == 0x1_0000_0000_0000_0000
  {
    assert Pow256(1) == 256;
    assert Pow256(2) == 256 * Pow256(1);
    assert Pow256(3) == 256 * Pow256(2);
    assert Pow256(4) == 256 * Pow256(3);
    assert Pow256(5) == 256 * Pow256(4);
    assert Pow256(6) == 256 * Pow256(5);
    assert Pow256(7) == 256 * Pow256(6);
    assert Pow256(8) == 256 * Pow256(7);
  }

  /** The number a byte string denotes, most significant byte first. */
  function BeValue(s: seq<Byte>): nat {
    if |s| == 0 then 0 else 256 * BeValue(s[..|s| - 1]) + s[|s| - 1]
  }

  /** The low `width` bytes of `v`, most significant byte first (`to_be_bytes`). */
  function BeBytes(v: nat, width: nat): (s: seq<Byte>)
    ensures |s| == width
  {
    if width == 0 then [] else BeBytes(v / 256, width - 1) + [v % 256]
  }

  lemma {:induction false} BeValueBound(s: seq<Byte>)
    ensures BeValue(s) < Pow256(|s|)
  {
    if |s| > 0 {
      BeValueBound(s[..|s| - 1]);
    }
  }

  lemma {:induction false} BeBytesOfValue(s: seq<Byte>, width: nat)
    requires |s| == width
    ensures BeBytes(BeValue(s), width) == s
  {
    if width > 0 {
      var front := s[..width - 1];
      BeBytesOfValue(front, width - 1);
      assert s == front + [s[width - 1]];
    }
  }

  lemma {:induction false} BeValueOfBytes(v: nat, width: nat)
    requires v < Pow256(width)
    ensures BeValue(BeBytes(v, width)) == v
  {
    if width > 0 {
      BeValueOfBytes(v / 256, width - 1);
      assert BeBytes(v, width)[..width - 1] == BeBytes(v / 256, width - 1);
    }
  }

  /** Appending one byte, in Horner's form. */
  lemma Horner(s: seq<Byte>, k: nat)
    requires k < |s|
    ensures BeValue(s[..k + 1]) == 256 * BeValue(s[..k]) + s[k]
  {
    assert s[..k + 1][..k] == s[..k];
  }

  lemma FourBytes(s: seq<Byte>, k: nat)
    requires k + 4 <= |s|
    ensures BeValue(s[..k + 4]) == 0x1_0000_0000 * BeValue(s[..k])
                                 + 0x1_00_0000 * (s[k] as int) + 0x1_0000 * (s[k + 1] as int)
                                 + 0x1_00 * (s[k + 2] as int) + s[k + 3]
  {
    Horner(s, k);
    Horner(s, k + 1);
    Horner(s, k + 2);
    Horner(s, k + 3);
  }

  // ---- words written out ----

  /** The number of two, four or eight bytes, first byte first. */
  function Word2(s: seq<Byte>): nat
    requires |s| == 2
  {
    0x100 * (s[0] as int) + s[1]
  }

  function Word4(s: seq<Byte>): nat
    requires |s| == 4
  {
    0x100_0000 * (s[0] as int) + 0x1_0000 * (s[1] as int) + 0x100 * (s[2] as int) + s[3]
  }

  function Word8(s: seq<Byte>): u64
    requires |s| == 8
  {
    0x1_0000_0000 * Word4(s[..4]) + Word4(s[4..])
  }

  /** The number of four bytes, last byte first. */
  function LittleWord4(s: seq<Byte>): nat
    requires |s| == 4
  {
    s[0] + 0x100 * (s[1] as int) + 0x1_0000 * (s[2] as int) + 0x100_0000 * (s[3] as int)
  }

  lemma BeWord2(s: seq<Byte>)
    requires |s| == 2
    ensures BeValue(s) == Word2(s)
  {
    Horner(s, 0);
    Horner(s, 1);
    assert s[..2] == s;
  }

  lemma BeWord4(s: seq<Byte>)
    requires |s| == 4
    ensures BeValue(s) == Word4(s)
  {
    FourBytes(s, 0);
    assert s[..4] == s && s[..0] == [];
  }

  lemma BeWord8(s: seq<Byte>)
    requires |s| == 8
    ensures BeValue(s) == Word8(s)
  {
    assert s == s[..4] + s[4..];
    BeValueConcat(s[..4], s[4..]);
    BeWord4(s[..4]);
    BeWord4(s[4..]);
    hide BeValue, Word4;
    WordSizes();
  }

  lemma LeWord4(s: seq<Byte>)
    requires |s| == 4
    ensures LeValue(s) == LittleWord4(s)
  {
    assert s[1..][1..] == s[2..] && s[2..][1..] == s[3..] && s[3..][1..] == [];
    assert LeValue(s[3..]) == s[3] + 256 * LeValue([]);
    assert LeValue(s[2..]) == s[2] + 256 * LeValue(s[3..]);
    assert LeValue(s[1..]) == s[1] + 256 * LeValue(s[2..]);
  }

  /** The bytes of a word are the bytes whose number it is. */
  lemma BytesOfWord8(v: u64)
    ensures Word8(BeBytes(v, 8)) == v
  {
    WordSizes();
    BeValueOfBytes(v, 8);
    BeWord8(BeBytes(v, 8));
  }

  // ---- text ----

  predicate IsAscii(s: string) {
    forall i :: 0 <= i < |s| ==> s[i] as int < 128
  }

  /** The bytes of an ASCII text. */
  function Ascii(s: string): (bytes: seq<Byte>)
    requires IsAscii(s)
    ensures |bytes| == |s| && forall i :: 0 <= i < |s| ==> bytes[i] == s[i] as int
  {
    seq(|s|, i requires 0 <= i < |s| => s[i] as int)
  }

  // ---- little-endian ----

  /** The number a byte string denotes, least significant byte first. */
  function LeValue(s: seq<Byte>): nat {
    if |s| == 0 then 0 else s[0] + 256 * LeValue(s[1..])
  }

  /** The low `width` bytes of `v`, least significant byte first (`to_le_bytes`). */
  function LeBytes(v: nat, width: nat): (s: seq<Byte>)
    ensures |s| == width
  {
    if width == 0 then [] else [v % 256] + LeBytes(v / 256, width - 1)
  }

  lemma LowByte(x: Byte, v: nat)
    ensures (x + 256 * v) % 256 == x && (x + 256 * v) / 256 == v
  {
  }

  lemma {:induction false} LeBytesOfValue(s: seq<Byte>, width: nat)
    requires |s| == width
    ensures LeBytes(LeValue(s), width) == s
  {
    if width > 0 {
      LeBytesOfValue(s[1..], width - 1);
      LowByte(s[0], LeValue(s[1..]));
      hide LeBytes;
      assert s == [s[0]] + s[1..];
    }
  }

  lemma {:induction false} LeValueOfBytes(v: nat, width: nat)
    requires v < Pow256(width)
    ensures LeValue(LeBytes(v, width)) == v
  {
    if width > 0 {
      LeValueOfBytes(v / 256, width - 1);
      assert LeBytes(v, width)[1..] == LeBytes(v / 256, width - 1);
    }
  }

  /** The bit pattern of an `i64` read as a `u64` (`weight as u64`). */
  function AsU64(i: i64): u64 {
    if i < 0 then i + 0x1_0000_0000_0000_0000 else i
  }

  /** The `i64` with the given bit pattern (`i64::from_be_bytes`). */
  function AsI64(u: u64): i64 {
    if u < 0x8000_0000_0000_0000 then u else u - 0x1_0000_0000_0000_0000
  }

  /** Two's complement: equal modulo 2^64. */
  lemma SameModuloTwoTo64(i: i64)
    ensures (AsU64(i) as int - i) % 0x1_0000_0000_0000_0000 == 0 && AsI64(AsU64(i)) == i
  {
  }

  lemma ScaleProduct(c: int, x: int, y: int)
    ensures c * (x * y) == x * (c * y)
  {
  }

  lemma {:induction false} BeValueConcat(s: seq<Byte>, t: seq<Byte>)
    ensures BeValue(s + t) == BeValue(s) * Pow256(|t|) + BeValue(t)
  {
    if |t| == 0 {
      assert s + t == s;
    } else {
      var front := t[..|t| - 1];
      assert (s + t)[..|s + t| - 1] == s + front;
      BeValueConcat(s, front);
      ScaleProduct(256, BeValue(s), Pow256(|front|));
    }
  }

  lemma OneByte(x: Byte)
    ensures BeValue([x]) == x
  {
    assert [x][..0] == [];
    assert BeValue([x]) == 256 * BeValue([x][..0]) + x;
  }

  lemma BeValueCons(x: Byte, s: seq<Byte>)
    ensures BeValue([x] + s) == x * Pow256(|s|) + BeValue(s)
  {
    BeValueConcat([x], s);
    OneByte(x);
  }

  // ---- concatenation ----

  lemma ConcatAssoc<T>(a: seq<T>, b: seq<T>, c: seq<T>)
    ensures (a + b) + c == a + (b + c)
  {
  }

  /** Five fields followed by more bytes. */
  lemma FiveFields(a: seq<Byte>, b: seq<Byte>, c: seq<Byte>, d: seq<Byte>, e: seq<Byte>, tail: seq<Byte>)
    ensures (a + (b + (c + (d + e)))) + tail == a + (b + (c + (d + (e + tail))))
  {
    ConcatAssoc(d, e, tail);
    ConcatAssoc(c, d + e, tail);
    ConcatAssoc(b, c + (d + e), tail);
    ConcatAssoc(a, b + (c + (d + e)), tail);
  }

  /** Pushing five fields one after the other. */
  lemma PushFiveFields(out: seq<Byte>, a: seq<Byte>, b: seq<Byte>, c: seq<Byte>, d: seq<Byte>, e: seq<Byte>)
    ensures out + a + b + c + d + e == out + (a + (b + (c + (d + e))))
  {
    ConcatAssoc(out + a + b + c, d, e);
    ConcatAssoc(out + a + b, c, d + e);
    ConcatAssoc(out + a, b, c + (d + e));
    ConcatAssoc(out, a, b + (c + (d + e)));
  }

  lemma Split(s: seq<Byte>, n: nat)
    requires n <= |s|
    ensures s[..n] + s[n..] == s
  {
  }

  /** Reading back what was put in front. */
  lemma ReadBack(a: seq<Byte>, rest: seq<Byte>)
    ensures (a + rest)[..|a|] == a && (a + rest)[|a|..] == rest
  {
  }

  // ---- quotient and remainder ----

  lemma MulAtLeast(a: int, m: int)
    requires a >= 1 && m >= 0
    ensures a * m >= m
  {
    assert a * m == (a - 1) * m + m;
  }

  /** Quotient and remainder are unique. */
  lemma DivModUnique(x: int, q: int, r: int, m: nat)
    requires 0 <= r < m && x == q * m + r
    ensures x / m == q && x % m == r
  {
    var q', r' := x / m, x % m;
    assert x == q' * m + r';
    assert (q' - q) * m == r - r';
    assert (q - q') * m == r' - r;
    if q' > q {
      MulAtLeast(q' - q, m);
    } else if q > q' {
      MulAtLeast(q - q', m);
    }
  }
}
