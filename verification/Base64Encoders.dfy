/** The independently written encoders; each computes the encoding of RFC 4648. */
module Base64Encoders {
  import opened Bytes
  import opened Base64

  const UPPER: string := "ABCDEFGHIJKLMNOPQRSTUVWXYZ"
  const LOWER: string := "abcdefghijklmnopqrstuvwxyz"
  const NUMERALS: string := "0123456789"
  const TABLE: string := UPPER + LOWER + NUMERALS + "+/"

  lemma LettersInOrder(k: int)
    requires 0 <= k < 26
    ensures |UPPER| == |LOWER| == 26 && UPPER[k] as int == 65 + k && LOWER[k] as int == 97 + k
  {
  }

  /** The alphabet literal is Table 1 of the standard. */
  lemma TableIsTheStandards(v: Sextet)
    ensures |TABLE| == 64 && TABLE[v] as int == Digit(v)
  {
    if v < 26 {
      LettersInOrder(v);
    } else if v < 52 {
      LettersInOrder(v - 26);
    }
  }

  /** The table every encoder indexes. */
  function TableDigit(v: Sextet): (c: Byte)
    ensures c == Digit(v)
  {
    TableIsTheStandards(v);
    TABLE[v] as int
  }

  /** The four characters of a group of one to three bytes; missing bytes are zero. */
  lemma GroupText(chunk: seq<Byte>, b0: Byte, b1: Byte, b2: Byte)
    requires 0 < |chunk| <= 3 && b0 == chunk[0]
    requires b1 == (if |chunk| > 1 then chunk[1] else 0) && b2 == (if |chunk| > 2 then chunk[2] else 0)
    ensures EncodeGroup(chunk) == [Digit(b0 / 4), Digit(b0 % 4 * 16 + b1 / 16),
                                   if |chunk| > 1 then Digit(b1 % 16 * 4 + b2 / 64) else PAD,
                                   if |chunk| > 2 then Digit(b2 % 64) else PAD]
  {
  }

  /** The 24-bit number of three bytes has the four sextets of the group as its base-64 digits. */
  lemma TripleDigits(b0: Byte, b1: Byte, b2: Byte, n: int)
    requires n == 0x1_0000 * (b0 as int) + 0x100 * (b1 as int) + b2
    ensures n / 0x4_0000 == b0 / 4 && n / 0x4_0000 % 64 == b0 / 4
    ensures n / 0x1000 % 64 == b0 % 4 * 16 + b1 / 16
    ensures n / 0x40 % 64 == b1 % 16 * 4 + b2 / 64
    ensures n % 64 == b2 % 64
  {
    var q0, r0 := b0 / 4, b0 % 4;
    var q1, r1 := b1 / 16, b1 % 16;
    var q2, r2 := b2 / 64, b2 % 64;
    assert n == 0x4_0000 * (q0 as int) + 0x1000 * (16 * (r0 as int) + q1) + 0x40 * (4 * (r1 as int) + q2) + r2;
    DivModUnique(n, q0, n - 0x4_0000 * (q0 as int), 0x4_0000);
    DivModUnique(n, 64 * (q0 as int) + 16 * (r0 as int) + q1, 0x40 * (4 * (r1 as int) + q2) + r2, 0x1000);
    DivModUnique(64 * (q0 as int) + 16 * (r0 as int) + q1, q0, 16 * (r0 as int) + q1, 64);
    DivModUnique(n, 64 * (64 * (q0 as int) + 16 * (r0 as int) + q1) + 4 * (r1 as int) + q2, r2, 0x40);
    DivModUnique(n / 0x40, 64 * (q0 as int) + 16 * (r0 as int) + q1, 4 * (r1 as int) + q2, 64);
  }

  /** The next group of what is still to be encoded. */
  function Chunk(data: seq<Byte>, i: nat): (chunk: seq<Byte>)
    requires i < |data|
    ensures 0 < |chunk| <= 3 && i + |chunk| <= |data|
  {
    if i + 3 <= |data| then data[i..i + 3] else data[i..]
  }

  /** Pushing the text of the next group moves the encoding on by one group. */
  lemma GroupPushed(data: seq<Byte>, i: nat, before: seq<Byte>)
    requires i < |data| && before + Encode(data[i..]) == Encode(data)
    ensures before + EncodeGroup(Chunk(data, i)) + Encode(data[i + |Chunk(data, i)|..]) == Encode(data)
  {
    hide EncodeGroup;
    var chunk, rest := Chunk(data, i), data[i + |Chunk(data, i)|..];
    assert Encode(data[i..]) == EncodeGroup(chunk) + Encode(rest) by {
      if i + 3 < |data| {
        assert data[i..][..3] == chunk && data[i..][3..] == rest;
      } else {
        assert data[i..] == chunk && rest == [];
      }
    }
    ConcatAssoc(before, EncodeGroup(chunk), Encode(rest));
  }

  /** A group through a 24-bit accumulator. */
  method TextOfChunk(chunk: seq<Byte>) returns (text: seq<Byte>)
    requires 0 < |chunk| <= 3
    ensures text == EncodeGroup(chunk)
  {
    hide EncodeGroup, Digit, TableDigit;
    var b0 := chunk[0];
    var b1: Byte := if |chunk| > 1 then chunk[1] else 0;
    var b2: Byte := if |chunk| > 2 then chunk[2] else 0;
    var n := 0x1_0000 * (b0 as int) + 0x100 * (b1 as int) + b2;
    TripleDigits(b0, b1, b2, n);
    GroupText(chunk, b0, b1, b2);
    text := [TableDigit(n / 0x4_0000 % 64), TableDigit(n / 0x1000 % 64)];
    text := text + [if |chunk| > 1 then TableDigit(n / 0x40 % 64) else PAD];
    text := text + [if |chunk| > 2 then TableDigit(n % 64) else PAD];
  }

  /** Chunks of three bytes (the library and both polytone examples). */
  method EncodeChunks(data: seq<Byte>) returns (result: seq<Byte>)
    ensures result == Encode(data)
  {
    hide Encode, EncodeGroup;
    EncodeNothing();
    result := [];
    var i := 0;
    assert data[0..] == data && [] + Encode(data) == Encode(data);
    while i < |data|
      invariant 0 <= i <= |data|
      invariant result + Encode(data[i..]) == Encode(data)
    {
      var chunk := Chunk(data, i);
      var text := TextOfChunk(chunk);
      GroupPushed(data, i, result);
      result := result + text;
      i := i + |chunk|;
    }
    assert data[i..] == [];
  }

  /** A group out of shifted and masked bytes; positions past the end of the input read as zero. */
  method TextOfBytes(bytes: seq<Byte>, i: nat) returns (text: seq<Byte>)
    requires i < |bytes|
    ensures text == EncodeGroup(Chunk(bytes, i))
  {
    hide EncodeGroup, Digit, TableDigit;
    var b0 := bytes[i];
    var b1: Byte := if i + 1 < |bytes| then bytes[i + 1] else 0;
    var b2: Byte := if i + 2 < |bytes| then bytes[i + 2] else 0;
    GroupText(Chunk(bytes, i), b0, b1, b2);
    text := [TableDigit(b0 / 4), TableDigit(b0 % 4 * 16 + b1 / 16)];
    text := text + [if i + 1 < |bytes| then TableDigit(b1 % 16 * 4 + b2 / 64) else PAD];
    text := text + [if i + 2 < |bytes| then TableDigit(b2 % 64) else PAD];
  }

  /** Byte by byte (the trustless builder). */
  method EncodeBytes(bytes: seq<Byte>) returns (out: seq<Byte>)
    ensures out == Encode(bytes)
  {
    out := [];
    var i := 0;
    assert bytes[0..] == bytes && [] + Encode(bytes) == Encode(bytes);
    while i < |bytes|
      invariant 0 <= i
      invariant i <= |bytes| ==> out + Encode(bytes[i..]) == Encode(bytes)
      invariant i > |bytes| ==> out == Encode(bytes)
    {
      hide Encode, EncodeGroup;
      var text := TextOfBytes(bytes, i);
      GroupPushed(bytes, i, out);
      out := out + text;
      EncodeNothing();
      assert i + 3 > |bytes| ==> bytes[i + |Chunk(bytes, i)|..] == [];
      i := i + 3;
    }
    EncodeNothing();
    assert i == |bytes| ==> bytes[i..] == [];
  }

  /** "foo", "ba" and "r" become "Zm9v", "YmE=" and "cg==", as in section 10 of RFC 4648. */
  lemma WholeGroupVector()
    ensures Encode([102, 111, 111]) == Ascii("Zm9v")
  {
    GroupText([102, 111, 111], 102, 111, 111);
    hide EncodeGroup;
  }

  lemma OnePadVector()
    ensures Encode([98, 97]) == Ascii("YmE=")
  {
    GroupText([98, 97], 98, 97, 0);
    hide EncodeGroup;
  }

  lemma TwoPadsVector()
    ensures Encode([114]) == Ascii("cg==")
  {
    GroupText([114], 114, 0, 0);
    hide EncodeGroup;
  }

  lemma EncodeNothing()
    ensures Encode([]) == []
  {
  }

  /** A group by the number of bytes left. */
  method TextOfRemainder(b: seq<Byte>, i: nat) returns (text: seq<Byte>)
    requires i < |b|
    ensures text == EncodeGroup(Chunk(b, i))
  {
    hide EncodeGroup, Digit, TableDigit;
    var chunk := Chunk(b, i);
    var b0 := b[i];
    if |b| - i == 1 {
      var x := 0x1_0000 * (b0 as int);
      TripleDigits(b0, 0, 0, x);
      GroupText(chunk, b0, 0, 0);
      text := [TableDigit(x / 0x4_0000), TableDigit(x / 0x1000 % 64), PAD, PAD];
      assert text == EncodeGroup(chunk);
    } else if |b| - i == 2 {
      var b1 := b[i + 1];
      var x := 0x1_0000 * (b0 as int) + 0x100 * (b1 as int);
      TripleDigits(b0, b1, 0, x);
      GroupText(chunk, b0, b1, 0);
      text := [TableDigit(x / 0x4_0000), TableDigit(x / 0x1000 % 64), TableDigit(x / 0x40 % 64), PAD];
      assert text == EncodeGroup(chunk);
    } else {
      var b1, b2 := b[i + 1], b[i + 2];
      text := TextOfThree(b0, b1, b2);
      assert chunk == [b0, b1, b2];
    }
  }

  method TextOfThree(b0: Byte, b1: Byte, b2: Byte) returns (text: seq<Byte>)
    ensures text == EncodeGroup([b0, b1, b2])
  {
    hide EncodeGroup, Digit, TableDigit;
    var x := 0x1_0000 * (b0 as int) + 0x100 * (b1 as int) + b2;
    TripleDigits(b0, b1, b2, x);
    GroupText([b0, b1, b2], b0, b1, b2);
    text := [TableDigit(x / 0x4_0000), TableDigit(x / 0x1000 % 64),
             TableDigit(x / 0x40 % 64), TableDigit(x % 64)];
  }

  /** A match on the number of bytes left, leaving the loop after a short group (the testnet gates). */
  method EncodeByRemainder(b: seq<Byte>) returns (out: seq<Byte>)
    ensures out == Encode(b)
  {
    out := [];
    var i := 0;
    assert b[0..] == b && [] + Encode(b) == Encode(b);
    while i < |b|
      invariant 0 <= i <= |b|
      invariant out + Encode(b[i..]) == Encode(b)
    {
      hide Encode, EncodeGroup;
      EncodeNothing();
      var text := TextOfRemainder(b, i);
      GroupPushed(b, i, out);
      out := out + text;
      if |b| - i < 3 {
        assert b[i + |Chunk(b, i)|..] == [] && out + [] == out;
        return;
      }
      i := i + 3;
    }
    EncodeNothing();
    assert b[i..] == [];
  }
}
