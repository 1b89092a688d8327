/** The independently written decoders, what each makes of any text, and their agreement. */
module Base64Decoders {
  import opened Wrappers
  import opened Bytes
  import opened Base64
  import Base64Encoders

  // ---- text ----

  /** The length in bytes of the Unicode whitespace character that `s` starts with, or 0. */
  function SpaceLength(s: seq<Byte>): (n: nat)
    ensures n <= |s| && n <= 3
  {
    if |s| >= 1 && (9 <= s[0] <= 13 || s[0] == 32) then 1
    else if |s| >= 2 && s[0] == 0xC2 && (s[1] == 0x85 || s[1] == 0xA0) then 2
    else if |s| >= 3 && ((s[0] == 0xE1 && s[1] == 0x9A && s[2] == 0x80)
                      || (s[0] == 0xE2 && s[1] == 0x80 && (0x80 <= s[2] <= 0x8A || s[2] in {0xA8, 0xA9, 0xAF}))
                      || (s[0] == 0xE2 && s[1] == 0x81 && s[2] == 0x9F)
                      || (s[0] == 0xE3 && s[1] == 0x80 && s[2] == 0x80)) then 3
    else 0
  }

  function TrimStart(s: seq<Byte>): seq<Byte>
    decreases |s|
  {
    if SpaceLength(s) == 0 then s else TrimStart(s[SpaceLength(s)..])
  }

  /** Whether the last `n` bytes are one whitespace character. */
  predicate EndsInSpace(s: seq<Byte>, n: nat)
    requires n > 0
  {
    n <= |s| && SpaceLength(s[|s| - n..]) == n
  }

  function TrimEnd(s: seq<Byte>): seq<Byte>
    decreases |s|
  {
    if EndsInSpace(s, 1) then TrimEnd(s[..|s| - 1])
    else if EndsInSpace(s, 2) then TrimEnd(s[..|s| - 2])
    else if EndsInSpace(s, 3) then TrimEnd(s[..|s| - 3])
    else s
  }

  /** `str::trim` on UTF-8 text. */
  function Trim(s: seq<Byte>): seq<Byte> {
    TrimEnd(TrimStart(s))
  }

  predicate IsAsciiSpace(c: Byte) {
    c == 32 || c == 9 || c == 10 || c == 12 || c == 13
  }

  function WithoutSpaces(s: seq<Byte>): seq<Byte> {
    if |s| == 0 then []
    else (if IsAsciiSpace(s[0]) then [] else [s[0]]) + WithoutSpaces(s[1..])
  }

  function WithoutPads(s: seq<Byte>): seq<Byte> {
    if |s| == 0 then []
    else (if s[0] == PAD then [] else [s[0]]) + WithoutPads(s[1..])
  }

  // ---- what trimming and dropping leave ----

  predicate IsSpaceCharacter(c: seq<Byte>) {
    |c| > 0 && SpaceLength(c) == |c|
  }

  /** The UTF-8 bytes of a code point below 2^16. */
  function Utf8(u: nat): seq<Byte>
    requires u < 0x1_0000
  {
    if u < 0x80 then [u]
    else if u < 0x800 then [0xC0 + u / 64, 0x80 + u % 64]
    else [0xE0 + u / 0x1000, 0x80 + u / 64 % 64, 0x80 + u % 64]
  }

  /** The code points with the Unicode property White_Space. */
  predicate IsWhiteSpace(u: nat) {
    || 0x9 <= u <= 0xD || u == 0x20 || u == 0x85 || u == 0xA0 || u == 0x1680 || 0x2000 <= u <= 0x200A
    || u == 0x2028 || u == 0x2029 || u == 0x202F || u == 0x205F || u == 0x3000
  }

  lemma SpaceOfCodePoint(u: nat)
    requires IsWhiteSpace(u)
    ensures u < 0x1_0000 && IsSpaceCharacter(Utf8(u))
  {
  }

  lemma CodePointOfSpace(c: seq<Byte>) returns (u: nat)
    requires IsSpaceCharacter(c)
    ensures IsWhiteSpace(u) && u < 0x1_0000 && c == Utf8(u)
  {
    var first: int := c[0];
    if |c| == 1 {
      u := first;
    } else if |c| == 2 {
      u := 64 * (first - 0xC0) + (c[1] - 0x80);
    } else {
      var second, third := c[1] - 0x80, c[2] - 0x80;
      u := 0x1000 * (first - 0xE0) + 64 * (second as int) + third;
      DivModUnique(u, first - 0xE0, 64 * (second as int) + third, 0x1000);
      DivModUnique(u, 64 * (first - 0xE0) + second, third, 64);
    }
  }

  /** The characters that are trimmed are those with the property White_Space. */
  lemma SpaceCharacters(c: seq<Byte>)
    ensures IsSpaceCharacter(c) <==> exists u: nat :: u < 0x1_0000 && IsWhiteSpace(u) && c == Utf8(u)
  {
    if IsSpaceCharacter(c) {
      var u := CodePointOfSpace(c);
    }
    forall u: nat | u < 0x1_0000 && IsWhiteSpace(u) && c == Utf8(u)
      ensures IsSpaceCharacter(c)
    {
      SpaceOfCodePoint(u);
    }
  }

  function Concat(parts: seq<seq<Byte>>): seq<Byte> {
    if |parts| == 0 then [] else Concat(parts[..|parts| - 1]) + parts[|parts| - 1]
  }

  /** A text that neither starts nor ends with a whitespace character. */
  predicate IsTrimmed(s: seq<Byte>) {
    SpaceLength(s) == 0 && !EndsInSpace(s, 1) && !EndsInSpace(s, 2) && !EndsInSpace(s, 3)
  }

  /** A whitespace character is recognised whatever follows it, and nothing else starts like one. */
  lemma SpaceInFront(c: seq<Byte>, rest: seq<Byte>)
    requires IsSpaceCharacter(c)
    ensures SpaceLength(c + rest) == |c|
  {
  }

  lemma NoSpaceInFront(s: seq<Byte>, c: seq<Byte>, rest: seq<Byte>)
    requires SpaceLength(s) == 0 && |s| > 0 && ((|c| == 0 && rest == []) || IsSpaceCharacter(c))
    ensures SpaceLength(s + (c + rest)) == 0
  {
    assert |c| > 0 ==> (s + (c + rest))[|s|] == c[0];
  }

  lemma {:induction false} DropSpacesInFront(spaces: seq<seq<Byte>>, rest: seq<Byte>)
    requires forall i :: 0 <= i < |spaces| ==> IsSpaceCharacter(spaces[i])
    ensures TrimStart(Concat(spaces) + rest) == TrimStart(rest)
    decreases |spaces|
  {
    if |spaces| == 0 {
      assert Concat(spaces) + rest == rest;
    } else {
      var n := |spaces| - 1;
      var c := spaces[n];
      hide SpaceLength;
      ConcatAssoc(Concat(spaces[..n]), c, rest);
      DropSpacesInFront(spaces[..n], c + rest);
      SpaceInFront(c, rest);
      assert (c + rest)[|c|..] == rest;
    }
  }

  lemma SpaceAtTheEnd(s: seq<Byte>, c: seq<Byte>)
    requires IsSpaceCharacter(c)
    ensures EndsInSpace(s + c, 1) <==> |c| == 1
    ensures |c| > 1 ==> (EndsInSpace(s + c, 2) <==> |c| == 2)
    ensures EndsInSpace(s + c, |c|) && (s + c)[..|s + c| - |c|] == s
  {
    assert (s + c)[|s + c| - |c|..] == c;
    assert (s + c)[|s + c| - 1] == c[|c| - 1];
    if |c| > 1 {
      assert (s + c)[|s + c| - 2..][0] == c[|c| - 2];
    }
  }

  lemma {:induction false} DropSpacesAtTheEnd(core: seq<Byte>, spaces: seq<seq<Byte>>)
    requires forall i :: 0 <= i < |spaces| ==> IsSpaceCharacter(spaces[i])
    ensures TrimEnd(core + Concat(spaces)) == TrimEnd(core)
    decreases |spaces|
  {
    hide SpaceLength, TrimEnd, IsSpaceCharacter;
    if |spaces| == 0 {
      assert core + Concat(spaces) == core;
    } else {
      var n := |spaces| - 1;
      var front, c := Concat(spaces[..n]), spaces[n];
      ConcatAssoc(core, front, c);
      DropSpaceAtTheEnd(core + front, c);
      DropSpacesAtTheEnd(core, spaces[..n]);
    }
  }

  lemma DropSpaceAtTheEnd(s: seq<Byte>, c: seq<Byte>)
    requires IsSpaceCharacter(c)
    ensures TrimEnd(s + c) == TrimEnd(s)
  {
    SpaceAtTheEnd(s, c);
    assert |c| == 1 || |c| == 2 || |c| == 3;
    hide SpaceLength, EndsInSpace;
  }

  /** Trimming drops any whitespace characters around a text that neither starts nor ends with one. */
  lemma TrimDropsOuterSpaces(before: seq<seq<Byte>>, core: seq<Byte>, after: seq<seq<Byte>>)
    requires forall i :: 0 <= i < |before| ==> IsSpaceCharacter(before[i])
    requires forall i :: 0 <= i < |after| ==> IsSpaceCharacter(after[i])
    requires IsTrimmed(core)
    ensures Trim(Concat(before) + (core + Concat(after))) == core
  {
    DropSpacesInFront(before, core + Concat(after));
    if |core| == 0 {
      assert core + Concat(after) == Concat(after) + [];
      DropSpacesInFront(after, []);
    } else {
      NoSpaceBefore(core, after);
      DropSpacesAtTheEnd(core, after);
    }
    hide Concat;
  }

  lemma {:induction false} NoSpaceBefore(core: seq<Byte>, after: seq<seq<Byte>>)
    requires forall i :: 0 <= i < |after| ==> IsSpaceCharacter(after[i])
    requires SpaceLength(core) == 0 && |core| > 0
    ensures SpaceLength(core + Concat(after)) == 0
  {
    if |after| == 0 {
      assert core + Concat(after) == core;
    } else {
      FirstSpace(after);
      var c := after[0];
      var rest := Concat(after)[|c|..];
      assert Concat(after) == c + rest;
      NoSpaceInFront(core, c, rest);
    }
  }

  lemma {:induction false} FirstSpace(parts: seq<seq<Byte>>)
    requires |parts| > 0
    ensures parts[0] <= Concat(parts)
  {
    var front := parts[..|parts| - 1];
    if |front| == 0 {
      assert Concat(front) == [] && [] + parts[0] == parts[0];
    } else {
      FirstSpace(front);
    }
  }

  /** ASCII whitespace is dropped wherever it is, all else stays in order. */
  lemma OnlySpacesAreDropped(x: seq<Byte>, y: seq<Byte>, c: Byte)
    ensures WithoutSpaces(x + y) == WithoutSpaces(x) + WithoutSpaces(y)
    ensures WithoutSpaces([c])
         == if c == 12 || c as char == ' ' || c as char == '\t' || c as char == '\n' || c as char == '\r' then [] else [c]
  {
    WithoutSpacesConcat(x, y);
    assert [c][1..] == [];
  }

  lemma {:induction false} WithoutSpacesConcat(x: seq<Byte>, y: seq<Byte>)
    ensures WithoutSpaces(x + y) == WithoutSpaces(x) + WithoutSpaces(y)
  {
    hide IsAsciiSpace;
    if |x| == 0 {
      assert x + y == y;
    } else {
      WithoutSpacesConcat(x[1..], y);
      assert (x + y)[1..] == x[1..] + y;
      ConcatAssoc(if IsAsciiSpace(x[0]) then [] else [x[0]], WithoutSpaces(x[1..]), WithoutSpaces(y));
    }
  }

  /** Padding is dropped wherever it is, all else stays in order. */
  lemma OnlyPadsAreDropped(x: seq<Byte>, y: seq<Byte>, c: Byte)
    ensures WithoutPads(x + y) == WithoutPads(x) + WithoutPads(y)
    ensures WithoutPads([c]) == if c as char == '=' then [] else [c]
  {
    WithoutPadsConcat(x, y);
    assert [c][1..] == [];
  }

  lemma {:induction false} WithoutPadsConcat(x: seq<Byte>, y: seq<Byte>)
    ensures WithoutPads(x + y) == WithoutPads(x) + WithoutPads(y)
  {
    if |x| == 0 {
      assert x + y == y;
    } else {
      WithoutPadsConcat(x[1..], y);
      assert (x + y)[1..] == x[1..] + y;
      ConcatAssoc(if x[0] == PAD then [] else [x[0]], WithoutPads(x[1..]), WithoutPads(y));
    }
  }

  // ---- a run of digits ----

  predicate AllDigits(s: seq<Byte>) {
    forall c :: c in s ==> IsDigit(c)
  }

  function DigitValues(s: seq<Byte>): (v: seq<Sextet>)
    requires AllDigits(s)
    ensures |v| == |s|
    ensures forall i :: 0 <= i < |s| ==> DigitValue(s[i]) == Some(v[i])
  {
    if |s| == 0 then []
    else
      assert s[0] in s;
      [DigitValue(s[0]).value] + DigitValues(s[1..])
  }

  function Prepend<T>(front: seq<T>, rest: Option<seq<T>>): Option<seq<T>> {
    match rest
    case None => None
    case Some(s) => Some(front + s)
  }

  lemma {:induction false} ValuesOfRun(text: seq<Byte>, k: nat)
    requires k <= |text| && AllDigits(text[..k])
    ensures Values(text) == Prepend(DigitValues(text[..k]), Values(text[k..]))
  {
    hide DigitValue;
    if k == 0 {
      assert text[0..] == text;
      assert Values(text).Some? ==> DigitValues(text[..0]) + Values(text).value == Values(text).value;
    } else {
      assert text[0] in text[..k];
      assert text[..k][1..] == text[1..][..k - 1] && text[1..][k - 1..] == text[k..];
      ValuesOfRun(text[1..], k - 1);
      PadIsNoDigit();
      var v, run := DigitValue(text[0]).value, DigitValues(text[1..][..k - 1]);
      assert DigitValues(text[..k]) == [v] + run;
      if Values(text[k..]).Some? {
        var rest := Values(text[k..]).value;
        ConcatAssoc([v], run, rest);
      }
    }
  }

  lemma PadIsNoDigit()
    ensures !IsDigit(PAD)
  {
  }

  /** The place of the first '=', or the length of the text. */
  function FirstPad(text: seq<Byte>): (k: nat)
    ensures k <= |text| && forall i :: 0 <= i < k ==> [text[i]] != Ascii("=")
    ensures k < |text| ==> [text[k]] == Ascii("=")
  {
    if |text| == 0 || [text[0]] == Ascii("=") then 0 else 1 + FirstPad(text[1..])
  }

  /** Digit values are read exactly when all bytes before the first '=' are digits, and are the values of those. */
  lemma {:induction false} ValuesExactly(text: seq<Byte>, v: seq<Sextet>)
    ensures Values(text) == Some(v)
       <==> AllDigits(text[..FirstPad(text)]) && v == DigitValues(text[..FirstPad(text)])
  {
    PadAsText();
    var k := FirstPad(text);
    hide DigitValue;
    if AllDigits(text[..k]) {
      ValuesOfRun(text, k);
      hide DigitValues;
      assert DigitValues(text[..k]) + [] == DigitValues(text[..k]);
    } else {
      NotAllDigits(text, k);
    }
  }

  lemma {:induction false} NotAllDigits(text: seq<Byte>, k: nat)
    requires k <= |text| && !AllDigits(text[..k]) && forall i :: 0 <= i < k ==> text[i] != PAD
    ensures Values(text) == None
  {
    hide DigitValue;
    if IsDigit(text[0]) {
      var run := text[1..][..k - 1];
      assert text[..k] == [text[0]] + run;
      NotAllDigits(text[1..], k - 1);
    }
  }

  /**
   * A text without whitespace is decoded exactly when all bytes before the first '=' are digits and, without any
   * '=', their number is a multiple of four; it gives the bytes that those digits hold.
   */
  lemma StrictExactly(text: seq<Byte>, data: seq<Byte>)
    ensures var k := FirstPad(text);
      Strict(text) == Some(data)
      <==> AllDigits(text[..k]) && (k < |text| || k % 4 == 0) && data == Unpack(DigitValues(text[..k]))
  {
    hide Unpack, Values, DigitValues, AllDigits;
    var k := FirstPad(text);
    if Values(text).Some? {
      ValuesExactly(text, Values(text).value);
    } else if AllDigits(text[..k]) {
      ValuesExactly(text, DigitValues(text[..k]));
    }
  }

  // ---- lean_val: whitespace dropped, '=' ends the text, unfinished groups are refused ----

  /** The strict reading of a text without whitespace. */
  function Strict(text: seq<Byte>): Option<seq<Byte>> {
    match Values(text)
    case None => None
    case Some(v) => if |v| == |text| && |v| % 4 != 0 then None else Some(Unpack(v))
  }

  lemma StrictOfBadByte(text: seq<Byte>, k: nat)
    requires k < |text| && AllDigits(text[..k]) && !IsDigit(text[k]) && text[k] != PAD
    ensures Strict(text) == None
  {
    ValuesOfRun(text, k);
  }

  lemma StrictOfPad(text: seq<Byte>, k: nat)
    requires k < |text| && AllDigits(text[..k]) && text[k] == PAD
    ensures Strict(text) == Some(Unpack(DigitValues(text[..k])))
  {
    ValuesOfRun(text, k);
    assert DigitValues(text[..k]) + [] == DigitValues(text[..k]);
  }

  lemma StrictOfShortText(text: seq<Byte>)
    requires 0 < |text| < 4 && AllDigits(text)
    ensures Strict(text) == None
  {
    assert text[..|text|] == text;
    ValuesOfRun(text, |text|);
    assert DigitValues(text) + [] == DigitValues(text);
  }

  lemma StrictOfGroup(text: seq<Byte>)
    requires |text| >= 4 && AllDigits(text[..4])
    ensures var v := DigitValues(text[..4]);
            Strict(text) == Prepend([Byte0(v[0], v[1]), Byte1(v[1], v[2]), Byte2(v[2], v[3])], Strict(text[4..]))
  {
    hide DigitValues, Values;
    ValuesOfRun(text, 4);
    var v := DigitValues(text[..4]);
    if Values(text[4..]).Some? {
      var rest := Values(text[4..]).value;
      assert (v + rest)[4..] == rest;
      DivModUnique(|v + rest|, |rest| / 4 + 1, |rest| % 4, 4);
    }
  }

  /** The bytes of an unfinished group of digits. */
  lemma UnfinishedGroup(run: seq<Byte>)
    requires AllDigits(run) && |run| < 4
    ensures var v := DigitValues(run);
      && (|run| < 2 ==> Unpack(v) == [])
      && (|run| == 2 ==> Unpack(v) == [Byte0(v[0], v[1])])
      && (|run| == 3 ==> Unpack(v) == [Byte0(v[0], v[1]), Byte1(v[1], v[2])])
  {
    hide Byte0, Byte1, DigitValues;
  }

  /** How one turn of the loop ends: out of the function, out of the loop, or on to the next group. */
  datatype Turn = Refuse | Break(bytes: seq<Byte>) | Continue(bytes: seq<Byte>)

  /** One turn over the group at the start of `t`, in the order of the source's checks. */
  method StrictTurn(t: seq<Byte>) returns (turn: Turn)
    requires |t| > 0
    ensures turn.Refuse? ==> Strict(t) == None
    ensures turn.Break? ==> Strict(t) == Some(turn.bytes)
    ensures turn.Continue? ==> |t| >= 4 && Strict(t) == Prepend(turn.bytes, Strict(t[4..]))
  {
    hide Strict, DigitValue, DigitValues, Unpack, Values;
    if t[0] == PAD {
      StrictOfPad(t, 0);
      UnfinishedGroup(t[..0]);
      return Break([]);
    }
    var a := DigitValue(t[0]);
    if a == None {
      StrictOfBadByte(t, 0);
      return Refuse;
    }
    if |t| == 1 {
      StrictOfShortText(t);
      return Refuse;
    }
    if t[1] == PAD {
      StrictOfPad(t, 1);
      UnfinishedGroup(t[..1]);
      return Break([]);
    }
    var b := DigitValue(t[1]);
    if b == None {
      StrictOfBadByte(t, 1);
      return Refuse;
    }
    var out: seq<Byte> := [4 * (a.value as int) + b.value / 16];
    if |t| == 2 {
      StrictOfShortText(t);
      return Refuse;
    }
    if t[2] == PAD {
      StrictOfPad(t, 2);
      UnfinishedGroup(t[..2]);
      return Break(out);
    }
    var c := DigitValue(t[2]);
    if c == None {
      StrictOfBadByte(t, 2);
      return Refuse;
    }
    out := out + [16 * (b.value as int % 16) + c.value / 4];
    if |t| == 3 {
      StrictOfShortText(t);
      return Refuse;
    }
    if t[3] == PAD {
      StrictOfPad(t, 3);
      UnfinishedGroup(t[..3]);
      var v := DigitValues(t[..3]);
      assert v[0] == a.value && v[1] == b.value && v[2] == c.value;
      assert out == [Byte0(v[0], v[1]), Byte1(v[1], v[2])];
      return Break(out);
    }
    var d := DigitValue(t[3]);
    if d == None {
      StrictOfBadByte(t, 3);
      return Refuse;
    }
    out := out + [64 * (c.value as int % 4) + d.value];
    StrictOfGroup(t);
    var v := DigitValues(t[..4]);
    assert v[0] == a.value && v[1] == b.value && v[2] == c.value && v[3] == d.value;
    assert out == [Byte0(v[0], v[1]), Byte1(v[1], v[2]), Byte2(v[2], v[3])];
    return Continue(out);
  }

  method DecodeStdB64(s: seq<Byte>) returns (r: Option<seq<Byte>>)
    ensures r == Strict(WithoutSpaces(s))
  {
    hide Strict;
    var bytes := WithoutSpaces(s);
    StrictOfNothing();
    if |bytes| == 0 {
      return Some([]);
    }
    var out: seq<Byte> := [];
    var i := 0;
    assert bytes[0..] == bytes;
    assert Strict(bytes).Some? ==> [] + Strict(bytes).value == Strict(bytes).value;
    while i < |bytes|
      invariant 0 <= i <= |bytes|
      invariant Strict(bytes) == Prepend(out, Strict(bytes[i..]))
    {
      var turn := StrictTurn(bytes[i..]);
      match turn
      case Refuse =>
        return None;
      case Break(more) =>
        return Some(out + more);
      case Continue(more) =>
        assert bytes[i..][4..] == bytes[i + 4..];
        PrependTwice(out, more, Strict(bytes[i + 4..]));
        out := out + more;
        i := i + 4;
    }
    assert bytes[i..] == [] && out + [] == out;
    return Some(out);
  }

  lemma StrictOfNothing()
    ensures Strict([]) == Some([])
  {
  }

  lemma PrependTwice<T>(x: seq<T>, y: seq<T>, rest: Option<seq<T>>)
    ensures Prepend(x, Prepend(y, rest)) == Prepend(x + y, rest)
  {
    if rest.Some? {
      ConcatAssoc(x, y, rest.value);
    }
  }

  // ---- trustless builder and oracle: no whitespace inside, '=' ends the text, leftovers are dropped ----

  lemma ValuesStep(text: seq<Byte>)
    requires |text| > 0 && text[0] != PAD
    ensures Values(text) == if IsDigit(text[0]) then Prepend([DigitValue(text[0]).value], Values(text[1..])) else None
  {
  }

  /** The values of the digits before the first '=', pushed one by one. */
  method CollectValues(s: seq<Byte>) returns (r: Option<seq<Sextet>>)
    ensures r == Values(s)
  {
    hide Values, DigitValue;
    var vals: seq<Sextet> := [];
    var i := 0;
    assert s[0..] == s;
    assert Values(s).Some? ==> [] + Values(s).value == Values(s).value;
    ValuesEnd(s[|s|..]);
    while i < |s|
      invariant 0 <= i <= |s|
      invariant Values(s) == Prepend(vals, Values(s[i..]))
    {
      if s[i] == PAD {
        ValuesEnd(s[i..]);
        break;
      }
      ValuesStep(s[i..]);
      var v := DigitValue(s[i]);
      if v == None {
        return None;
      }
      assert s[i..][1..] == s[i + 1..];
      PrependTwice(vals, [v.value], Values(s[i + 1..]));
      vals := vals + [v.value];
      i := i + 1;
    }
    assert vals + [] == vals;
    return Some(vals);
  }

  lemma ValuesEnd(text: seq<Byte>)
    requires |text| == 0 || text[0] == PAD
    ensures Values(text) == Some([])
  {
  }

  /** Shifted bytes keep their low eight bits. */
  lemma LowBits(b: Sextet)
    ensures 16 * (b as int) % 256 == 16 * (b as int % 16)
    ensures 64 * (b as int) % 256 == 64 * (b as int % 4)
  {
    DivModUnique(16 * (b as int), b / 16, 16 * (b as int % 16), 256);
    DivModUnique(64 * (b as int), b / 4, 64 * (b as int % 4), 256);
  }

  /** One turn over up to four values. */
  method UnpackTurn(vals: seq<Sextet>, i: nat) returns (bytes: seq<Byte>)
    requires i + 1 < |vals|
    ensures Unpack(vals[i..]) == bytes + if i + 4 <= |vals| then Unpack(vals[i + 4..]) else []
  {
    ghost var t := vals[i..];
    LowBits(vals[i + 1]);
    bytes := [4 * (vals[i] as int) + vals[i + 1] / 16];
    assert bytes == [Byte0(t[0], t[1])];
    if i + 2 < |vals| {
      LowBits(vals[i + 2]);
      bytes := bytes + [16 * (vals[i + 1] as int) % 256 + vals[i + 2] / 4];
      assert bytes == [Byte0(t[0], t[1]), Byte1(t[1], t[2])];
    }
    if i + 3 < |vals| {
      bytes := bytes + [64 * (vals[i + 2] as int) % 256 + vals[i + 3]];
      assert bytes == [Byte0(t[0], t[1]), Byte1(t[1], t[2]), Byte2(t[2], t[3])];
      assert t[4..] == vals[i + 4..];
    }
  }

  method UnpackValues(vals: seq<Sextet>) returns (out: seq<Byte>)
    ensures out == Unpack(vals)
  {
    out := [];
    var i := 0;
    assert vals[0..] == vals && [] + Unpack(vals) == Unpack(vals);
    while i + 1 < |vals|
      invariant 0 <= i
      invariant Unpack(vals) == out + if i <= |vals| then Unpack(vals[i..]) else []
      decreases |vals| - i
    {
      hide Unpack;
      var bytes := UnpackTurn(vals, i);
      ConcatAssoc(out, bytes, if i + 4 <= |vals| then Unpack(vals[i + 4..]) else []);
      out := out + bytes;
      i := i + 4;
    }
    assert out + [] == out;
  }

  method DecodeTrimmed(text: seq<Byte>) returns (r: Result<seq<Byte>, string>)
    ensures r == match Values(Trim(text)) { case None => Err("bad base64") case Some(v) => Ok(Unpack(v)) }
  {
    var s := Trim(text);
    var vals := CollectValues(s);
    if vals == None {
      return Err("bad base64");
    }
    var out := UnpackValues(vals.value);
    return Ok(out);
  }

  // ---- the oracle's streaming decoder: a table and a 32-bit buffer whose old bits fall off the top ----

  const NO_DIGIT: Byte := 0xFF

  function TableEntry(c: int, known: int): Byte
    requires 0 <= c < 256
  {
    match DigitValue(c)
    case Some(v) => if v < known then v else NO_DIGIT
    case None => NO_DIGIT
  }

  method BuildTable() returns (entries: seq<Byte>)
    ensures |entries| == 256 && forall c :: 0 <= c < 256 ==> entries[c] == TableEntry(c, 64)
  {
    var table := new Byte[256](_ => NO_DIGIT);
    for i := 0 to 64
      invariant forall c :: 0 <= c < 256 ==> table[c] == TableEntry(c, i)
    {
      table[Digit(i)] := i;
      forall c | 0 <= c < 256
        ensures table[c] == TableEntry(c, i + 1)
      {
        DigitsAreDistinct(i);
        assert DigitValue(c) == Some(i) ==> c == Digit(i);
      }
    }
    entries := table[..];
  }

  /** The bits of the buffer that no byte has been taken from: none, six, four or two of them. */
  predicate Pending(vals: seq<Sextet>, buf: int, n: int) {
    if |vals| % 4 == 0 then n == 0
    else
      var last := vals[|vals| - 1];
      if |vals| % 4 == 1 then n == 6 && buf % 64 == last
      else if |vals| % 4 == 2 then n == 4 && buf % 16 == last % 16
      else n == 2 && buf % 4 == last % 4
  }

  /** The bytes that one more sextet completes. */
  function Completed(vals: seq<Sextet>, v: Sextet): seq<Byte> {
    if |vals| % 4 == 0 then []
    else
      var last := vals[|vals| - 1];
      if |vals| % 4 == 1 then [Byte0(last, v)]
      else if |vals| % 4 == 2 then [Byte1(last, v)]
      else [Byte2(last, v)]
  }

  lemma {:induction false} UnpackOneMore(vals: seq<Sextet>, v: Sextet)
    ensures Unpack(vals + [v]) == Unpack(vals) + Completed(vals, v)
    decreases |vals|
  {
    hide Byte0, Byte1, Byte2;
    if |vals| >= 4 {
      UnpackOneMore(vals[4..], v);
      DivModUnique(|vals|, |vals[4..]| / 4 + 1, |vals[4..]| % 4, 4);
      assert (vals + [v])[4..] == vals[4..] + [v];
      assert Completed(vals[4..], v) == Completed(vals, v);
      if |vals| == 4 {
        assert vals[4..] == [] && Unpack([v]) == [];
      }
    }
  }

  /** The buffer after a shift by six in 32 bits: `t` is what falls off the top. */
  lemma ShiftedBuffer(buf: u32, v: Sextet, buf': int)
    requires buf' == 64 * (buf as int) % 0x1_0000_0000 + v
    ensures 0 <= buf' < 0x1_0000_0000
    ensures buf' % 64 == v && buf' % 16 == v % 16 && buf' % 4 == v % 4
    ensures buf' / 16 % 256 == 4 * (buf as int % 64) + v / 16
    ensures buf' / 4 % 256 == 16 * (buf as int % 16) + v / 4
    ensures buf' % 256 == 64 * (buf as int % 4) + v
  {
    var kept := KeptBits(buf);
    ShiftedBySix(kept, v);
  }

  lemma KeptBits(buf: u32) returns (kept: int)
    ensures 64 * (buf as int) % 0x1_0000_0000 == 64 * kept
    ensures kept % 64 == buf % 64 && kept % 16 == buf % 16 && kept % 4 == buf % 4
    ensures 0 <= 64 * kept <= 0x1_0000_0000 - 64
  {
    var shifted := 64 * (buf as int);
    var t, rest := shifted / 0x1_0000_0000, shifted % 0x1_0000_0000;
    assert shifted == 0x1_0000_0000 * t + rest && 0 <= rest < 0x1_0000_0000;
    kept := buf - 0x400_0000 * t;
    assert rest == 64 * kept;
    LowBitsAreKept(buf, t);
  }

  lemma LowBitsAreKept(b: int, t: int)
    ensures var kept := b - 0x400_0000 * t;
            kept % 64 == b % 64 && kept % 16 == b % 16 && kept % 4 == b % 4
  {
    DivModUnique(b - 0x400_0000 * t, b / 64 - 0x10_0000 * t, b % 64, 64);
    DivModUnique(b - 0x400_0000 * t, b / 16 - 0x40_0000 * t, b % 16, 16);
    DivModUnique(b - 0x400_0000 * t, b / 4 - 0x100_0000 * t, b % 4, 4);
  }

  lemma ShiftedBySix(b: int, v: Sextet)
    ensures var w := 64 * b + v;
      && w % 64 == v && w % 16 == v % 16 && w % 4 == v % 4
      && w / 16 % 256 == 4 * (b % 64) + v / 16
      && w / 4 % 256 == 16 * (b % 16) + v / 4
      && w % 256 == 64 * (b % 4) + v
  {
    var w := 64 * b + v;
    DivModUnique(w, b, v, 64);
    DivModUnique(w, 4 * b + v / 16, v % 16, 16);
    DivModUnique(w, 16 * b + v / 4, v % 4, 4);
    DivModUnique(4 * b + v / 16, b / 64, 4 * (b % 64) + v / 16, 256);
    DivModUnique(16 * b + v / 4, b / 16, 16 * (b % 16) + v / 4, 256);
    DivModUnique(w, b / 4, 64 * (b % 4) + v, 256);
  }

  /** The bits left in the buffer after a turn. */
  lemma PendingTurn(vals: seq<Sextet>, v: Sextet, n: int, buf': int)
    requires buf' % 64 == v && buf' % 16 == v % 16 && buf' % 4 == v % 4
    requires n == (if |vals| % 4 == 0 then 0 else 8 - 2 * (|vals| % 4))
    ensures Pending(vals + [v], buf', if n + 6 < 8 then n + 6 else n - 2)
  {
    assert (vals + [v])[|vals|] == v;
    DivModUnique(|vals| + 1, (|vals| + 1) / 4, (|vals| + 1) % 4, 4);
  }

  /** Bits shifted out of the top of the buffer never reach a byte. */
  lemma BufferTurn(vals: seq<Sextet>, v: Sextet, buf: u32, n: int, buf': int)
    requires Pending(vals, buf, n)
    requires buf' == 64 * (buf as int) % 0x1_0000_0000 + v
    ensures 0 <= buf' < 0x1_0000_0000
    ensures Pending(vals + [v], buf', if n + 6 < 8 then n + 6 else n - 2)
    ensures n + 6 < 8 ==> Completed(vals, v) == []
    ensures n == 6 ==> Completed(vals, v) == [buf' / 16 % 256]
    ensures n == 4 ==> Completed(vals, v) == [buf' / 4 % 256]
    ensures n == 2 ==> Completed(vals, v) == [buf' % 256]
    ensures n in {0, 2, 4, 6}
  {
    ShiftedBuffer(buf, v, buf');
    PendingTurn(vals, v, n, buf');
  }

  /** `buf >> n` for the shifts that occur. */
  function ShiftRight(buf: u32, n: int): int
    requires n in {0, 2, 4}
  {
    if n == 4 then buf / 16 else if n == 2 then buf / 4 else buf
  }

  method DecodeStream(input: seq<Byte>) returns (r: Option<seq<Byte>>)
    ensures r == match Values(input)
                 case None => None
                 case Some(v) => if Unpack(v) == [] then None else Some(Unpack(v))
  {
    hide Unpack, Values, DigitValue;
    var table := BuildTable();
    var out: seq<Byte>, buf: u32, n := [], 0, 0;
    ghost var vals: seq<Sextet> := [];
    var i := 0;
    UnpackNothing();
    ValuesEnd(input[|input|..]);
    assert input[0..] == input;
    assert Values(input).Some? ==> [] + Values(input).value == Values(input).value;
    while i < |input|
      invariant 0 <= i <= |input|
      invariant Values(input) == Prepend(vals, Values(input[i..]))
      invariant Pending(vals, buf, n) && out == Unpack(vals)
    {
      var c := input[i];
      if c == PAD {
        ValuesEnd(input[i..]);
        break;
      }
      ValuesStep(input[i..]);
      var v := table[c];
      assert v == TableEntry(c, 64);
      if v == NO_DIGIT {
        return None;
      }
      ghost var done := vals;
      assert input[i..][1..] == input[i + 1..];
      PrependTwice(done, [v], Values(input[i + 1..]));
      var shifted := 64 * (buf as int) % 0x1_0000_0000 + v;
      BufferTurn(vals, v, buf, n, shifted);
      UnpackOneMore(vals, v);
      buf := shifted;
      vals := vals + [v];
      n := n + 6;
      if n >= 8 {
        n := n - 8;
        out := out + [ShiftRight(buf, n) % 256];
      }
      i := i + 1;
    }
    assert vals + [] == vals;
    if |out| == 0 {
      return None;
    } else {
      return Some(out);
    }
  }

  // ---- public keys: '=' and whitespace dropped, bad digits in the last two places of a group read as zero ----

  /** The value at a position of a group where a bad digit or the end of the text reads as zero. */
  function LenientValue(s: seq<Byte>, i: nat): Sextet {
    if i < |s| && IsDigit(s[i]) then DigitValue(s[i]).value else 0
  }

  /** The bytes of the group at the start of `s`. A lone leftover digit still gives a byte. */
  function LenientBytes(s: seq<Byte>): seq<Byte> {
    var a, b, c, d := LenientValue(s, 0), LenientValue(s, 1), LenientValue(s, 2), LenientValue(s, 3);
    [Byte0(a, b)] + (if |s| > 2 then [Byte1(b, c)] else []) + (if |s| > 3 then [Byte2(c, d)] else [])
  }

  function Lenient(s: seq<Byte>): Option<seq<Byte>>
    decreases |s|
  {
    if |s| == 0 then Some([])
    else if !IsDigit(s[0]) || (|s| > 1 && !IsDigit(s[1])) then None
    else Prepend(LenientBytes(s), Lenient(if |s| > 4 then s[4..] else []))
  }

  /** The text with every bad digit read as 'A', the digit of zero. */
  function Mended(s: seq<Byte>): (m: seq<Byte>)
    ensures |m| == |s| && forall i :: 0 <= i < |s| ==> m[i] == if IsDigit(s[i]) then s[i] else Ascii("A")[0]
  {
    seq(|s|, i requires 0 <= i < |s| => if IsDigit(s[i]) then s[i] else Ascii("A")[0])
  }

  /** The first two places of every group hold digits. */
  predicate GroupsStartWithDigits(s: seq<Byte>) {
    forall i :: 0 <= i < |s| && i % 4 < 2 ==> IsDigit(s[i])
  }

  lemma MendedGroup(s: seq<Byte>)
    requires |s| > 0
    ensures LenientBytes(Mended(s)) == LenientBytes(s)
    ensures AllDigits(Mended(s))
  {
    assert DigitValue(Ascii("A")[0]) == Some(0);
    var m := Mended(s);
    hide DigitValue, Byte0, Byte1, Byte2;
    assert forall i: nat :: LenientValue(m, i) == LenientValue(s, i);
  }

  /** A key's text is refused exactly for a bad digit in such a place; other bad digits are read as 'A'. */
  lemma {:induction false} LenientExactly(s: seq<Byte>)
    ensures Lenient(s) == if GroupsStartWithDigits(s) then Lenient(Mended(s)) else None
    ensures Lenient(Mended(s)).Some?
    decreases |s|
  {
    if |s| > 0 {
      MendedGroup(s);
      var m := Mended(s);
      var rest := if |s| > 4 then s[4..] else [];
      LenientExactly(rest);
      assert (if |m| > 4 then m[4..] else []) == Mended(rest);
      assert m[0] in m && (|m| > 1 ==> m[1] in m);
      GroupsStartSplit(s, rest);
      hide LenientBytes, IsDigit, GroupsStartWithDigits;
    }
  }

  lemma GroupsStartSplit(s: seq<Byte>, rest: seq<Byte>)
    requires |s| > 0 && rest == if |s| > 4 then s[4..] else []
    ensures GroupsStartWithDigits(s)
       <==> IsDigit(s[0]) && (|s| > 1 ==> IsDigit(s[1])) && GroupsStartWithDigits(rest)
  {
    hide IsDigit;
    if |s| > 4 {
      forall i | 0 <= i < |rest|
        ensures rest[i] == s[i + 4] && (i + 4) % 4 == i % 4
      {
      }
    }
    if IsDigit(s[0]) && (|s| > 1 ==> IsDigit(s[1])) && GroupsStartWithDigits(rest) {
      forall i | 0 <= i < |s| && i % 4 < 2
        ensures IsDigit(s[i])
      {
        if i >= 4 {
          assert rest[i - 4] == s[i] && (i - 4) % 4 == i % 4;
        }
      }
    }
  }

  /** What a key's text is cut down to before it is decoded. */
  function KeyText(text: seq<Byte>): seq<Byte> {
    WithoutSpaces(WithoutPads(Trim(text)))
  }

  /** Of a key's text, whitespace around it, padding anywhere and ASCII whitespace anywhere are left out. */
  lemma KeyTextOf(before: seq<seq<Byte>>, core: seq<Byte>, after: seq<seq<Byte>>)
    requires forall i :: 0 <= i < |before| ==> IsSpaceCharacter(before[i])
    requires forall i :: 0 <= i < |after| ==> IsSpaceCharacter(after[i])
    requires IsTrimmed(core)
    ensures KeyText(Concat(before) + (core + Concat(after))) == WithoutSpaces(WithoutPads(core))
  {
    TrimDropsOuterSpaces(before, core, after);
    hide Concat, Trim, IsTrimmed, WithoutSpaces, WithoutPads;
  }

  method LenientTurn(s: seq<Byte>, i: nat) returns (bytes: Option<seq<Byte>>)
    requires i < |s|
    ensures bytes == if !IsDigit(s[i]) || (i + 1 < |s| && !IsDigit(s[i + 1])) then None
                     else Some(LenientBytes(s[i..]))
  {
    hide DigitValue;
    if DigitValue(s[i]) == None {
      return None;
    }
    var a := DigitValue(s[i]).value;
    var b: Sextet, c: Sextet, e: Sextet := 0, 0, 0;
    if i + 1 < |s| {
      if DigitValue(s[i + 1]) == None {
        return None;
      }
      b := DigitValue(s[i + 1]).value;
    }
    if i + 2 < |s| && DigitValue(s[i + 2]).Some? {
      c := DigitValue(s[i + 2]).value;
    }
    if i + 3 < |s| && DigitValue(s[i + 3]).Some? {
      e := DigitValue(s[i + 3]).value;
    }
    assert a == LenientValue(s[i..], 0) && b == LenientValue(s[i..], 1);
    assert c == LenientValue(s[i..], 2) && e == LenientValue(s[i..], 3);
    LowBits(b);
    LowBits(c);
    var out: seq<Byte> := [4 * (a as int) + b / 16];
    assert out == [Byte0(a, b)];
    if i + 2 < |s| {
      out := out + [16 * (b as int) % 256 + c / 4];
      assert out == [Byte0(a, b)] + [Byte1(b, c)];
    }
    if i + 3 < |s| {
      out := out + [64 * (c as int) % 256 + e];
      assert out == [Byte0(a, b)] + [Byte1(b, c)] + [Byte2(c, e)];
    }
    assert out == LenientBytes(s[i..]);
    return Some(out);
  }

  method DecodePk(b64: seq<Byte>) returns (r: Result<seq<Byte>, string>)
    ensures r == match Lenient(KeyText(b64)) { case None => Err("b64") case Some(bytes) => Ok(bytes) }
  {
    hide KeyText, IsDigit, LenientBytes;
    var s := KeyText(b64);
    var out: seq<Byte> := [];
    var i := 0;
    assert s[0..] == s;
    assert Lenient(s).Some? ==> [] + Lenient(s).value == Lenient(s).value;
    while i < |s|
      invariant 0 <= i
      invariant Lenient(s) == Prepend(out, Lenient(if i <= |s| then s[i..] else []))
      decreases |s| - i
    {
      var bytes := LenientTurn(s, i);
      if bytes == None {
        return Err("b64");
      }
      ghost var rest := if i + 4 < |s| then s[i + 4..] else [];
      assert (if |s[i..]| > 4 then s[i..][4..] else []) == rest;
      PrependTwice(out, bytes.value, Lenient(rest));
      out := out + bytes.value;
      i := i + 4;
      assert (if i <= |s| then s[i..] else []) == rest;
    }
    assert (if i <= |s| then s[i..] else []) == [] && out + [] == out;
    return Ok(out);
  }

  // ---- agreement ----

  lemma LenientValuesOfDigits(s: seq<Byte>, i: nat)
    requires AllDigits(s) && i < |s|
    ensures LenientValue(s, i) == DigitValues(s)[i]
  {
    assert s[i] in s;
  }

  lemma LenientBytesByLength(s: seq<Byte>)
    ensures var a, b, c, d := LenientValue(s, 0), LenientValue(s, 1), LenientValue(s, 2), LenientValue(s, 3);
            LenientBytes(s) == if |s| <= 2 then [Byte0(a, b)]
                               else if |s| == 3 then [Byte0(a, b), Byte1(b, c)]
                               else [Byte0(a, b), Byte1(b, c), Byte2(c, d)]
  {
    hide Byte0, Byte1, Byte2, LenientValue;
  }

  lemma LenientValues(s: seq<Byte>)
    requires AllDigits(s)
    ensures forall i :: 0 <= i < |s| ==> LenientValue(s, i) == DigitValues(s)[i]
    ensures forall i: nat :: i >= |s| ==> LenientValue(s, i) == 0
  {
    forall i | 0 <= i < |s|
      ensures LenientValue(s, i) == DigitValues(s)[i]
    {
      LenientValuesOfDigits(s, i);
    }
  }

  lemma {:induction false} DigitValuesFrom(s: seq<Byte>, n: nat)
    requires AllDigits(s) && n <= |s|
    ensures AllDigits(s[n..]) && DigitValues(s)[n..] == DigitValues(s[n..])
  {
    hide DigitValue;
    if n == 0 {
      assert s[0..] == s && DigitValues(s)[0..] == DigitValues(s);
    } else {
      assert s[1..][n - 1..] == s[n..];
      DigitValuesFrom(s[1..], n - 1);
    }
  }

  /** The first whole group of a run of digits with more behind it. */
  lemma LenientWholeGroup(s: seq<Byte>)
    requires AllDigits(s) && |s| > 4
    ensures Unpack(DigitValues(s)) == LenientBytes(s) + Unpack(DigitValues(s)[4..])
  {
    LenientBytesByLength(s);
    LenientValues(s);
    hide Byte0, Byte1, Byte2, LenientValue, LenientBytes, DigitValues;
  }

  /** The last group of a run of digits, and what a lone leftover digit adds. */
  lemma LenientLastGroup(s: seq<Byte>)
    requires AllDigits(s) && 0 < |s| <= 4
    ensures |s| > 1 ==> LenientBytes(s) == Unpack(DigitValues(s))
    ensures |s| == 1 ==> LenientBytes(s) == [Byte0(DigitValues(s)[0], 0)] && Unpack(DigitValues(s)) == []
  {
    LenientBytesByLength(s);
    LenientValues(s);
    hide Byte0, Byte1, Byte2, LenientValue, LenientBytes, DigitValues;
    assert |s| == 4 ==> DigitValues(s)[4..] == [];
  }

  /** The byte of a lone leftover digit. */
  function Leftover(v: seq<Sextet>): seq<Byte> {
    if |v| % 4 == 1 then [Byte0(v[|v| - 1], 0)] else []
  }

  /** A lone leftover digit counts as if the digit of zero followed it. */
  lemma LeftoverByZero(v: seq<Sextet>)
    ensures |v| % 4 == 1 ==> Unpack(v) + Leftover(v) == Unpack(v + [0])
    ensures |v| % 4 != 1 ==> Leftover(v) == []
    ensures |Unpack(v)| == 3 * |v| / 4
  {
    hide Unpack, Byte0, Byte1, Byte2;
    UnpackOneMore(v, 0);
    UnpackLength(v);
  }

  lemma {:induction false} UnpackLength(v: seq<Sextet>)
    ensures |Unpack(v)| == 3 * |v| / 4
    decreases |v|
  {
    hide Byte0, Byte1, Byte2;
    if |v| >= 4 {
      UnpackLength(v[4..]);
    }
  }

  lemma LenientUnrolls(s: seq<Byte>)
    requires AllDigits(s) && |s| > 0
    ensures Lenient(s) == Prepend(LenientBytes(s), Lenient(if |s| > 4 then s[4..] else []))
    ensures Lenient([]) == Some([])
  {
    assert s[0] in s && (|s| > 1 ==> s[1] in s);
    hide LenientBytes, IsDigit;
  }

  /** On digits alone the lenient reading is the plain one, plus a byte for a lone leftover digit. */
  lemma {:induction false} LenientOfDigits(s: seq<Byte>)
    requires AllDigits(s)
    ensures Lenient(s) == Some(Unpack(DigitValues(s)) + Leftover(DigitValues(s)))
    decreases |s|
  {
    var v := DigitValues(s);
    if |s| == 0 {
      assert [] + [] == Unpack(v);
    } else if |s| <= 4 {
      LenientOfFewDigits(s);
    } else {
      LenientUnrolls(s);
      LenientWholeGroup(s);
      DigitValuesFrom(s, 4);
      LenientOfDigits(s[4..]);
      LeftoverFrom(v);
      hide Lenient, Leftover, LenientBytes, DigitValues, Unpack, AllDigits;
      ConcatAssoc(LenientBytes(s), Unpack(v[4..]), Leftover(v));
    }
  }

  lemma LeftoverOfFew(v: seq<Sextet>)
    requires 0 < |v| <= 4
    ensures Leftover(v) == if |v| == 1 then [Byte0(v[0], 0)] else []
  {
    hide Byte0;
    assert |v| == 1 || |v| == 2 || |v| == 3 || |v| == 4;
  }

  lemma LenientOfFewDigits(s: seq<Byte>)
    requires AllDigits(s) && 0 < |s| <= 4
    ensures Lenient(s) == Some(Unpack(DigitValues(s)) + Leftover(DigitValues(s)))
  {
    hide Lenient, Leftover, LenientBytes, DigitValues, Unpack, AllDigits, Byte0;
    LenientUnrolls(s);
    LenientLastGroup(s);
    LeftoverOfFew(DigitValues(s));
    assert LenientBytes(s) + [] == LenientBytes(s) == [] + LenientBytes(s);
  }

  lemma LeftoverFrom(v: seq<Sextet>)
    requires |v| > 4
    ensures Leftover(v) == Leftover(v[4..])
  {
    hide Byte0;
    DivModUnique(|v|, |v[4..]| / 4 + 1, |v[4..]| % 4, 4);
  }

  lemma {:induction false} NothingToDrop(s: seq<Byte>)
    requires forall c :: c in s ==> IsDigit(c) || c == PAD
    ensures WithoutSpaces(s) == s
  {
    if |s| > 0 {
      assert s[0] in s;
      NothingToDrop(s[1..]);
    }
  }

  lemma {:induction false} DropPads(digits: seq<Byte>, n: nat)
    requires AllDigits(digits)
    ensures WithoutPads(digits + Pads(n)) == digits
  {
    if |digits| == 0 {
      OnlyPads(n);
      assert digits + Pads(n) == Pads(n);
    } else {
      assert digits[0] in digits;
      PadIsNoDigit();
      assert (digits + Pads(n))[1..] == digits[1..] + Pads(n);
      DropPads(digits[1..], n);
    }
  }

  lemma {:induction false} OnlyPads(n: nat)
    ensures WithoutPads(Pads(n)) == []
  {
    if n > 0 {
      assert Pads(n)[1..] == Pads(n - 1);
      OnlyPads(n - 1);
    }
  }

  predicate Printable(c: Byte) {
    33 <= c < 128
  }

  lemma NothingToTrim(s: seq<Byte>)
    requires |s| > 0 ==> Printable(s[0]) && Printable(s[|s| - 1])
    ensures Trim(s) == s
  {
    if |s| > 0 {
      assert SpaceLength(s) == 0;
      forall n | 1 <= n <= 3 && n <= |s|
        ensures !EndsInSpace(s, n)
      {
        var end := s[|s| - n..];
        assert end[n - 1] == s[|s| - 1];
      }
      assert !EndsInSpace(s, 1) && !EndsInSpace(s, 2) && !EndsInSpace(s, 3);
      hide EndsInSpace, SpaceLength;
      assert TrimStart(s) == s && TrimEnd(s) == s;
    }
  }

  lemma DigitsAreDigits(v: seq<Sextet>)
    ensures AllDigits(Digits(v)) && DigitValues(Digits(v)) == v
  {
    forall i | 0 <= i < |v|
      ensures DigitValue(Digits(v)[i]) == Some(v[i])
    {
      DigitsAreDistinct(v[i]);
    }
  }

  /** Canonical text holds nothing that any decoder trims or drops. */
  lemma CanonicalTextIsPlain(data: seq<Byte>)
    ensures Trim(Encode(data)) == WithoutSpaces(Encode(data)) == Encode(data)
    ensures KeyText(Encode(data)) == Digits(Sextets(data))
  {
    var text, digits := Encode(data), Digits(Sextets(data));
    EncodeIsDigitsThenPads(data);
    DigitsAreDigits(Sextets(data));
    hide Encode, Trim, Digits, Sextets, DigitValues;
    assert forall c :: c in text ==> IsDigit(c) || c == PAD;
    assert forall c :: c in text ==> Printable(c);
    NothingToTrim(text);
    NothingToDrop(text);
    DropPads(digits, (3 - |data| % 3) % 3);
    NothingToDrop(digits);
  }

  /** Every decoder's reading of the canonical text of `data` is `data`. */
  lemma CanonicalTextDecodes(data: seq<Byte>)
    ensures var text := Encode(data);
      && Values(text) == Some(Sextets(data)) && Unpack(Sextets(data)) == data
      && Strict(WithoutSpaces(text)) == Some(data)
      && Values(Trim(text)) == Values(text)
      && Lenient(KeyText(text)) == Some(data)
  {
    var v := Sextets(data);
    CanonicalTextIsPlain(data);
    ValuesOfEncoding(data);
    UnpackInvertsSextets(data);
    EncodingShape(data);
    DigitsAreDigits(v);
    SextetCount(data);
    hide Encode, Sextets, Values, Unpack, KeyText, Lenient, Trim, WithoutSpaces;
    var r := |data| % 3;
    DivModUnique(|v|, |data| / 3, if r == 0 then 0 else r + 1, 4);
    DivModUnique(|Encode(data)|, (|data| + 2) / 3, 0, 4);
    LenientOfDigits(Digits(v));
    assert Unpack(v) + [] == Unpack(v);
  }

  /** All encoders produce one text, and every decoder gives the bytes back. */
  method EncodeAndDecodeEverywhere(data: seq<Byte>)
    returns (texts: seq<seq<Byte>>, strict: Option<seq<Byte>>, trimmed: Result<seq<Byte>, string>,
             stream: Option<seq<Byte>>, key: Result<seq<Byte>, string>)
    ensures |texts| == 3 && forall t :: t in texts ==> t == RfcEncode(data)
    ensures strict == Some(data) && trimmed == Ok(data) && key == Ok(data)
    ensures stream == if data == [] then None else Some(data)
  {
    var t0 := Base64Encoders.EncodeChunks(data);
    var t1 := Base64Encoders.EncodeBytes(data);
    var t2 := Base64Encoders.EncodeByRemainder(data);
    texts := [t0, t1, t2];
    EncodeIsRfc4648(data);
    CanonicalTextDecodes(data);
    hide Encode, RfcEncode, Values, Unpack, Strict, Lenient;
    strict := DecodeStdB64(t0);
    trimmed := DecodeTrimmed(t1);
    stream := DecodeStream(t2);
    key := DecodePk(t0);
  }
}
