/** Recovering transactions from the texts a node returns: hex when it looks like hex, base64 otherwise. */
module BlockTxs {
  import opened Wrappers
  import opened Bytes
  import opened Base64
  import opened Base64Decoders
  import opened Lnpr

  function HexValue(c: Byte): Option<int> {
    if 48 <= c <= 57 then Some(c - 48)
    else if 97 <= c <= 102 then Some(c - 97 + 10)
    else if 65 <= c <= 70 then Some(c - 65 + 10)
    else None
  }

  const HEX_LOWER: string := "0123456789abcdef"
  const HEX_UPPER: string := "0123456789ABCDEF"

  /** Hex digits in either case, and nothing else, have a value: their place in the alphabet. */
  lemma HexValueExactly(c: Byte, v: nat)
    requires v < 16
    ensures HexValue(c) == Some(v) <==> c == HEX_LOWER[v] as int || c == HEX_UPPER[v] as int
  {
    HexAlphabet(v);
  }

  lemma HexAlphabet(v: nat)
    requires v < 16
    ensures HEX_LOWER[v] as int == (if v < 10 then 48 + v else 87 + v)
    ensures HEX_UPPER[v] as int == (if v < 10 then 48 + v else 55 + v)
  {
  }

  lemma HexValuesAreDigits(c: Byte)
    ensures HexValue(c).Some? ==> 0 <= HexValue(c).value < 16
  {
  }

  predicate IsHexDigit(c: Byte) {
    HexValue(c).Some?
  }

  /** The texts that are taken for hex. */
  predicate LooksLikeHex(s: seq<Byte>) {
    |s| >= 8 && |s| % 2 == 0 && forall c :: c in s ==> IsHexDigit(c)
  }

  function HexBytes(s: seq<Byte>): seq<Byte>
    requires |s| % 2 == 0 && forall c :: c in s ==> IsHexDigit(c)
  {
    if |s| == 0 then []
    else
      assert s[0] in s && s[1] in s;
      HexByte(s[0], s[1]) + HexBytes(s[2..])
  }

  function HexByte(hi: Byte, lo: Byte): (b: seq<Byte>)
    requires IsHexDigit(hi) && IsHexDigit(lo)
    ensures |b| == 1
  {
    [16 * HexValue(hi).value + HexValue(lo).value]
  }

  /** The byte of every two digits, high digit first. */
  lemma {:induction false} HexBytesByDigits(s: seq<Byte>, i: nat)
    requires |s| % 2 == 0 && 2 * i < |s| && forall c :: c in s ==> IsHexDigit(c)
    ensures |HexBytes(s)| == |s| / 2 && s[2 * i] in s && s[2 * i + 1] in s
    ensures HexBytes(s)[i] == 16 * HexValue(s[2 * i]).value + HexValue(s[2 * i + 1]).value
  {
    HexBytesLength(s);
    assert s[0] in s && s[1] in s && s[2 * i] in s && s[2 * i + 1] in s;
    hide HexValue;
    if i > 0 {
      HexBytesByDigits(s[2..], i - 1);
      assert HexBytes(s)[i] == HexBytes(s[2..])[i - 1];
    }
  }

  /** What a transaction text stands for. */
  function DecodeTx(raw: seq<Byte>): Option<seq<Byte>> {
    var s := Trim(raw);
    if LooksLikeHex(s) then Some(HexBytes(s)) else Strict(WithoutSpaces(s))
  }

  /** Whitespace around a text does not matter. */
  lemma OuterSpacesAreIgnored(before: seq<seq<Byte>>, core: seq<Byte>, after: seq<seq<Byte>>)
    requires forall i :: 0 <= i < |before| ==> IsSpaceCharacter(before[i])
    requires forall i :: 0 <= i < |after| ==> IsSpaceCharacter(after[i])
    requires IsTrimmed(core)
    ensures DecodeTx(Concat(before) + (core + Concat(after)))
         == if LooksLikeHex(core) then Some(HexBytes(core)) else Strict(WithoutSpaces(core))
  {
    TrimDropsOuterSpaces(before, core, after);
    hide Concat, Trim, LooksLikeHex, Strict, WithoutSpaces, HexBytes, IsTrimmed;
  }

  lemma {:induction false} HexBytesAppend(front: seq<Byte>, hi: Byte, lo: Byte)
    requires |front| % 2 == 0 && forall c :: c in front ==> IsHexDigit(c)
    requires IsHexDigit(hi) && IsHexDigit(lo)
    ensures HexBytes(front + [hi, lo]) == HexBytes(front) + HexByte(hi, lo)
  {
    hide HexByte, IsHexDigit;
    if |front| == 0 {
      assert front + [hi, lo] == [hi, lo];
      assert HexBytes([hi, lo][2..]) == [];
    } else {
      HexBytesAppend(front[2..], hi, lo);
      assert (front + [hi, lo])[2..] == front[2..] + [hi, lo];
      ConcatAssoc(HexByte(front[0], front[1]), HexBytes(front[2..]), HexByte(hi, lo));
    }
  }

  lemma HexPrefix(s: seq<Byte>, i: nat)
    requires LooksLikeHex(s) && i <= |s| / 2
    ensures |s[..2 * i]| % 2 == 0 && forall c :: c in s[..2 * i] ==> IsHexDigit(c)
    ensures i < |s| / 2 ==>
      && IsHexDigit(s[2 * i]) && IsHexDigit(s[2 * i + 1])
      && (forall c :: c in s[..2 * (i + 1)] ==> IsHexDigit(c))
      && HexBytes(s[..2 * (i + 1)]) == HexBytes(s[..2 * i]) + HexByte(s[2 * i], s[2 * i + 1])
  {
    hide HexByte, IsHexDigit, HexBytes;
    if i < |s| / 2 {
      assert s[2 * i] in s && s[2 * i + 1] in s;
      assert s[..2 * (i + 1)] == s[..2 * i] + [s[2 * i], s[2 * i + 1]];
      HexBytesAppend(s[..2 * i], s[2 * i], s[2 * i + 1]);
    }
  }

  method DecodeHex(s: seq<Byte>) returns (out: seq<Byte>)
    requires LooksLikeHex(s)
    ensures out == HexBytes(s)
  {
    HexPrefix(s, 0);
    out := [];
    assert s[..0] == [];
    assert out == HexBytes(s[..2 * 0]);
    assert s[..2 * (|s| / 2)] == s;
    hide HexByte, IsHexDigit, HexBytes, LooksLikeHex;
    for i := 0 to |s| / 2
      invariant forall c :: c in s[..2 * i] ==> IsHexDigit(c)
      invariant out == HexBytes(s[..2 * i])
    {
      HexPrefix(s, i);
      out := out + HexByte(s[2 * i], s[2 * i + 1]);
    }
  }

  method DecodeTxBytes(raw: seq<Byte>) returns (r: Option<seq<Byte>>)
    ensures r == DecodeTx(raw)
  {
    hide HexBytes, Trim, Strict, WithoutSpaces;
    var s := Trim(raw);
    if LooksLikeHex(s) {
      var out := DecodeHex(s);
      return Some(out);
    }
    r := DecodeStdB64(s);
  }

  // ---- hex text ----

  function HexDigit(v: int): Byte
    requires 0 <= v < 16
  {
    if v < 10 then 48 + v else 87 + v
  }

  /** Two lower-case digits a byte. */
  function ToHex(tx: seq<Byte>): (text: seq<Byte>)
    ensures |text| == 2 * |tx|
    ensures forall c :: c in text ==> IsHexDigit(c)
  {
    if |tx| == 0 then [] else [HexDigit(tx[0] / 16), HexDigit(tx[0] % 16)] + ToHex(tx[1..])
  }

  lemma {:induction false} HexRoundTrip(tx: seq<Byte>)
    ensures HexBytes(ToHex(tx)) == tx
  {
    if |tx| > 0 {
      HexRoundTrip(tx[1..]);
      assert ToHex(tx)[2..] == ToHex(tx[1..]);
      assert tx == [tx[0]] + tx[1..];
    }
  }

  lemma HexIsPrintable(text: seq<Byte>)
    requires forall c :: c in text ==> IsHexDigit(c)
    ensures AllDigits(text) && forall c :: c in text ==> Printable(c)
  {
  }

  lemma HexTextIsPlain(tx: seq<Byte>)
    ensures Trim(ToHex(tx)) == WithoutSpaces(ToHex(tx)) == ToHex(tx)
    ensures AllDigits(ToHex(tx))
  {
    var text := ToHex(tx);
    HexIsPrintable(text);
    hide ToHex, Trim, WithoutSpaces, IsDigit, IsHexDigit;
    assert |text| > 0 ==> text[0] in text && text[|text| - 1] in text;
    NothingToTrim(text);
    NothingToDrop(text);
  }

  lemma HexTextIsTakenForHex(tx: seq<Byte>)
    ensures LooksLikeHex(ToHex(tx)) <==> |tx| >= 4
  {
    hide ToHex, IsHexDigit;
  }

  /**
   * Hex text of a transaction gives the transaction back exactly when the text is long enough to be taken
   * for hex, or empty.
   */
  lemma HexTextDecodes(tx: seq<Byte>)
    ensures DecodeTx(ToHex(tx)) == Some(tx) <==> |tx| >= 4 || |tx| == 0
  {
    hide Strict, Trim, WithoutSpaces, ToHex, HexBytes, AllDigits, LooksLikeHex;
    HexTextIsPlain(tx);
    HexTextIsTakenForHex(tx);
    if |tx| >= 4 {
      HexRoundTrip(tx);
    } else if |tx| == 0 {
      assert ToHex(tx) == [] == tx;
      StrictOfNothing();
    } else {
      ShortHexIsNotBack(ToHex(tx));
    }
  }

  /** Two, four or six digits read as base64 are three bytes or nothing. */
  lemma ShortHexIsNotBack(text: seq<Byte>)
    requires AllDigits(text) && |text| in {2, 4, 6}
    ensures Strict(text).Some? ==> |text| == 4 && |Strict(text).value| == 3
  {
    if |text| == 2 {
      StrictOfShortText(text);
    } else {
      StrictOfGroup(text);
      if |text| == 4 {
        StrictOfNothing();
        assert text[4..] == [];
      } else {
        StrictOfShortText(text[4..]);
      }
    }
  }

  // ---- base64 text ----

  /**
   * Base64 text of a transaction gives the transaction back exactly when the text does not happen to look
   * like hex.
   */
  lemma Base64TextDecodes(tx: seq<Byte>)
    ensures DecodeTx(Encode(tx)).Some?
    ensures DecodeTx(Encode(tx)) == Some(tx) <==> !LooksLikeHex(Encode(tx))
  {
    CanonicalTextDecodes(tx);
    CanonicalTextIsPlain(tx);
    hide Encode, Trim, Strict, WithoutSpaces, Sextets, Unpack, Values, Lenient, KeyText, LooksLikeHex, HexBytes;
    if LooksLikeHex(Encode(tx)) {
      HexLookingHasAnotherLength(tx);
    }
  }

  lemma PaddedAtTheEnd(tx: seq<Byte>)
    ensures |tx| % 3 != 0 ==> |Encode(tx)| > 0 && Encode(tx)[|Encode(tx)| - 1] == PAD
  {
    EncodingShape(tx);
    hide Encode, Sextets, IsDigit;
  }

  /** Base64 text without padding has four digits for three bytes, hex text would have six. */
  lemma HexLookingHasAnotherLength(tx: seq<Byte>)
    requires LooksLikeHex(Encode(tx))
    ensures |HexBytes(Encode(tx))| != |tx|
  {
    var text := Encode(tx);
    EncodingShape(tx);
    HexBytesLength(text);
    PaddedAtTheEnd(tx);
    assert text[|text| - 1] in text;
    hide Encode, Sextets, HexBytes, IsDigit;
  }

  lemma {:induction false} HexBytesLength(s: seq<Byte>)
    requires |s| % 2 == 0 && forall c :: c in s ==> IsHexDigit(c)
    ensures |HexBytes(s)| == |s| / 2
  {
    hide HexByte, IsHexDigit;
    if |s| > 0 {
      HexBytesLength(s[2..]);
    }
  }

  /** The values of the digits that are hex digits too. */
  predicate IsHexSextet(v: Sextet) {
    v <= 5 || 26 <= v <= 31 || 52 <= v <= 61
  }

  lemma HexDigitsOfSextets(v: Sextet)
    ensures IsHexDigit(Digit(v)) <==> IsHexSextet(v)
  {
  }

  lemma HexRun(v: seq<Sextet>)
    ensures (forall c :: c in Digits(v) ==> IsHexDigit(c)) <==> (forall x :: x in v ==> IsHexSextet(x))
  {
    var text := Digits(v);
    hide Digits, IsHexSextet, IsHexDigit;
    forall i | 0 <= i < |v|
      ensures IsHexDigit(text[i]) <==> IsHexSextet(v[i])
    {
      HexDigitsOfSextets(v[i]);
    }
    if forall c :: c in text ==> IsHexDigit(c) {
      forall x | x in v
        ensures IsHexSextet(x)
      {
        var i :| 0 <= i < |v| && v[i] == x;
        assert text[i] in text;
      }
    }
    if forall x :: x in v ==> IsHexSextet(x) {
      forall c | c in text
        ensures IsHexDigit(c)
      {
        var i :| 0 <= i < |text| && text[i] == c;
        assert v[i] in v;
      }
    }
  }

  /** Which transactions have a Base64 text that looks like hex, told from their bytes. */
  lemma HexLookingExactly(tx: seq<Byte>)
    ensures LooksLikeHex(Encode(tx))
       <==> |tx| >= 6 && |tx| % 3 == 0 && forall v :: v in Sextets(tx) ==> IsHexSextet(v)
  {
    hide Encode, Sextets, Digits, IsHexDigit, IsHexSextet;
    var text := Encode(tx);
    if |tx| % 3 != 0 {
      PaddedAtTheEnd(tx);
      PadIsNoHexDigit();
      assert text[|text| - 1] in text;
    } else {
      WholeGroupsNeedNoPads(tx);
      HexRun(Sextets(tx));
    }
  }

  lemma WholeGroupsNeedNoPads(tx: seq<Byte>)
    requires |tx| % 3 == 0
    ensures Encode(tx) == Digits(Sextets(tx))
    ensures |Encode(tx)| % 2 == 0 && (|Encode(tx)| >= 8 <==> |tx| >= 6)
  {
    hide Encode, Sextets, Digits;
    var groups := |tx| / 3;
    EncodeIsDigitsThenPads(tx);
    SextetCount(tx);
    NoPads(Digits(Sextets(tx)), groups);
    assert |Sextets(tx)| == 4 * groups && |tx| == groups * 3;
    DivModUnique(4 * groups, 2 * groups, 0, 2);
  }

  lemma PadIsNoHexDigit()
    ensures !IsHexDigit(PAD)
  {
  }

  /** Every transaction of even length, from four bytes on, is what some other one's Base64 text is taken for. */
  lemma HexTextHasADouble(tx: seq<Byte>) returns (double: seq<Byte>)
    requires |tx| >= 4 && |tx| % 2 == 0
    ensures Encode(double) == ToHex(tx) && double != tx
    ensures DecodeTx(Encode(double)) == Some(tx)
    ensures LooksLikeHex(Encode(double)) && HexBytes(Encode(double)) == tx
  {
    hide ToHex, Trim, WithoutSpaces, LooksLikeHex, HexBytes, Encode, Strict, AllDigits;
    HexTextIsPlain(tx);
    HexTextIsTakenForHex(tx);
    HexRoundTrip(tx);
    double := DigitTextIsSomeEncoding(ToHex(tx));
  }

  /** Every run of digits of a length that four divides is the Base64 text of some bytes. */
  lemma DigitTextIsSomeEncoding(text: seq<Byte>) returns (data: seq<Byte>)
    requires AllDigits(text) && |text| % 4 == 0
    ensures Encode(data) == text && |data| == |text| / 4 * 3
  {
    hide AllDigits, Digits, DigitValues, Unpack, Sextets, Encode, Pads;
    var v := DigitValues(text);
    data := Unpack(v);
    SextetsOfUnpack(v);
    EncodeIsDigitsThenPads(data);
    DigitsOfValues(text);
    NoPads(text, |text| / 4);
  }

  lemma NoPads(text: seq<Byte>, groups: nat)
    ensures text + Pads((3 - groups * 3 % 3) % 3) == text
  {
    DivModUnique(groups * 3, groups, 0, 3);
  }

  lemma DigitsOfValues(text: seq<Byte>)
    requires AllDigits(text)
    ensures Digits(DigitValues(text)) == text
  {
    forall i | 0 <= i < |text|
      ensures Digits(DigitValues(text))[i] == text[i]
    {
      DigitOfValue(text[i]);
    }
  }

  lemma DigitOfValue(c: Byte)
    ensures DigitValue(c).Some? ==> Digit(DigitValue(c).value) == c
  {
  }

  /** A transaction that is not recovered: its Base64 text is eight zeros. */
  lemma ZerosAreMisread()
    ensures var tx: seq<Byte> := [0xD3, 0x4D, 0x34, 0xD3, 0x4D, 0x34];
      LooksLikeHex(Encode(tx)) && DecodeTx(Encode(tx)).Some? && DecodeTx(Encode(tx)) != Some(tx)
  {
    var tx: seq<Byte> := [0xD3, 0x4D, 0x34, 0xD3, 0x4D, 0x34];
    assert tx[3..] == [0xD3, 0x4D, 0x34];
    assert GroupSextets(tx[..3]) == [52, 52, 52, 52] == GroupSextets(tx[3..]);
    assert Sextets(tx) == [52, 52, 52, 52] + [52, 52, 52, 52];
    HexLookingExactly(tx);
    Base64TextDecodes(tx);
  }

  /** The records of the protocol never look like hex: their texts start with 'T' or 'S'. */
  lemma RecordTextDecodes(tx: seq<Byte>)
    requires HasPrefix(tx, PREFIX_LNPR) || HasPrefix(tx, PREFIX_HMVE)
    ensures DecodeTx(Encode(tx)) == Some(tx)
  {
    assert tx[0] == 0x4C || tx[0] == 0x48;
    Base64TextDecodes(tx);
    FirstDigit(tx);
    hide Encode, DecodeTx;
    assert Encode(tx)[0] in Encode(tx);
  }

  lemma FirstDigit(tx: seq<Byte>)
    requires |tx| > 0
    ensures |Encode(tx)| > 0 && Encode(tx)[0] == Digit(tx[0] / 4)
  {
    EncodeIsDigitsThenPads(tx);
    hide Encode, Digits;
    assert Sextets(tx)[0] == tx[0] / 4;
  }

  // ---- a block ----

  function EncodeAll(txs: seq<seq<Byte>>): (texts: seq<seq<Byte>>)
    ensures |texts| == |txs|
    ensures forall i :: 0 <= i < |txs| ==> texts[i] == Encode(txs[i])
  {
    if |txs| == 0 then [] else [Encode(txs[0])] + EncodeAll(txs[1..])
  }

  /** The transactions of a block: texts that do not decode are skipped. */
  function TxsFromBlock(texts: seq<seq<Byte>>): seq<seq<Byte>> {
    if |texts| == 0 then []
    else (match DecodeTx(texts[0]) case Some(tx) => [tx] case None => []) + TxsFromBlock(texts[1..])
  }

  method DecodeBlock(texts: seq<seq<Byte>>) returns (txs: seq<seq<Byte>>)
    ensures txs == TxsFromBlock(texts)
  {
    hide DecodeTx;
    txs := [];
    assert texts[0..] == texts && [] + TxsFromBlock(texts) == TxsFromBlock(texts);
    for i := 0 to |texts|
      invariant txs + TxsFromBlock(texts[i..]) == TxsFromBlock(texts)
    {
      var tx := DecodeTxBytes(texts[i]);
      ghost var rest := texts[i..];
      assert rest[1..] == texts[i + 1..];
      if tx.Some? {
        ghost var more := TxsFromBlock(texts[i + 1..]);
        ConcatAssoc(txs, [tx.value], more);
        txs := txs + [tx.value];
      }
    }
    assert txs + [] == txs;
  }

  /** Texts are decoded one by one in order; one that does not decode is skipped. */
  lemma TextsAreDecodedInOrder(x: seq<seq<Byte>>, y: seq<seq<Byte>>, text: seq<Byte>)
    ensures TxsFromBlock(x + y) == TxsFromBlock(x) + TxsFromBlock(y)
    ensures DecodeTx(text) == None ==> TxsFromBlock([text]) == []
    ensures DecodeTx(text).Some? ==> TxsFromBlock([text]) == [DecodeTx(text).value]
  {
    hide DecodeTx;
    TxsFromBlockConcat(x, y);
    assert [text][1..] == [];
  }

  lemma {:induction false} TxsFromBlockConcat(x: seq<seq<Byte>>, y: seq<seq<Byte>>)
    ensures TxsFromBlock(x + y) == TxsFromBlock(x) + TxsFromBlock(y)
  {
    hide DecodeTx;
    if |x| == 0 {
      assert x + y == y;
    } else {
      TxsFromBlockConcat(x[1..], y);
      assert (x + y)[1..] == x[1..] + y;
      var first := match DecodeTx(x[0]) case Some(tx) => [tx] case None => [];
      ConcatAssoc(first, TxsFromBlock(x[1..]), TxsFromBlock(y));
    }
  }

  /** No transaction is lost, and all are recovered exactly when no text looks like hex. */
  lemma {:induction false} BlockIsRecovered(txs: seq<seq<Byte>>)
    ensures |TxsFromBlock(EncodeAll(txs))| == |txs|
    ensures TxsFromBlock(EncodeAll(txs)) == txs <==> forall tx :: tx in txs ==> !LooksLikeHex(Encode(tx))
    ensures forall i :: 0 <= i < |txs| ==> DecodeTx(Encode(txs[i])) == Some(TxsFromBlock(EncodeAll(txs))[i])
  {
    hide LooksLikeHex, Encode, DecodeTx;
    if |txs| > 0 {
      BlockIsRecovered(txs[1..]);
      Base64TextDecodes(txs[0]);
      var texts, rest := EncodeAll(txs), TxsFromBlock(EncodeAll(txs[1..]));
      assert texts[1..] == EncodeAll(txs[1..]);
      assert TxsFromBlock(texts) == [DecodeTx(texts[0]).value] + rest;
      assert TxsFromBlock(texts)[0] == DecodeTx(texts[0]).value && TxsFromBlock(texts)[1..] == rest;
      assert txs[0] in txs && txs == [txs[0]] + txs[1..];
    }
  }

  /** A transaction whose Base64 text is taken for the hex text of a proposal record. */
  predicate ReadsAsRecord(tx: seq<Byte>) {
    LooksLikeHex(Encode(tx)) && DecodeBlob(HexBytes(Encode(tx))).Some?
  }

  /** A transaction whose Base64 text is taken for the hex text of a vote-extension record. */
  predicate ReadsAsExtension(tx: seq<Byte>) {
    LooksLikeHex(Encode(tx)) && HasPrefix(HexBytes(Encode(tx)), PREFIX_HMVE)
  }

  /** There are such transactions: one for every record of even length. */
  lemma RecordsHaveDoubles(record: seq<Byte>) returns (double: seq<Byte>)
    requires |record| >= 4 && |record| % 2 == 0
    ensures ReadsAsRecord(double) <==> DecodeBlob(record).Some?
    ensures ReadsAsExtension(double) <==> HasPrefix(record, PREFIX_HMVE)
  {
    hide Encode, DecodeTx, ToHex, HexBytes, LooksLikeHex, DecodeBlob;
    double := HexTextHasADouble(record);
  }

  /** A misread transaction is no record itself; it becomes one only if its text is the hex text of one. */
  lemma MisreadIsNoRecord(tx: seq<Byte>, read: seq<Byte>)
    requires DecodeTx(Encode(tx)) == Some(read)
    ensures SameOrTurned(tx, read)
    ensures if ReadsAsExtension(tx) then !HasPrefix(tx, PREFIX_HMVE) && HasPrefix(read, PREFIX_HMVE)
            else HasPrefix(read, PREFIX_HMVE) == HasPrefix(tx, PREFIX_HMVE)
  {
    Base64TextDecodes(tx);
    if LooksLikeHex(Encode(tx)) {
      if HasPrefix(tx, PREFIX_LNPR) || HasPrefix(tx, PREFIX_HMVE) {
        RecordTextDecodes(tx);
      }
      CanonicalTextIsPlain(tx);
      hide Encode, Trim, Strict, WithoutSpaces, KeyText;
      assert read == HexBytes(Encode(tx));
      OnlyRecordsDecode(tx);
      OnlyRecordsDecode(read);
    }
  }

  lemma OnlyRecordsDecode(tx: seq<Byte>)
    ensures DecodeBlob(tx).Some? ==> HasPrefix(tx, PREFIX_LNPR)
  {
  }

  /** What a misreading can do to one transaction as a record. */
  predicate SameOrTurned(tx: seq<Byte>, read: seq<Byte>) {
    if ReadsAsRecord(tx) then DecodeBlob(tx).None? && DecodeBlob(read).Some?
    else DecodeBlob(read) == DecodeBlob(tx)
  }

  /** When some transactions turn into records, the first record stays the same unless one before it turned. */
  lemma FirstRecordOfRead(txs: seq<seq<Byte>>, read: seq<seq<Byte>>)
    requires |txs| == |read| && forall i :: 0 <= i < |txs| ==> SameOrTurned(txs[i], read[i])
    ensures FirstRecord(read) == FirstRecord(txs)
       <==> forall i :: 0 <= i < FirstIndex(txs) ==> !ReadsAsRecord(txs[i])
  {
    hide DecodeBlob, ReadsAsRecord;
    var first := FirstIndex(txs);
    assert first < |txs| ==> SameOrTurned(txs[first], read[first]);
    if i :| 0 <= i < first && ReadsAsRecord(txs[i]) {
      assert SameOrTurned(txs[i], read[i]) && FirstIndex(read) <= i;
    } else {
      assert forall i :: 0 <= i < first ==> SameOrTurned(txs[i], read[i]) && DecodeBlob(read[i]).None?;
    }
  }

  /**
   * The lookup of the proposal record through the texts of a block. It finds the first record of the block
   * exactly when no transaction before it reads as one, and expects the slot of the block exactly when the
   * first transaction does not read as a vote extension. When both hold, the record is found at the expected
   * index exactly when the transaction there decodes.
   */
  method FindLnprInBlock(txs: seq<seq<Byte>>) returns (found: Option<(LnprBlob, nat)>, want: nat)
    ensures var decoded := TxsFromBlock(EncodeAll(txs));
      && found == FirstRecord(decoded) && want == ExpectedLnprIndex(decoded)
      && ((found.Some? && found.value.1 == want) <==> (want < |decoded| && DecodeBlob(decoded[want]).Some?))
    ensures found == FirstRecord(txs) <==> forall i :: 0 <= i < FirstIndex(txs) ==> !ReadsAsRecord(txs[i])
    ensures want == ExpectedLnprIndex(txs) <==> |txs| == 0 || !ReadsAsExtension(txs[0])
    ensures found == FirstRecord(txs) && want == ExpectedLnprIndex(txs) ==>
      ((found.Some? && found.value.1 == want) <==> (want < |txs| && DecodeBlob(txs[want]).Some?))
  {
    hide LooksLikeHex, Encode, DecodeBlob, DecodeTx, ReadsAsRecord, ReadsAsExtension, SameOrTurned, FirstRecord;
    BlockIsRecovered(txs);
    var decoded := DecodeBlock(EncodeAll(txs));
    found := FindLnpr(decoded);
    want := ExpectedLnprIndex(decoded);
    forall i | 0 <= i < |txs|
      ensures SameOrTurned(txs[i], decoded[i])
    {
      MisreadIsNoRecord(txs[i], decoded[i]);
    }
    FirstRecordOfRead(txs, decoded);
    if |txs| > 0 {
      MisreadIsNoRecord(txs[0], decoded[0]);
    }
    RecordInSlot(txs);
  }

  /** Among the transactions themselves the first record is in the expected slot exactly when that decodes. */
  lemma RecordInSlot(txs: seq<seq<Byte>>)
    ensures var found, want := FirstRecord(txs), ExpectedLnprIndex(txs);
            (found.Some? && found.value.1 == want) <==> (want < |txs| && DecodeBlob(txs[want]).Some?)
  {
    if |txs| > 0 && HasPrefix(txs[0], PREFIX_HMVE) {
      HmveDoesNotDecode(txs[0]);
    }
    hide DecodeBlob;
  }
}
