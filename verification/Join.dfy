/** The JOIN and LEAV registration records and the identity a certificate is checked for. */
module Join {
  import opened Wrappers
  import opened Bytes
  import opened Base64
  import Base64Encoders
  import Base64Decoders
  import opened Lnpr

  const JOIN: seq<Byte> := [0x4A, 0x4F, 0x49, 0x4E]
  const LEAV: seq<Byte> := [0x4C, 0x45, 0x41, 0x56]
  const STWO: seq<Byte> := [0x53, 0x54, 0x57, 0x4F]
  const DSTW: seq<Byte> := [0x44, 0x53, 0x54, 0x57]

  /** Tag, version, period and length-prefixed subject; the subject is cut to 255 bytes. */
  function Registration(tag: seq<Byte>, period: u64, subject: seq<Byte>): seq<Byte> {
    tag + ([1] + (BeBytes(period, 8) + ([|Cut(subject)|] + Cut(subject))))
  }

  function EncodeLeave(period: u64, subject: seq<Byte>): seq<Byte> {
    Registration(LEAV, period, subject)
  }

  /** A JOIN with the bytes appended as its proof. */
  function EncodeJoin(period: u64, subject: seq<Byte>, weight: i64, proof: seq<Byte>): seq<Byte> {
    Registration(JOIN, period, subject) + (BeBytes(AsU64(weight), 8) + proof)
  }

  // ---- the proof attached to a JOIN ----

  predicate Contains(p: seq<Byte>, word: seq<Byte>) {
    word <= p || (|p| > 0 && Contains(p[1..], word))
  }

  /** What is kept of the prover's output: real proofs only, nothing that holds a dummy's magic. */
  function KeepRealProof(output: Option<seq<Byte>>): Option<seq<Byte>> {
    match output
    case None => None
    case Some(p) => if STWO <= p && !Contains(p, DSTW) then Some(p) else None
  }

  method EncodeJoinWithIndex(period: u64, subject: seq<Byte>, weight: i64, proverOutput: Option<seq<Byte>>)
    returns (r: Result<seq<Byte>, string>)
    ensures r.Ok?  // the panic on a dummy proof cannot be reached
    ensures r.value == EncodeJoin(period, subject, weight, KeepRealProof(proverOutput).UnwrapOr([]))
    ensures ReadJoin(r.value) == Some((period, Cut(subject), weight, KeepRealProof(proverOutput).UnwrapOr([])))
  {
    JoinReadsBack(period, subject, weight, KeepRealProof(proverOutput).UnwrapOr([]));
    hide ReadJoin, EncodeJoin;
    JoinIsRegistration(period, subject, weight, KeepRealProof(proverOutput).UnwrapOr([]));
    hide BeBytes;
    var subj := if |subject| > 255 then subject[..255] else subject;
    var out := JOIN;
    out := out + [1];
    out := out + BeBytes(period, 8);
    out := out + [|subj|];
    out := out + subj;
    PushFiveFields([], JOIN, [1], BeBytes(period, 8), [|subj|], subj);
    ghost var head := out;
    out := out + BeBytes(AsU64(weight), 8);
    var kept := KeepRealProof(proverOutput);
    if kept.Some? {
      assert kept.value[0] == STWO[0] != DSTW[0];
      if DSTW <= kept.value {
        assert false;
        return Err("encode_join must not carry Dummy DSTW");
      }
      ConcatAssoc(head, BeBytes(AsU64(weight), 8), kept.value);
      out := out + kept.value;
    } else {
      ConcatAssoc(head, BeBytes(AsU64(weight), 8), []);
    }
    return Ok(out);
  }

  /** The production example appends no proof. */
  method EncodeJoinWithoutProof(period: u64, subject: seq<Byte>, weight: i64) returns (out: seq<Byte>)
    ensures out == EncodeJoin(period, subject, weight, [])
    ensures ReadJoin(out) == Some((period, Cut(subject), weight, []))
  {
    JoinReadsBack(period, subject, weight, []);
    hide ReadJoin;
    hide BeBytes;
    var subj := if |subject| > 255 then subject[..255] else subject;
    out := JOIN;
    out := out + [1];
    out := out + BeBytes(period, 8);
    out := out + [|subj|];
    out := out + subj;
    PushFiveFields([], JOIN, [1], BeBytes(period, 8), [|subj|], subj);
    out := out + BeBytes(AsU64(weight), 8);
    assert BeBytes(AsU64(weight), 8) + [] == BeBytes(AsU64(weight), 8);
  }

  /** A LEAV, whose fields are found again at fixed places. */
  method EncodeLeaveRecord(period: u64, subject: seq<Byte>) returns (out: seq<Byte>)
    ensures out == EncodeLeave(period, subject)
    ensures ReadLeave(out) == Some((period, Cut(subject)))
  {
    LeaveReadsBack(period, subject);
    hide BeBytes;
    var subj := if |subject| > 255 then subject[..255] else subject;
    out := LEAV;
    out := out + [1];
    out := out + BeBytes(period, 8);
    out := out + [|subj|];
    out := out + subj;
    PushFiveFields([], LEAV, [1], BeBytes(period, 8), [|subj|], subj);
  }

  // ---- the subject read back ----

  /** The subject of a JOIN, if the bytes hold one. */
  function JoinSubject(join: seq<Byte>): Option<seq<Byte>> {
    if |join| < 4 + 1 + 8 + 1 || join[..4] != JOIN then None
    else
      var alen := join[13];
      if |join| < 14 + (alen as int) then None else Some(join[14..14 + (alen as int)])
  }

  method JoinSubjectB64(join: seq<Byte>) returns (r: Option<seq<Byte>>)
    ensures r == match JoinSubject(join) { case None => None case Some(subject) => Some(Encode(subject)) }
  {
    hide Encode;
    if |join| < 4 + 1 + 8 + 1 {
      return None;
    }
    if join[..4] != JOIN {
      return None;
    }
    var alen: int := join[4 + 1 + 8];
    var start := 4 + 1 + 8 + 1;
    if |join| < start + alen {
      return None;
    }
    var text := Base64Encoders.EncodeByRemainder(join[start..start + alen]);
    return Some(text);
  }

  /** Where the fields of a registration lie, whatever follows it. */
  lemma RegistrationFields(tag: seq<Byte>, period: u64, subject: seq<Byte>, tail: seq<Byte>)
    requires |tag| == 4
    ensures var r := Registration(tag, period, subject) + tail;
      && |r| == 14 + |Cut(subject)| + |tail|
      && r[..4] == tag && r[4] == 1 && r[5..13] == BeBytes(period, 8) && r[13] == |Cut(subject)|
      && r[14..14 + |Cut(subject)|] == Cut(subject) && r[14 + |Cut(subject)|..] == tail
  {
    hide BeBytes, Cut;
  }

  // ---- records read back by their layout ----

  lemma TagsAsText()
    ensures JOIN == Ascii("JOIN") && LEAV == Ascii("LEAV") && STWO == Ascii("STWO") && DSTW == Ascii("DSTW")
  {
  }

  /** What the layout makes of bytes as a JOIN: period, subject, weight and proof. */
  function ReadJoin(join: seq<Byte>): Option<(u64, seq<Byte>, i64, seq<Byte>)> {
    if |join| < 14 || join[..4] != Ascii("JOIN") || join[4] != 1 then None
    else
      var n: int := join[13];
      if |join| < 22 + n then None
      else Some((Word8(join[5..13]), join[14..14 + n], AsI64(Word8(join[14 + n..22 + n])), join[22 + n..]))
  }

  lemma JoinIsRegistration(period: u64, subject: seq<Byte>, weight: i64, proof: seq<Byte>)
    ensures EncodeJoin(period, subject, weight, proof)
         == Registration(JOIN, period, subject) + (BeBytes(AsU64(weight), 8) + proof)
  {
  }

  /** A JOIN is read back: its subject cut to 255 bytes, its period, weight and proof as they were. */
  lemma JoinReadsBack(period: u64, subject: seq<Byte>, weight: i64, proof: seq<Byte>)
    ensures ReadJoin(EncodeJoin(period, subject, weight, proof)) == Some((period, Cut(subject), weight, proof))
  {
    hide BeBytes, Cut, Registration, Word8;
    TagsAsText();
    var tail := BeBytes(AsU64(weight), 8) + proof;
    RegistrationFields(JOIN, period, subject, tail);
    var join, n := EncodeJoin(period, subject, weight, proof), |Cut(subject)|;
    assert join[14 + n..][..8] == join[14 + n..22 + n] && join[14 + n..][8..] == join[22 + n..];
    ReadBack(BeBytes(AsU64(weight), 8), proof);
    BytesOfWord8(period);
    BytesOfWord8(AsU64(weight));
    SignRoundTrips(weight);
  }

  lemma JoinInFields(join: seq<Byte>, n: nat)
    requires |join| >= 22 + n
    ensures join == (join[..4] + ([join[4]] + (join[5..13] + ([join[13]] + join[14..14 + n]))))
                    + (join[14 + n..22 + n] + join[22 + n..])
  {
    Split(join, 14 + n);
    LeaveInFields(join[..14 + n]);
    Split(join[14 + n..], 8);
    assert join[14 + n..][..8] == join[14 + n..22 + n] && join[14 + n..][8..] == join[22 + n..];
    assert join[..14 + n][..4] == join[..4] && join[..14 + n][5..13] == join[5..13];
    assert join[..14 + n][14..] == join[14..14 + n];
  }

  /** Bytes are read as a JOIN exactly when they are the JOIN written for what is read. */
  lemma JoinIsCanonical(join: seq<Byte>, period: u64, subject: seq<Byte>, weight: i64, proof: seq<Byte>)
    ensures ReadJoin(join) == Some((period, subject, weight, proof))
       <==> |subject| <= 255 && join == EncodeJoin(period, subject, weight, proof)
  {
    if |subject| <= 255 && join == EncodeJoin(period, subject, weight, proof) {
      JoinReadsBack(period, subject, weight, proof);
    }
    if ReadJoin(join) == Some((period, subject, weight, proof)) {
      TagsAsText();
      var n: nat := join[13];
      WordIsBytes(join[5..13]);
      WordIsBytes(join[14 + n..22 + n]);
      hide BeBytes, Word8;
      JoinInFields(join, n);
      assert AsU64(AsI64(Word8(join[14 + n..22 + n]))) == Word8(join[14 + n..22 + n]);
    }
  }

  lemma WordIsBytes(s: seq<Byte>)
    requires |s| == 8
    ensures BeBytes(Word8(s), 8) == s
  {
    BeWord8(s);
    BeBytesOfValue(s, 8);
  }

  /** What is kept of the prover's output: one that starts as a real proof and nowhere holds a dummy's magic. */
  lemma KeptProofs(output: Option<seq<Byte>>, proof: seq<Byte>)
    ensures KeepRealProof(output) == Some(proof)
       <==> output == Some(proof) && Ascii("STWO") <= proof
            && !exists front, back :: proof == front + (Ascii("DSTW") + back)
  {
    TagsAsText();
    ContainsSomewhere(proof, DSTW);
  }

  lemma {:induction false} ContainsSomewhere(p: seq<Byte>, word: seq<Byte>)
    ensures Contains(p, word) <==> exists front, back :: p == front + (word + back)
  {
    if word <= p {
      assert p == [] + (word + p[|word|..]);
    } else if |p| > 0 {
      ContainsSomewhere(p[1..], word);
      if front, back :| p[1..] == front + (word + back) {
        ConcatAssoc([p[0]], front, word + back);
        assert p == ([p[0]] + front) + (word + back);
      }
      forall front, back | p == front + (word + back)
        ensures Contains(p, word)
      {
        FrontOfSplit(p, front, word, back);
      }
    } else {
      forall front, back
        ensures p == front + (word + back) ==> word <= p
      {
        FrontOfSplit(p, front, word, back);
      }
    }
  }

  lemma FrontOfSplit(p: seq<Byte>, front: seq<Byte>, word: seq<Byte>, back: seq<Byte>)
    ensures p == front + (word + back) ==>
              |p| >= |front| && if |front| == 0 then word <= p else p[1..] == front[1..] + (word + back)
  {
    if p == front + (word + back) && |front| == 0 {
      assert p == word + back;
    }
  }

  /** The subject is what is length-prefixed behind the tag and nine more bytes, whatever follows it. */
  lemma JoinSubjectIsPrefixed(join: seq<Byte>, subject: seq<Byte>)
    ensures JoinSubject(join) == Some(subject)
       <==> |subject| <= 255
            && exists middle, tail :: |middle| == 9
                 && join == Ascii("JOIN") + (middle + ([|subject|] + (subject + tail)))
  {
    TagsAsText();
    if JoinSubject(join) == Some(subject) {
      var n := |subject|;
      Split(join, 4);
      Split(join[4..], 9);
      assert join[4..][..9] == join[4..13] && join[4..][9..] == join[13..];
      assert join[13..] == [join[13]] + join[14..];
      Split(join[14..], n);
      assert join[14..][..n] == subject && join[14..][n..] == join[14 + n..];
      assert join == Ascii("JOIN") + (join[4..13] + ([|subject|] + (subject + join[14 + n..])));
    }
    if |subject| <= 255 {
      forall middle, tail
        | |middle| == 9 && join == Ascii("JOIN") + (middle + ([|subject|] + (subject + tail)))
        ensures JoinSubject(join) == Some(subject)
      {
        assert join[..4] == Ascii("JOIN") && join[13] == |subject| && join[14..] == subject + tail;
        assert join[14..][..|subject|] == join[14..14 + |subject|];
      }
    }
  }

  /** What the layout makes of bytes as a LEAV: its period and subject. The chain's own reader is elsewhere. */
  function ReadLeave(leave: seq<Byte>): Option<(u64, seq<Byte>)> {
    if |leave| < 14 || leave[..4] != Ascii("LEAV") || leave[4] != 1 || |leave| != 14 + (leave[13] as int) then None
    else Some((Word8(leave[5..13]), leave[14..]))
  }

  lemma LeaveReadsBack(period: u64, subject: seq<Byte>)
    ensures ReadLeave(EncodeLeave(period, subject)) == Some((period, Cut(subject)))
  {
    hide BeBytes, Cut, Registration, Word8;
    TagsAsText();
    var leave := EncodeLeave(period, subject);
    RegistrationFields(LEAV, period, subject, []);
    assert leave + [] == leave;
    BytesOfWord8(period);
  }

  /** Bytes read as a LEAV of a period and a subject exactly when they are the LEAV written for them. */
  lemma LeaveIsCanonical(leave: seq<Byte>, period: u64, subject: seq<Byte>)
    ensures ReadLeave(leave) == Some((period, subject))
       <==> |subject| <= 255 && leave == EncodeLeave(period, subject)
  {
    if |subject| <= 255 && leave == EncodeLeave(period, subject) {
      LeaveReadsBack(period, subject);
    }
    if ReadLeave(leave) == Some((period, subject)) {
      TagsAsText();
      WordIsBytes(leave[5..13]);
      hide BeBytes, Word8;
      LeaveInFields(leave);
    }
  }

  lemma LeaveInFields(leave: seq<Byte>)
    requires |leave| >= 14
    ensures leave == leave[..4] + ([leave[4]] + (leave[5..13] + ([leave[13]] + leave[14..])))
  {
    Split(leave, 4);
    Split(leave[5..], 8);
    assert leave[4..] == [leave[4]] + leave[5..];
    assert leave[5..][..8] == leave[5..13] && leave[5..][8..] == leave[13..];
    assert leave[13..] == [leave[13]] + leave[14..];
  }

  /** Two LEAVs are equal exactly when they agree in period and cut subject. */
  lemma LeaveIsInjective(p1: u64, s1: seq<Byte>, p2: u64, s2: seq<Byte>)
    ensures EncodeLeave(p1, s1) == EncodeLeave(p2, s2) <==> p1 == p2 && Cut(s1) == Cut(s2)
  {
    LeaveReadsBack(p1, s1);
    LeaveReadsBack(p2, s2);
    hide BeBytes, Cut, ReadLeave;
  }

  /** A JOIN of any period, weight and proof names its subject, cut to 255 bytes; a LEAV names nobody. */
  lemma JoinNamesItsSubject(period: u64, subject: seq<Byte>, weight: i64, proof: seq<Byte>)
    ensures JoinSubject(EncodeJoin(period, subject, weight, proof)) == Some(Cut(subject))
    ensures JoinSubject(EncodeLeave(period, subject)) == None
  {
    hide BeBytes, Cut, Registration;
    RegistrationFields(JOIN, period, subject, BeBytes(AsU64(weight), 8) + proof);
    RegistrationFields(LEAV, period, subject, []);
    var leave := EncodeLeave(period, subject);
    assert leave + [] == leave;
    assert LEAV[0] != JOIN[0];
  }

  /** Two equal JOINs agree in period, cut subject, weight and proof. */
  lemma JoinIsInjective(p1: u64, s1: seq<Byte>, w1: i64, proof1: seq<Byte>,
                        p2: u64, s2: seq<Byte>, w2: i64, proof2: seq<Byte>)
    requires EncodeJoin(p1, s1, w1, proof1) == EncodeJoin(p2, s2, w2, proof2)
    ensures p1 == p2 && Cut(s1) == Cut(s2) && w1 == w2 && proof1 == proof2
  {
    hide BeBytes, BeValue, Cut, Registration;
    var t1, t2 := BeBytes(AsU64(w1), 8) + proof1, BeBytes(AsU64(w2), 8) + proof2;
    RegistrationFields(JOIN, p1, s1, t1);
    RegistrationFields(JOIN, p2, s2, t2);
    WordSizes();
    BeValueOfBytes(p1, 8);
    BeValueOfBytes(p2, 8);
    BeValueOfBytes(AsU64(w1), 8);
    BeValueOfBytes(AsU64(w2), 8);
    ReadBack(BeBytes(AsU64(w1), 8), proof1);
    ReadBack(BeBytes(AsU64(w2), 8), proof2);
    SignRoundTrips(w1);
    SignRoundTrips(w2);
  }

  /** The text looked for in the certificate after a key's text was decoded and registered. */
  predicate RegisteredAs(pk: seq<Byte>, identity: Option<seq<Byte>>) {
    match Base64Decoders.Lenient(Base64Decoders.KeyText(pk))
    case None => identity == None
    case Some(key) => identity == Some(Encode(Cut(key)))
  }

  /**
   * The registration flow: a public key's text is decoded, registered in a JOIN, and read back as the text
   * that is looked for in the certificate. It is the key's text exactly when that is the canonical base64
   * of at most 255 bytes.
   */
  method RegisterKey(pk: seq<Byte>, period: u64, weight: i64, proverOutput: Option<seq<Byte>>)
    returns (identity: Option<seq<Byte>>)
    ensures RegisteredAs(pk, identity)
    ensures identity == Some(pk) <==> exists key: seq<Byte> :: pk == Encode(key) && |key| <= 255
  {
    hide Encode, Base64Decoders.Lenient, Base64Decoders.KeyText, EncodeJoin;
    CanonicalKeyOnly(pk);
    var subject := Base64Decoders.DecodePk(pk);
    if subject.Err? {
      return None;
    }
    var join := EncodeJoinWithIndex(period, subject.value, weight, proverOutput);
    JoinNamesItsSubject(period, subject.value, weight, KeepRealProof(proverOutput).UnwrapOr([]));
    identity := JoinSubjectB64(join.value);
  }

  lemma CanonicalKeyOnly(pk: seq<Byte>)
    ensures RegisteredAs(pk, Some(pk)) <==> exists key: seq<Byte> :: pk == Encode(key) && |key| <= 255
  {
    hide Encode, Base64Decoders.Lenient, Base64Decoders.KeyText;
    if RegisteredAs(pk, Some(pk)) {
      var key := Base64Decoders.Lenient(Base64Decoders.KeyText(pk)).value;
      assert pk == Encode(Cut(key)) && |Cut(key)| <= 255;
    }
    if key: seq<Byte> :| pk == Encode(key) && |key| <= 255 {
      Base64Decoders.CanonicalTextDecodes(key);
    }
  }

  /** The canonical text of a key of at most 255 bytes is the identity its JOIN is known by. */
  method RegisterCanonicalKey(key: seq<Byte>, period: u64, weight: i64, proverOutput: Option<seq<Byte>>)
    returns (identity: Option<seq<Byte>>)
    requires |key| <= 255
    ensures identity == Some(Encode(key))
  {
    hide Encode, RegisteredAs;
    identity := RegisterKey(Encode(key), period, weight, proverOutput);
  }
}
