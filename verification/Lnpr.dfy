/** The LNPR proposal record: encoder, decoder, and the lookup of its slot in a block. */
module Lnpr {
  import opened Wrappers
  import opened Bytes

  const PREFIX_HMVE: seq<Byte> := [0x48, 0x4D, 0x56, 0x45]
  const PREFIX_LNPR: seq<Byte> := [0x4C, 0x4E, 0x50, 0x52]
  const LNPR_VERSION: Byte := 1

  datatype SubjectProof = SubjectProof(subject: seq<Byte>, weight: i64, proof: seq<Byte>)

  datatype LnprBlob = LnprBlob(period: u64, subjects: seq<SubjectProof>)

  // ---- the wire format ----

  /** A subject as it goes on the wire: its first 255 bytes. */
  function Cut(subject: seq<Byte>): (cut: seq<Byte>)
    ensures |cut| <= 255 && cut <= subject
  {
    if |subject| > 255 then subject[..255] else subject
  }

  function EncodeSubject(s: SubjectProof): seq<Byte> {
    [|Cut(s.subject)|] + (Cut(s.subject)
    + (BeBytes(AsU64(s.weight), 8) + (BeBytes(|s.proof| % 0x1_0000_0000, 4) + s.proof)))
  }

  function EncodeSubjects(subjects: seq<SubjectProof>): seq<Byte> {
    if |subjects| == 0 then [] else EncodeSubject(subjects[0]) + EncodeSubjects(subjects[1..])
  }

  function EncodeBlob(b: LnprBlob): seq<Byte> {
    PREFIX_LNPR + ([LNPR_VERSION] + (BeBytes(b.period, 8)
    + (BeBytes(|b.subjects| % 0x1_0000, 2) + EncodeSubjects(b.subjects))))
  }

  /** A parsed record and the bytes after it. */
  datatype Parsed = Parsed(record: SubjectProof, rest: seq<Byte>)

  function U64At(s: seq<Byte>): u64
    requires |s| == 8
  {
    BeValueBound(s);
    WordSizes();
    BeValue(s)
  }

  function DecodeSubject(p: seq<Byte>): Option<Parsed> {
    if |p| == 0 then None
    else
      var al, q := p[0], p[1..];
      if |q| < al as int + 8 + 4 then None
      else
        var subject, q1 := q[..al], q[al..];
        var weight, q2 := AsI64(U64At(q1[..8])), q1[8..];
        var pl, q3 := BeValue(q2[..4]), q2[4..];
        if |q3| < pl then None else Some(Parsed(SubjectProof(subject, weight, q3[..pl]), q3[pl..]))
  }

  /** Reads `n` more records behind those already read. */
  function DecodeSubjects(read: seq<SubjectProof>, p: seq<Byte>, n: nat): Option<seq<SubjectProof>>
    decreases n
  {
    if n == 0 then Some(read)
    else
      match DecodeSubject(p)
      case None => None
      case Some(Parsed(record, rest)) => DecodeSubjects(read + [record], rest, n - 1)
  }

  function DecodeBlob(tx: seq<Byte>): Option<LnprBlob> {
    if !(PREFIX_LNPR <= tx) then None
    else
      var p := tx[4..];
      if |p| < 1 + 8 + 2 || p[0] != LNPR_VERSION then None
      else
        match DecodeSubjects([], p[11..], BeValue(p[9..11]))
        case None => None
        case Some(subjects) => Some(LnprBlob(U64At(p[1..9]), subjects))
  }

  // ---- the loops of the source ----

  lemma {:induction false} EncodeSubjectsAppend(front: seq<SubjectProof>, s: SubjectProof)
    ensures EncodeSubjects(front + [s]) == EncodeSubjects(front) + EncodeSubject(s)
  {
    if |front| == 0 {
      assert front + [s] == [s];
      assert EncodeSubjects([s]) == EncodeSubject(s) + [];
    } else {
      assert (front + [s])[0] == front[0] && (front + [s])[1..] == front[1..] + [s];
      EncodeSubjectsAppend(front[1..], s);
      ConcatAssoc(EncodeSubject(front[0]), EncodeSubjects(front[1..]), EncodeSubject(s));
    }
  }

  method PushSubject(buffer: seq<Byte>, s: SubjectProof) returns (out: seq<Byte>)
    ensures out == buffer + EncodeSubject(s)
  {
    hide BeBytes;
    out := buffer;
    var subj := if |s.subject| > 255 then s.subject[..255] else s.subject;
    out := out + [|subj|];
    out := out + subj;
    out := out + BeBytes(AsU64(s.weight), 8);
    var pl := |s.proof| % 0x1_0000_0000;
    out := out + BeBytes(pl, 4);
    out := out + s.proof;
    PushFiveFields(buffer, [|subj|], subj, BeBytes(AsU64(s.weight), 8), BeBytes(pl, 4), s.proof);
  }

  method EncodeLnpr(b: LnprBlob) returns (out: seq<Byte>)
    ensures out == EncodeBlob(b)
  {
    hide BeBytes, EncodeSubject;
    out := PREFIX_LNPR;
    out := out + [LNPR_VERSION];
    out := out + BeBytes(b.period, 8);
    var n := |b.subjects| % 0x1_0000;
    out := out + BeBytes(n, 2);
    ghost var header := out;
    assert header + [] == header;
    for i := 0 to |b.subjects|
      invariant out == header + EncodeSubjects(b.subjects[..i])
    {
      out := PushSubject(out, b.subjects[i]);
      ConcatAssoc(header, EncodeSubjects(b.subjects[..i]), EncodeSubject(b.subjects[i]));
      EncodeSubjectsAppend(b.subjects[..i], b.subjects[i]);
      assert b.subjects[..i + 1] == b.subjects[..i] + [b.subjects[i]];
    }
    assert b.subjects[..|b.subjects|] == b.subjects;
    PushFiveFields([], PREFIX_LNPR, [LNPR_VERSION], BeBytes(b.period, 8), BeBytes(n, 2), EncodeSubjects(b.subjects));
  }

  method DecodeLnpr(tx: seq<Byte>) returns (r: Option<LnprBlob>)
    ensures r == DecodeBlob(tx)
  {
    if !(PREFIX_LNPR <= tx) {
      return None;
    }
    var p := tx[4..];
    if |p| < 1 + 8 + 2 || p[0] != LNPR_VERSION {
      return None;
    }
    ghost var q := p;
    p := p[1..];
    var period := U64At(p[..8]);
    p := p[8..];
    var n := BeValue(p[..2]);
    p := p[2..];
    assert period == U64At(q[1..9]) && n == BeValue(q[9..11]) && p == q[11..] by {
      assert q[1..][..8] == q[1..9] && q[1..][8..] == q[9..];
      assert q[9..][..2] == q[9..11] && q[9..][2..] == q[11..];
    }
    var subjects := [];
    for i := 0 to n
      invariant DecodeSubjects(subjects, p, n - i) == DecodeSubjects([], q[11..], n)
    {
      if |p| == 0 {
        return None;
      }
      var al := p[0];
      p := p[1..];
      if |p| < al as int + 8 + 4 {
        return None;
      }
      var subject := p[..al];
      p := p[al..];
      var weight := AsI64(U64At(p[..8]));
      p := p[8..];
      var pl := BeValue(p[..4]);
      p := p[4..];
      if |p| < pl {
        return None;
      }
      var proof := p[..pl];
      p := p[pl..];
      subjects := subjects + [SubjectProof(subject, weight, proof)];
    }
    return Some(LnprBlob(period, subjects));
  }

  // ---- decoding inverts encoding, and nothing else decodes ----

  predicate SubjectWithinBounds(s: SubjectProof) {
    |s.subject| <= 255 && |s.proof| < 0x1_0000_0000
  }

  /** What the field widths of the format can carry. */
  predicate WithinBounds(b: LnprBlob) {
    |b.subjects| < 0x1_0000 && AllWithinBounds(b.subjects)
  }

  lemma SignRoundTrips(i: i64)
    ensures AsI64(AsU64(i)) == i
  {
  }

  lemma SubjectRoundTrip(s: SubjectProof, tail: seq<Byte>)
    requires |s.proof| < 0x1_0000_0000
    ensures DecodeSubject(EncodeSubject(s) + tail) == Some(Parsed(s.(subject := Cut(s.subject)), tail))
  {
    hide BeBytes, BeValue;
    var cut, w, l := Cut(s.subject), BeBytes(AsU64(s.weight), 8), BeBytes(|s.proof|, 4);
    var p := EncodeSubject(s) + tail;
    var q3 := s.proof + tail;
    var q2 := l + q3;
    var q1 := w + q2;
    assert p[0] == |cut| && p[1..] == cut + q1;
    ReadBack(cut, q1);
    ReadBack(w, q2);
    ReadBack(l, q3);
    ReadBack(s.proof, tail);
    WordSizes();
    BeValueOfBytes(AsU64(s.weight), 8);
    BeValueOfBytes(|s.proof|, 4);
  }

  /** The five fields a decoded record was read from. */
  lemma DecodedFields(p: seq<Byte>)
    requires DecodeSubject(p).Some?
    ensures var Parsed(s, rest) := DecodeSubject(p).value;
            && SubjectWithinBounds(s)
            && p == [|s.subject|] + (s.subject + (BeBytes(AsU64(s.weight), 8)
                    + (BeBytes(|s.proof|, 4) + (s.proof + rest))))
  {
    var al, q := p[0], p[1..];
    var q1 := q[al..];
    var q2 := q1[8..];
    var q3 := q2[4..];
    WordSizes();
    BeValueBound(q2[..4]);
    BeBytesOfValue(q1[..8], 8);
    BeBytesOfValue(q2[..4], 4);
    assert AsU64(AsI64(U64At(q1[..8]))) == U64At(q1[..8]);
    assert p == [al] + q;
    Split(q, al);
    Split(q1, 8);
    Split(q2, 4);
    Split(q3, BeValue(q2[..4]));
  }

  /** A record that decodes is within bounds and is what its own encoding starts the input with. */
  lemma SubjectIsCanonical(p: seq<Byte>)
    requires DecodeSubject(p).Some?
    ensures var Parsed(s, rest) := DecodeSubject(p).value;
            SubjectWithinBounds(s) && p == EncodeSubject(s) + rest
  {
    hide DecodeSubject, BeBytes;
    DecodedFields(p);
    var Parsed(s, rest) := DecodeSubject(p).value;
    FiveFields([|s.subject|], s.subject, BeBytes(AsU64(s.weight), 8), BeBytes(|s.proof|, 4), s.proof, rest);
  }

  function CutAll(subjects: seq<SubjectProof>): (cut: seq<SubjectProof>)
    ensures |cut| == |subjects|
  {
    if |subjects| == 0 then []
    else [subjects[0].(subject := Cut(subjects[0].subject))] + CutAll(subjects[1..])
  }

  lemma {:induction false} SubjectsRoundTrip(read: seq<SubjectProof>, subjects: seq<SubjectProof>, n: nat,
                                             tail: seq<Byte>)
    requires n <= |subjects| && forall s :: s in subjects[..n] ==> |s.proof| < 0x1_0000_0000
    ensures DecodeSubjects(read, EncodeSubjects(subjects) + tail, n) == Some(read + CutAll(subjects[..n]))
    decreases n
  {
    hide EncodeSubject, DecodeSubject;
    if n == 0 {
      assert read + CutAll(subjects[..0]) == read;
    } else {
      var s, more := subjects[0], EncodeSubjects(subjects[1..]) + tail;
      assert s in subjects[..n];
      assert EncodeSubjects(subjects) + tail == EncodeSubject(s) + more;
      SubjectRoundTrip(s, more);
      assert subjects[..n][1..] == subjects[1..][..n - 1];
      var cut := s.(subject := Cut(s.subject));
      SubjectsRoundTrip(read + [cut], subjects[1..], n - 1, tail);
      assert read + [cut] + CutAll(subjects[1..][..n - 1]) == read + CutAll(subjects[..n]);
    }
  }

  predicate AllWithinBounds(subjects: seq<SubjectProof>) {
    forall s :: s in subjects ==> SubjectWithinBounds(s)
  }

  lemma EncodeSubjectsCons(s: SubjectProof, more: seq<SubjectProof>)
    ensures EncodeSubjects([s] + more) == EncodeSubject(s) + EncodeSubjects(more)
  {
    assert ([s] + more)[1..] == more;
  }

  lemma OneMoreRecord(read: seq<SubjectProof>, p: seq<Byte>, more: seq<SubjectProof>, rest: seq<Byte>)
    requires DecodeSubject(p).Some? && AllWithinBounds(more)
    requires DecodeSubject(p).value.rest == EncodeSubjects(more) + rest
    ensures var s := DecodeSubject(p).value.record;
            && AllWithinBounds([s] + more)
            && read + [s] + more == read + ([s] + more)
            && p == EncodeSubjects([s] + more) + rest
  {
    SubjectIsCanonical(p);
    var s := DecodeSubject(p).value.record;
    EncodeSubjectsCons(s, more);
    ConcatAssoc(EncodeSubject(s), EncodeSubjects(more), rest);
  }

  lemma {:induction false} SubjectsAreCanonical(read: seq<SubjectProof>, p: seq<Byte>, n: nat)
    returns (more: seq<SubjectProof>, rest: seq<Byte>)
    requires DecodeSubjects(read, p, n).Some?
    ensures DecodeSubjects(read, p, n) == Some(read + more)
    ensures |more| == n && AllWithinBounds(more)
    ensures p == EncodeSubjects(more) + rest
    decreases n
  {
    hide EncodeSubject, DecodeSubject;
    if n == 0 {
      more, rest := [], p;
      assert read + [] == read;
    } else {
      var s, q := DecodeSubject(p).value.record, DecodeSubject(p).value.rest;
      more, rest := SubjectsAreCanonical(read + [s], q, n - 1);
      OneMoreRecord(read, p, more, rest);
      more := [s] + more;
    }
  }

  /** What decoding an encoded blob gives: subjects cut, the list cut to its length modulo 65536. */
  function Truncated(b: LnprBlob): LnprBlob {
    b.(subjects := CutAll(b.subjects[..|b.subjects| % 0x1_0000]))
  }

  lemma HeaderReadsBack(period: u64, n: nat, body: seq<Byte>)
    requires n < 0x1_0000
    ensures var p := [LNPR_VERSION] + (BeBytes(period, 8) + (BeBytes(n, 2) + body));
            && U64At(p[1..9]) == period && BeValue(p[9..11]) == n && p[11..] == body
  {
    var p := [LNPR_VERSION] + (BeBytes(period, 8) + (BeBytes(n, 2) + body));
    assert p[1..9] == BeBytes(period, 8) && p[9..11] == BeBytes(n, 2) && p[11..] == body;
    WordSizes();
    BeValueOfBytes(period, 8);
    BeValueOfBytes(n, 2);
  }

  /** The proofs of the records that are counted have 32-bit lengths. */
  predicate ProofsFit(b: LnprBlob) {
    forall s :: s in b.subjects[..|b.subjects| % 0x1_0000] ==> |s.proof| < 0x1_0000_0000
  }

  lemma FittingBlobDecodes(b: LnprBlob, tail: seq<Byte>)
    requires ProofsFit(b)
    ensures DecodeBlob(EncodeBlob(b) + tail) == Some(Truncated(b))
  {
    hide BeBytes, BeValue, EncodeSubjects, DecodeSubjects, CutAll;
    var n := |b.subjects| % 0x1_0000;
    var body := EncodeSubjects(b.subjects) + tail;
    var tx := EncodeBlob(b) + tail;
    assert tx[4..] == [LNPR_VERSION] + (BeBytes(b.period, 8) + (BeBytes(n, 2) + body));
    assert tx == PREFIX_LNPR + tx[4..];
    HeaderReadsBack(b.period, n, body);
    SubjectsRoundTrip([], b.subjects, n, tail);
    assert [] + CutAll(b.subjects[..n]) == CutAll(b.subjects[..n]);
  }

  lemma {:induction false} CutKeepsProofs(subjects: seq<SubjectProof>)
    ensures |CutAll(subjects)| == |subjects|
    ensures forall i :: 0 <= i < |subjects| ==> CutAll(subjects)[i].proof == subjects[i].proof
  {
    if |subjects| > 0 {
      CutKeepsProofs(subjects[1..]);
    }
  }

  lemma {:induction false} CutKeepsShortSubjects(subjects: seq<SubjectProof>)
    requires AllWithinBounds(subjects)
    ensures CutAll(subjects) == subjects
  {
    if |subjects| > 0 {
      assert subjects[0] in subjects;
      CutKeepsShortSubjects(subjects[1..]);
    }
  }

  /** The header a record was read from. */
  lemma HeaderIsCanonical(tx: seq<Byte>)
    requires |tx| >= 15 && PREFIX_LNPR <= tx && tx[4] == LNPR_VERSION
    ensures var p := tx[4..];
            && BeValue(p[9..11]) < 0x1_0000
            && tx == PREFIX_LNPR + ([LNPR_VERSION] + (BeBytes(U64At(p[1..9]), 8)
                     + (BeBytes(BeValue(p[9..11]), 2) + p[11..])))
  {
    var p := tx[4..];
    WordSizes();
    BeValueBound(p[9..11]);
    BeBytesOfValue(p[1..9], 8);
    BeBytesOfValue(p[9..11], 2);
    assert tx[..4] == PREFIX_LNPR;
    assert p == [LNPR_VERSION] + p[1..];
    Split(tx, 4);
    Split(p[1..], 8);
    Split(p[9..], 2);
    assert p[1..][..8] == p[1..9] && p[1..][8..] == p[9..];
    assert p[9..][..2] == p[9..11] && p[9..][2..] == p[11..];
  }

  lemma DecodedBlobIsCanonical(tx: seq<Byte>)
    requires DecodeBlob(tx).Some?
    ensures var b := DecodeBlob(tx).value; WithinBounds(b) && EncodeBlob(b) <= tx
  {
    hide DecodeSubjects, EncodeSubjects, BeBytes, BeValue;
    HeaderIsCanonical(tx);
    var p := tx[4..];
    var n := BeValue(p[9..11]);
    var more, rest := SubjectsAreCanonical([], p[11..], n);
    var b := DecodeBlob(tx).value;
    assert b.subjects == [] + more == more;
    assert |b.subjects| % 0x1_0000 == n && b.period == U64At(p[1..9]);
    FiveFields(PREFIX_LNPR, [LNPR_VERSION], BeBytes(b.period, 8), BeBytes(n, 2), EncodeSubjects(more), rest);
    assert tx == EncodeBlob(b) + rest;
  }

  lemma BoundedMeansFitting(b: LnprBlob)
    requires WithinBounds(Truncated(b))
    ensures ProofsFit(b)
  {
    hide CutAll;
    var counted := b.subjects[..|b.subjects| % 0x1_0000];
    CutKeepsProofs(counted);
    forall s | s in counted
      ensures |s.proof| < 0x1_0000_0000
    {
      var i :| 0 <= i < |counted| && counted[i] == s;
      assert CutAll(counted)[i] in CutAll(counted);
    }
  }

  /**
   * Whatever follows it, an encoded blob decodes to the blob with its subjects cut and its list cut exactly
   * when the proofs of the counted records have 32-bit lengths.
   */
  lemma EncodedBlobDecodes(b: LnprBlob, tail: seq<Byte>)
    ensures DecodeBlob(EncodeBlob(b) + tail) == Some(Truncated(b)) <==> ProofsFit(b)
  {
    hide DecodeBlob, EncodeBlob, ProofsFit, Truncated;
    if ProofsFit(b) {
      FittingBlobDecodes(b, tail);
    }
    if DecodeBlob(EncodeBlob(b) + tail) == Some(Truncated(b)) {
      DecodedBlobIsCanonical(EncodeBlob(b) + tail);
      BoundedMeansFitting(b);
    }
  }

  /** The bytes that decode to `b` are exactly those that start with the encoding of `b`, within bounds. */
  lemma DecodesExactlyToWhatWasEncoded(tx: seq<Byte>, b: LnprBlob)
    ensures DecodeBlob(tx) == Some(b) <==> WithinBounds(b) && EncodeBlob(b) <= tx
  {
    if DecodeBlob(tx) == Some(b) {
      DecodedBlobIsCanonical(tx);
    }
    if WithinBounds(b) && EncodeBlob(b) <= tx {
      EncodingDecodesBack(b, tx[|EncodeBlob(b)|..]);
      assert EncodeBlob(b) + tx[|EncodeBlob(b)|..] == tx;
    }
  }

  lemma EncodingDecodesBack(b: LnprBlob, tail: seq<Byte>)
    requires WithinBounds(b)
    ensures DecodeBlob(EncodeBlob(b) + tail) == Some(b)
  {
    assert b.subjects[..|b.subjects| % 0x1_0000] == b.subjects;
    FittingBlobDecodes(b, tail);
    CutKeepsShortSubjects(b.subjects);
  }

  /** An encoded blob comes back unchanged, whatever follows it, exactly when it is within bounds. */
  lemma RoundTripIsExactWithinBounds(b: LnprBlob, tail: seq<Byte>)
    ensures DecodeBlob(EncodeBlob(b) + tail) == Some(b) <==> WithinBounds(b)
  {
    DecodesExactlyToWhatWasEncoded(EncodeBlob(b) + tail, b);
  }

  // ---- the layout, byte by byte ----

  lemma TagsAsText()
    ensures PREFIX_LNPR == Ascii("LNPR") && PREFIX_HMVE == Ascii("HMVE")
  {
  }

  /** Where the fields of a blob lie: big-endian words behind the tag and the version. */
  lemma BlobLayout(b: LnprBlob)
    ensures var tx := EncodeBlob(b);
      && |tx| >= 15 && tx[..4] == Ascii("LNPR") && tx[4] == 1
      && Word8(tx[5..13]) == b.period
      && Word2(tx[13..15]) == |b.subjects| % 0x1_0000
      && tx[15..] == EncodeSubjects(b.subjects)
  {
    hide BeBytes, BeValue, EncodeSubjects, Word2, Word8;
    TagsAsText();
    var tx, n := EncodeBlob(b), |b.subjects| % 0x1_0000;
    assert tx[5..13] == BeBytes(b.period, 8) && tx[13..15] == BeBytes(n, 2);
    WordSizes();
    BytesOfWord8(b.period);
    BeValueOfBytes(n, 2);
    BeWord2(BeBytes(n, 2));
  }

  /** Where the fields of a record lie behind the length of its subject. */
  lemma SubjectLayout(s: SubjectProof)
    ensures var r := EncodeSubject(s);
      var n := if |s.subject| < 255 then |s.subject| else 255;
      && |r| == 13 + n + |s.proof| && r[0] == n && r[1..1 + n] == s.subject[..n]
      && AsI64(Word8(r[1 + n..9 + n])) == s.weight
      && Word4(r[9 + n..13 + n]) == |s.proof| % 0x1_0000_0000
      && r[13 + n..] == s.proof
  {
    hide BeBytes, BeValue, Word4, Word8;
    var r, cut, l := EncodeSubject(s), Cut(s.subject), |s.proof| % 0x1_0000_0000;
    var n := |cut|;
    assert cut == s.subject[..n];
    assert r[1 + n..9 + n] == BeBytes(AsU64(s.weight), 8) && r[9 + n..13 + n] == BeBytes(l, 4);
    WordSizes();
    BytesOfWord8(AsU64(s.weight));
    SignRoundTrips(s.weight);
    BeValueOfBytes(l, 4);
    BeWord4(BeBytes(l, 4));
  }

  /** The records of a list follow each other. */
  lemma {:induction false} SubjectsFollowEachOther(x: seq<SubjectProof>, y: seq<SubjectProof>)
    ensures EncodeSubjects(x + y) == EncodeSubjects(x) + EncodeSubjects(y)
    ensures |x| == 1 ==> EncodeSubjects(x) == EncodeSubject(x[0])
  {
    hide EncodeSubject;
    if |x| == 0 {
      assert x + y == y;
    } else {
      SubjectsFollowEachOther(x[1..], y);
      assert (x + y)[1..] == x[1..] + y;
      ConcatAssoc(EncodeSubject(x[0]), EncodeSubjects(x[1..]), EncodeSubjects(y));
      assert EncodeSubject(x[0]) + [] == EncodeSubject(x[0]);
    }
  }

  // ---- the slot of the record in a block ----

  predicate HasPrefix(tx: seq<Byte>, p: seq<Byte>) {
    p <= tx
  }

  function ExpectedLnprIndex(txs: seq<seq<Byte>>): nat {
    if |txs| > 0 && HasPrefix(txs[0], PREFIX_HMVE) then 1 else 0
  }

  /** A vote-extension record is never taken for an LNPR record. */
  lemma HmveDoesNotDecode(tx: seq<Byte>)
    requires HasPrefix(tx, PREFIX_HMVE)
    ensures DecodeBlob(tx).None?
  {
    assert tx[0] == PREFIX_HMVE[0] != PREFIX_LNPR[0];
  }

  /** The position of the first record that decodes, or the number of transactions. */
  function FirstIndex(txs: seq<seq<Byte>>): (i: nat)
    ensures i <= |txs|
    ensures i < |txs| ==> DecodeBlob(txs[i]).Some?
    ensures forall k :: 0 <= k < i ==> DecodeBlob(txs[k]).None?
  {
    if |txs| == 0 || DecodeBlob(txs[0]).Some? then 0 else 1 + FirstIndex(txs[1..])
  }

  function FirstRecord(txs: seq<seq<Byte>>): Option<(LnprBlob, nat)> {
    var i := FirstIndex(txs);
    if i < |txs| then Some((DecodeBlob(txs[i]).value, i)) else None
  }

  /**
   * A block as validators compose it: the proposal record is first, or second behind a vote extension. It is
   * found there, and expected there.
   */
  lemma ComposedBlock(extension: seq<Byte>, b: LnprBlob, more: seq<seq<Byte>>)
    requires WithinBounds(b) && Ascii("HMVE") <= extension
    ensures ExpectedLnprIndex([EncodeBlob(b)] + more) == 0
    ensures FirstRecord([EncodeBlob(b)] + more) == Some((b, 0))
    ensures ExpectedLnprIndex([extension, EncodeBlob(b)] + more) == 1
    ensures FirstRecord([extension, EncodeBlob(b)] + more) == Some((b, 1))
  {
    TagsAsText();
    HmveDoesNotDecode(extension);
    DecodesExactlyToWhatWasEncoded(EncodeBlob(b), b);
    BlobLayout(b);
    assert EncodeBlob(b)[0] == PREFIX_LNPR[0] != PREFIX_HMVE[0];
    hide DecodeBlob, EncodeBlob;
    var first, second := [EncodeBlob(b)] + more, [extension, EncodeBlob(b)] + more;
    assert first[0] == EncodeBlob(b) && second[0] == extension && second[1] == EncodeBlob(b);
    assert FirstIndex(first) == 0 && FirstIndex(second) == 1;
  }

  method FindLnpr(txs: seq<seq<Byte>>) returns (r: Option<(LnprBlob, nat)>)
    ensures r == FirstRecord(txs)
    ensures r.None? ==> forall i :: 0 <= i < |txs| ==> DecodeBlob(txs[i]).None?
    ensures r.Some? ==>
      var (blob, i) := r.value;
      i < |txs| && DecodeBlob(txs[i]) == Some(blob) && forall j :: 0 <= j < i ==> DecodeBlob(txs[j]).None?
    ensures (r.Some? && r.value.1 == ExpectedLnprIndex(txs))
       <==> ExpectedLnprIndex(txs) < |txs| && DecodeBlob(txs[ExpectedLnprIndex(txs)]).Some?
  {
    if |txs| > 0 && HasPrefix(txs[0], PREFIX_HMVE) {
      HmveDoesNotDecode(txs[0]);
    }
    for i := 0 to |txs|
      invariant forall j :: 0 <= j < i ==> DecodeBlob(txs[j]).None?
    {
      var d := DecodeLnpr(txs[i]);
      if d.Some? {
        return Some((d.value, i));
      }
    }
    return None;
  }
}
