/** The two protobuf wire writers, read back by a schema-free wire reader. */
module Protobuf {
  import opened Wrappers
  import opened Bytes

  // ---- what the writers write ----

  /** Seven bits a byte, lowest first, the high bit set on all bytes but the last. */
  function Varint(v: nat): seq<Byte> {
    if v < 128 then [v] else [v % 128 + 128] + Varint(v / 128)
  }

  function LenField(tag: nat, data: seq<Byte>): seq<Byte> {
    Varint(tag) + (Varint(|data|) + data)
  }

  /** One field of a message: a number (wire type 0) or length-prefixed bytes (wire type 2). */
  datatype WireField = Number(field: nat, value: nat) | Data(field: nat, bytes: seq<Byte>)

  function WriteField(f: WireField): seq<Byte> {
    match f
    case Number(field, v) => Varint(8 * field) + Varint(v)
    case Data(field, data) => LenField(8 * field + 2, data)
  }

  function WriteFields(fields: seq<WireField>): seq<Byte> {
    if |fields| == 0 then [] else WriteField(fields[0]) + WriteFields(fields[1..])
  }

  /** The tag is shifted in 32 bits here, so high bits of the field number are lost. */
  function ProtoLd(field: u32, data: seq<Byte>): seq<Byte> {
    LenField(8 * (field as int) % 0x1_0000_0000 + 2, data)
  }

  datatype HashData = HashData(runtimeId: seq<Byte>, chainUid: seq<Byte>, algo: seq<Byte>, root: seq<Byte>,
                               foreignHeight: u64, foreignBlockTime: i64)

  function HashDataFields(d: HashData): seq<WireField> {
    [Data(1, d.runtimeId), Data(2, d.chainUid), Data(3, d.algo), Data(4, d.root),
     Number(5, d.foreignHeight), Number(6, AsU64(d.foreignBlockTime))]
  }

  datatype ExecuteContract = ExecuteContract(sender: seq<Byte>, contract: seq<Byte>, msg: seq<Byte>)

  function ExecuteContractFields(m: ExecuteContract): seq<WireField> {
    [Data(1, m.sender), Data(2, m.contract), Data(3, m.msg)]
  }

  // ---- the writers ----

  /** A byte vector that its callers append to in place. */
  class Buffer {
    var bytes: seq<Byte>

    constructor ()
      ensures bytes == []
    {
      bytes := [];
    }

    method Push(b: Byte)
      modifies this
      ensures bytes == old(bytes) + [b]
    {
      bytes := bytes + [b];
    }

    method Extend(more: seq<Byte>)
      modifies this
      ensures bytes == old(bytes) + more
    {
      bytes := bytes + more;
    }
  }

  lemma VarintStep(v: nat)
    ensures v >= 128 ==> Varint(v) == [v % 256 % 128 + 128] + Varint(v / 128)
    ensures v < 128 ==> Varint(v) == [v % 256]
  {
    DivModUnique(v % 256, v % 256 / 128, v % 128, 128);
  }

  method PbVarint(value: u64) returns (buf: seq<Byte>)
    ensures buf == Varint(value)
  {
    hide Varint;
    buf := [];
    var val: nat := value;
    while val > 127
      invariant buf + Varint(val) == Varint(value)
    {
      VarintStep(val);
      ConcatAssoc(buf, [val % 256 % 128 + 128], Varint(val / 128));
      buf := buf + [val % 256 % 128 + 128];
      val := val / 128;
    }
    VarintStep(val);
    buf := buf + [val % 256];
  }

  /** Appends to the caller's buffer the bytes the other writer returns. */
  method ProtoVarint(buf: Buffer, value: u64)
    modifies buf
    ensures buf.bytes == old(buf.bytes) + Varint(value)
  {
    hide Varint;
    var v: nat := value;
    while v >= 0x80
      invariant buf.bytes + Varint(v) == old(buf.bytes) + Varint(value)
    {
      VarintStep(v);
      ConcatAssoc(buf.bytes, [v % 256 % 128 + 128], Varint(v / 128));
      buf.Push(v % 256 % 128 + 128);
      v := v / 128;
    }
    VarintStep(v);
    buf.Push(v % 256);
  }

  /** The length of a Rust slice always fits 64 bits. */
  method WritePbFieldBytes(field: u32, data: seq<Byte>) returns (buf: seq<Byte>)
    requires |data| < 0x1_0000_0000_0000_0000
    ensures buf == WriteField(Data(field, data))
  {
    buf := PbVarint(8 * (field as int) + 2);
    var len := PbVarint(|data|);
    ConcatAssoc(buf, len, data);
    buf := buf + len;
    buf := buf + data;
  }

  method WritePbFieldUint64(field: u32, v: u64) returns (buf: seq<Byte>)
    ensures buf == WriteField(Number(field, v))
  {
    buf := PbVarint(8 * (field as int));
    var value := PbVarint(v);
    buf := buf + value;
  }

  method WriteProtoLd(field: u32, data: seq<Byte>) returns (bytes: seq<Byte>)
    requires |data| < 0x1_0000_0000_0000_0000
    ensures bytes == ProtoLd(field, data)
  {
    var tag := 8 * (field as int) % 0x1_0000_0000 + 2;
    var out := new Buffer();
    ProtoVarint(out, tag);
    ProtoVarint(out, |data|);
    ConcatAssoc(Varint(tag), Varint(|data|), data);
    assert [] + Varint(tag) == Varint(tag);
    out.Extend(data);
    bytes := out.bytes;
  }

  // ---- varints are self-delimiting and minimal ----

  datatype Read<T> = Read(value: T, rest: seq<Byte>)

  /** Reads one varint of any length. */
  function ReadVarint(s: seq<Byte>): Option<Read<nat>> {
    if |s| == 0 then None
    else if s[0] < 128 then Some(Read(s[0], s[1..]))
    else
      match ReadVarint(s[1..])
      case None => None
      case Some(Read(high, rest)) => Some(Read((s[0] as int) - 128 + 128 * high, rest))
  }

  lemma {:induction false} VarintReadsBack(v: nat, tail: seq<Byte>)
    ensures ReadVarint(Varint(v) + tail) == Some(Read(v, tail))
  {
    if v < 128 {
      assert ([v] + tail)[1..] == tail;
    } else {
      VarintReadsBack(v / 128, tail);
      assert (Varint(v) + tail)[1..] == Varint(v / 128) + tail;
    }
  }

  function Pow128(n: nat): (p: nat)
    ensures p > 0
  {
    if n == 0 then 1 else 128 * Pow128(n - 1)
  }

  lemma DivideTwice(v: nat, p: nat)
    requires p > 0
    ensures v / 128 / p == v / (128 * p)
  {
    var q := v / 128 / p;
    var r := v / 128 % p;
    assert v == 128 * (p * q + r) + v % 128;
    assert 128 * (p * q + r) == q * (128 * p) + 128 * r;
    DivModUnique(v, q, 128 * r + v % 128, 128 * p);
  }

  /** Byte `i` of a varint holds the `i`-th seven bits, and the high bit exactly when more follows. */
  lemma {:induction false} VarintBytes(v: nat, i: nat)
    requires i < |Varint(v)|
    ensures Varint(v)[i] == v / Pow128(i) % 128 + if i + 1 < |Varint(v)| then 128 else 0
    ensures i + 1 == |Varint(v)| ==> v / Pow128(i) < 128
  {
    if i > 0 {
      VarintBytes(v / 128, i - 1);
      DivideTwice(v, Pow128(i - 1));
    } else {
      assert v / Pow128(0) == v;
    }
  }

  /** A varint fits in `n` bytes exactly when its value has at most `7 n` bits. */
  lemma {:induction false} VarintLength(v: nat, n: nat)
    requires n > 0
    ensures |Varint(v)| <= n <==> v < Pow128(n)
  {
    if n == 1 {
      assert Pow128(1) == 128 * Pow128(0);
    } else if v >= 128 {
      VarintLength(v / 128, n - 1);
      assert v / 128 < Pow128(n - 1) <==> v < 128 * Pow128(n - 1);
    } else {
      assert Pow128(n) == 128 * Pow128(n - 1) >= 128;
    }
  }

  /** No byte string that reads as `v` is shorter than its varint. */
  lemma {:induction false} VarintIsMinimal(s: seq<Byte>, v: nat, rest: seq<Byte>)
    requires ReadVarint(s) == Some(Read(v, rest))
    ensures |rest| <= |s| && |Varint(v)| <= |s| - |rest|
  {
    if s[0] >= 128 {
      var high := ReadVarint(s[1..]).value.value;
      VarintIsMinimal(s[1..], high, rest);
      DivModUnique(v, high, s[0] - 128, 128);
      VarintLength(0, 1);
    }
  }

  /** Every 64-bit value, a negative `i64` included, takes at most ten bytes, and -1 takes all ten. */
  lemma TenBytesSuffice(v: u64)
    ensures |Varint(v)| <= 10
    ensures |Varint(AsU64(-1))| == 10
  {
    assert Pow128(5) == 128 * (128 * (128 * (128 * (128 * Pow128(0)))));
    assert Pow128(9) == 128 * (128 * (128 * (128 * Pow128(5))));
    assert Pow128(10) == 128 * Pow128(9);
    VarintLength(v, 10);
    VarintLength(AsU64(-1), 10);
    VarintLength(AsU64(-1), 9);
  }

  // ---- a schema-free reader recovers every field ----

  /** Reads one tagged field of wire type 0 or 2. */
  function ReadField(s: seq<Byte>): Option<Read<WireField>> {
    match ReadVarint(s)
    case None => None
    case Some(Read(tag, s1)) =>
      match ReadVarint(s1)
      case None => None
      case Some(Read(n, s2)) =>
        if tag % 8 == 0 then Some(Read(Number(tag / 8, n), s2))
        else if tag % 8 == 2 && n <= |s2| then Some(Read(Data(tag / 8, s2[..n]), s2[n..]))
        else None
  }

  function ReadFields(s: seq<Byte>, count: nat): Option<Read<seq<WireField>>>
    decreases count
  {
    if count == 0 then Some(Read([], s))
    else
      match ReadField(s)
      case None => None
      case Some(Read(field, rest)) =>
        match ReadFields(rest, count - 1)
        case None => None
        case Some(Read(fields, end)) => Some(Read([field] + fields, end))
  }

  lemma LenFieldReadsBack(field: nat, data: seq<Byte>, tail: seq<Byte>)
    ensures ReadField(LenField(8 * field + 2, data) + tail) == Some(Read(Data(field, data), tail))
  {
    hide Varint, ReadVarint;
    ConcatAssoc(Varint(8 * field + 2), Varint(|data|) + data, tail);
    ConcatAssoc(Varint(|data|), data, tail);
    VarintReadsBack(8 * field + 2, Varint(|data|) + (data + tail));
    VarintReadsBack(|data|, data + tail);
    ReadBack(data, tail);
    DivModUnique(8 * field + 2, field, 2, 8);
  }

  /** A field starts with its number times eight plus its wire type: 2 for bytes and their length, 0 for numbers. */
  lemma FieldLayout(field: nat, data: seq<Byte>, v: nat)
    ensures WriteField(Data(field, data)) == Varint(8 * field + 2) + Varint(|data|) + data
    ensures WriteField(Number(field, v)) == Varint(8 * field) + Varint(v)
    ensures field < 16 ==> Varint(8 * field + 2) == [8 * field + 2] && Varint(8 * field) == [8 * field]
  {
    ConcatAssoc(Varint(8 * field + 2), Varint(|data|), data);
  }

  /** The two length-delimited writers agree exactly on field numbers whose tag fits 32 bits. */
  lemma WritersAgreeOnSmallFields(field: u32, data: seq<Byte>)
    ensures WriteField(Data(field, data)) == ProtoLd(field, data) <==> field < 0x2000_0000
  {
    hide LenField;
    if field >= 0x2000_0000 {
      var low := field as int % 0x2000_0000;
      DivModUnique(8 * (field as int), field as int / 0x2000_0000, 8 * low, 0x1_0000_0000);
      LenFieldReadsBack(field, data, []);
      LenFieldReadsBack(low, data, []);
    } else {
      DivModUnique(8 * (field as int), 0, 8 * (field as int), 0x1_0000_0000);
    }
  }

  // ---- whole messages ----

  lemma FieldReadsBack(f: WireField, tail: seq<Byte>)
    ensures ReadField(WriteField(f) + tail) == Some(Read(f, tail))
  {
    hide Varint, ReadVarint;
    match f
    case Data(field, data) =>
      LenFieldReadsBack(field, data, tail);
    case Number(field, v) =>
      ConcatAssoc(Varint(8 * field), Varint(v), tail);
      VarintReadsBack(8 * field, Varint(v) + tail);
      VarintReadsBack(v, tail);
      DivModUnique(8 * field, field, 0, 8);
  }

  /** A message of any fields, whatever follows it, is read back field by field. */
  lemma {:induction false} FieldsReadBack(fields: seq<WireField>, tail: seq<Byte>)
    ensures ReadFields(WriteFields(fields) + tail, |fields|) == Some(Read(fields, tail))
  {
    hide ReadField, WriteField;
    if |fields| == 0 {
      assert [] + tail == tail;
    } else {
      ConcatAssoc(WriteField(fields[0]), WriteFields(fields[1..]), tail);
      FieldReadsBack(fields[0], WriteFields(fields[1..]) + tail);
      FieldsReadBack(fields[1..], tail);
      assert [fields[0]] + fields[1..] == fields;
    }
  }

  /** Field lists of one length that are written alike are equal, so a message determines its fields. */
  lemma FieldsAreDetermined(x: seq<WireField>, y: seq<WireField>)
    requires |x| == |y| && WriteFields(x) == WriteFields(y)
    ensures x == y
  {
    FieldsReadBack(x, []);
    FieldsReadBack(y, []);
  }

  lemma HashDataIsInjective(x: HashData, y: HashData)
    requires WriteFields(HashDataFields(x)) == WriteFields(HashDataFields(y))
    ensures x == y
  {
    hide WriteFields;
    FieldsAreDetermined(HashDataFields(x), HashDataFields(y));
    var fx, fy := HashDataFields(x), HashDataFields(y);
    assert fx[0] == fy[0] && fx[1] == fy[1] && fx[2] == fy[2] && fx[3] == fy[3] && fx[4] == fy[4] && fx[5] == fy[5];
    assert AsI64(AsU64(x.foreignBlockTime)) == x.foreignBlockTime;
    assert AsI64(AsU64(y.foreignBlockTime)) == y.foreignBlockTime;
  }

  lemma ExecuteContractIsInjective(x: ExecuteContract, y: ExecuteContract)
    requires WriteFields(ExecuteContractFields(x)) == WriteFields(ExecuteContractFields(y))
    ensures x == y
  {
    hide WriteFields;
    FieldsAreDetermined(ExecuteContractFields(x), ExecuteContractFields(y));
    var fx, fy := ExecuteContractFields(x), ExecuteContractFields(y);
    assert fx[0] == fy[0] && fx[1] == fy[1] && fx[2] == fy[2];
  }

  lemma {:induction false} WriteFieldsAppend(fields: seq<WireField>, f: WireField)
    ensures WriteFields(fields + [f]) == WriteFields(fields) + WriteField(f)
  {
    hide WriteField;
    if |fields| == 0 {
      assert fields + [f] == [f] && [f][1..] == [];
      assert WriteField(f) + [] == WriteField(f);
    } else {
      assert (fields + [f])[1..] == fields[1..] + [f];
      WriteFieldsAppend(fields[1..], f);
      ConcatAssoc(WriteField(fields[0]), WriteFields(fields[1..]), WriteField(f));
    }
  }

  /** The first of the fields read that has a number. */
  function Numbered(fields: seq<WireField>, number: nat): Option<WireField> {
    if |fields| == 0 then None
    else if fields[0].field == number then Some(fields[0])
    else Numbered(fields[1..], number)
  }

  /** What a reader of `count` fields finds under a number. */
  function ReadNumbered(buf: seq<Byte>, count: nat, number: nat): Option<WireField> {
    match ReadFields(buf, count)
    case None => None
    case Some(Read(fields, _)) => Numbered(fields, number)
  }

  /** Fields numbered from one on are found under their places. */
  lemma {:induction false} NumberedFrom(fields: seq<WireField>, first: nat, i: nat)
    requires i < |fields| && forall k :: 0 <= k < |fields| ==> fields[k].field == first + k
    ensures Numbered(fields, first + i) == Some(fields[i])
  {
    if i > 0 {
      NumberedFrom(fields[1..], first + 1, i - 1);
    }
  }

  predicate LengthsFit(d: HashData) {
    && |d.runtimeId| < 0x1_0000_0000_0000_0000 && |d.chainUid| < 0x1_0000_0000_0000_0000
    && |d.algo| < 0x1_0000_0000_0000_0000 && |d.root| < 0x1_0000_0000_0000_0000
  }

  /** The bytes of one more field. */
  lemma NextField(f: seq<WireField>, k: nat)
    requires k < |f|
    ensures WriteFields(f[..k + 1]) == WriteFields(f[..k]) + WriteField(f[k])
    ensures k == 0 ==> WriteFields(f[..1]) == WriteField(f[0])
  {
    hide WriteField;
    WriteFieldsAppend(f[..k], f[k]);
    assert f[..k + 1] == f[..k] + [f[k]];
    if k == 0 {
      assert f[..0] == [] && [] + WriteField(f[0]) == WriteField(f[0]);
    }
  }

  method WriteHashData(d: HashData) returns (buf: seq<Byte>)
    requires LengthsFit(d)
    ensures buf == WriteFields(HashDataFields(d))
    ensures ReadFields(buf, 6) == Some(Read(HashDataFields(d), []))
    ensures ReadNumbered(buf, 6, 1) == Some(Data(1, d.runtimeId))
    ensures ReadNumbered(buf, 6, 2) == Some(Data(2, d.chainUid))
    ensures ReadNumbered(buf, 6, 3) == Some(Data(3, d.algo))
    ensures ReadNumbered(buf, 6, 4) == Some(Data(4, d.root))
    ensures ReadNumbered(buf, 6, 5) == Some(Number(5, d.foreignHeight))
    ensures ReadNumbered(buf, 6, 6) == Some(Number(6, AsU64(d.foreignBlockTime)))
  {
    hide WriteField, WriteFields, ReadFields, Numbered;
    var f := HashDataFields(d);
    NumberedFrom(f, 1, 0);
    NumberedFrom(f, 1, 1);
    NumberedFrom(f, 1, 2);
    NumberedFrom(f, 1, 3);
    NumberedFrom(f, 1, 4);
    NumberedFrom(f, 1, 5);
    buf := WritePbFieldBytes(1, d.runtimeId);
    NextField(f, 0);
    var more := WritePbFieldBytes(2, d.chainUid);
    NextField(f, 1);
    buf := buf + more;
    more := WritePbFieldBytes(3, d.algo);
    NextField(f, 2);
    buf := buf + more;
    more := WritePbFieldBytes(4, d.root);
    NextField(f, 3);
    buf := buf + more;
    more := WritePbFieldUint64(5, d.foreignHeight);
    NextField(f, 4);
    buf := buf + more;
    more := WritePbFieldUint64(6, AsU64(d.foreignBlockTime));
    NextField(f, 5);
    buf := buf + more;
    FieldsReadBack(f, []);
    assert f[..6] == f && buf + [] == buf;
  }

  method WriteExecuteContract(m: ExecuteContract) returns (body: seq<Byte>)
    requires |m.sender| < 0x1_0000_0000_0000_0000 && |m.contract| < 0x1_0000_0000_0000_0000
    requires |m.msg| < 0x1_0000_0000_0000_0000
    ensures body == WriteFields(ExecuteContractFields(m))
    ensures ReadFields(body, 3) == Some(Read(ExecuteContractFields(m), []))
    ensures ReadNumbered(body, 3, 1) == Some(Data(1, m.sender))
    ensures ReadNumbered(body, 3, 2) == Some(Data(2, m.contract))
    ensures ReadNumbered(body, 3, 3) == Some(Data(3, m.msg))
  {
    hide WriteField, WriteFields, ReadFields, ProtoLd, Numbered;
    var f := ExecuteContractFields(m);
    NumberedFrom(f, 1, 0);
    NumberedFrom(f, 1, 1);
    NumberedFrom(f, 1, 2);
    WritersAgreeOnSmallFields(1, m.sender);
    WritersAgreeOnSmallFields(2, m.contract);
    WritersAgreeOnSmallFields(3, m.msg);
    body := WriteProtoLd(1, m.sender);
    NextField(f, 0);
    var more := WriteProtoLd(2, m.contract);
    NextField(f, 1);
    body := body + more;
    more := WriteProtoLd(3, m.msg);
    NextField(f, 2);
    body := body + more;
    FieldsReadBack(f, []);
    assert f[..3] == f && body + [] == body;
  }
}
