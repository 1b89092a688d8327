/** Deep merge of a JSON object into a TOML table. */
module TomlMerge {
  import opened Wrappers
  import opened Bytes

  /** A 64-bit float is carried, never computed with: only its bit pattern matters here. */
  datatype Float = Float(bits: u64)

  /** A JSON number is what its two accessors `as_i64` and `as_f64` return. */
  datatype Number = Number(asI64: Option<i64>, asF64: Option<Float>)

  datatype Field = Field(key: string, value: Json)

  /** An object lists its fields in the order in which they are visited. */
  datatype Json =
    | Null
    | Bool(b: bool)
    | Num(n: Number)
    | Str(s: string)
    | Arr(items: seq<Json>)
    | Obj(fields: seq<Field>)

  datatype Toml =
    | Boolean(b: bool)
    | Integer(i: i64)
    | FloatValue(f: Float)
    | String(s: string)
    | Array(items: seq<Toml>)
    | Table(entries: map<string, Toml>)

  type Entries = map<string, Toml>

  /** The keys of every object are distinct, as they are in a parsed JSON value. */
  predicate DistinctKeys(j: Json) {
    match j
    case Obj(fields) =>
      && (forall i, k :: 0 <= i < k < |fields| ==> fields[i].key != fields[k].key)
      && forall f :: f in fields ==> DistinctKeys(f.value)
    case Arr(items) => forall item :: item in items ==> DistinctKeys(item)
    case _ => true
  }

  // ---- the recursion of the source, on values ----

  function Merge(table: Entries, json: Json): Entries
    decreases json, 0
  {
    if json.Obj? then MergeFields(table, json.fields) else table
  }

  function MergeFields(table: Entries, fields: seq<Field>): Entries
    decreases fields
  {
    if |fields| == 0 then table
    else MergeFields(MergeField(table, fields[0].key, fields[0].value), fields[1..])
  }

  function MergeField(table: Entries, key: string, value: Json): Entries
    decreases value, 2
  {
    if value.Obj? then
      if key !in table then table[key := Table(Merge(map[], value))]
      else if table[key].Table? then table[key := Table(Merge(table[key].entries, value))]
      else table
    else
      match Convert(value)
      case Some(tv) => table[key := tv]
      case None => table
  }

  function Convert(v: Json): Option<Toml>
    decreases v, 1
  {
    match v
    case Bool(b) => Some(Boolean(b))
    case Num(n) =>
      if n.asI64.Some? then Some(Integer(n.asI64.value))
      else if n.asF64.Some? then Some(FloatValue(n.asF64.value))
      else None
    case Str(s) => Some(String(s))
    case Arr(items) => Some(Array(ConvertAll(items)))
    case Obj(_) => Some(Table(Merge(map[], v)))
    case Null => None
  }

  function ConvertAll(items: seq<Json>): seq<Toml>
    decreases items
  {
    if |items| == 0 then []
    else (match Convert(items[0]) case Some(tv) => [tv] case None => []) + ConvertAll(items[1..])
  }

  // ---- the in-place form ----

  /** A table that its owner updates in place. */
  class TomlTable {
    var entries: Entries

    constructor (initial: Entries)
      ensures entries == initial
    {
      entries := initial;
    }
  }

  method MergeJsonIntoToml(table: TomlTable, json: Json)
    modifies table
    ensures table.entries == Merge(old(table.entries), json)
    decreases json, 0
  {
    if json.Obj? {
      var fields := json.fields;
      ghost var before := table.entries;
      assert fields[0..] == fields;
      for i := 0 to |fields|
        invariant MergeFields(table.entries, fields[i..]) == MergeFields(before, fields)
      {
        var key, value := fields[i].key, fields[i].value;
        ghost var start := table.entries;
        assert fields[i..][0] == fields[i] && fields[i..][1..] == fields[i + 1..];
        match value
        case Obj(_) =>
          // entry(key).or_insert_with(an empty table), then recurse if the entry is a table
          if key !in table.entries {
            table.entries := table.entries[key := Table(map[])];
          }
          if table.entries[key].Table? {
            var sub := new TomlTable(table.entries[key].entries);
            MergeJsonIntoToml(sub, value);
            table.entries := table.entries[key := Table(sub.entries)];
          }
          assert table.entries == MergeField(start, key, value);
        case _ =>
          var tv := JsonValueToToml(value);
          if tv.Some? {
            table.entries := table.entries[key := tv.value];
          }
      }
    }
  }

  method JsonValueToToml(v: Json) returns (r: Option<Toml>)
    ensures r == Convert(v)
    ensures r.Some? ==> IsConversion(v, r.value)
    ensures r == None <==> v.Null? || (v.Num? && v.n.asI64 == None && v.n.asF64 == None)
    decreases v, 1
  {
    match v
    case Bool(b) =>
      return Some(Boolean(b));
    case Num(n) =>
      if n.asI64.Some? {
        return Some(Integer(n.asI64.value));
      } else if n.asF64.Some? {
        return Some(FloatValue(n.asF64.value));
      } else {
        return None;
      }
    case Str(s) =>
      return Some(String(s));
    case Arr(arr) =>
      var items := JsonItemsToToml(arr);
      return Some(Array(items));
    case Obj(_) =>
      var t := new TomlTable(map[]);
      MergeJsonIntoToml(t, v);
      return Some(Table(t.entries));
    case Null =>
      return None;
  }

  /** What each kind of TOML value is converted from. */
  predicate IsConversion(v: Json, t: Toml) {
    match t
    case Boolean(b) => v == Bool(b)
    case Integer(i) => v.Num? && v.n.asI64 == Some(i)
    case FloatValue(f) => v.Num? && v.n.asI64 == None && v.n.asF64 == Some(f)
    case String(s) => v == Str(s)
    case Array(items) => v.Arr? && items == ConvertAll(v.items)
    case Table(entries) => v.Obj? && entries == Merge(map[], v)
  }

  lemma ConvertedFrom(v: Json, t: Toml)
    ensures Convert(v) == Some(t) <==> IsConversion(v, t)
    ensures Convert(v) == None <==> v.Null? || (v.Num? && v.n.asI64 == None && v.n.asF64 == None)
  {
  }

  /** The items of an array that have a conversion. */
  method JsonItemsToToml(arr: seq<Json>) returns (items: seq<Toml>)
    ensures items == ConvertAll(arr)
    decreases arr
  {
    hide Convert, ConvertAll, Merge, IsConversion;
    items := [];
    assert arr[0..] == arr && [] + ConvertAll(arr) == ConvertAll(arr);
    for i := 0 to |arr|
      invariant items + ConvertAll(arr[i..]) == ConvertAll(arr)
    {
      var tv := JsonValueToToml(arr[i]);
      ItemsFrom(arr, i, items);
      if tv.Some? {
        items := items + [tv.value];
      }
    }
    ItemsFrom(arr, |arr|, items);
  }

  /** The conversions of an array's items from one place on. */
  lemma ItemsFrom(arr: seq<Json>, i: nat, items: seq<Toml>)
    requires i <= |arr|
    ensures i == |arr| ==> items + ConvertAll(arr[i..]) == items
    ensures i < |arr| ==>
      items + ConvertAll(arr[i..]) == match Convert(arr[i])
                                      case None => items + ConvertAll(arr[i + 1..])
                                      case Some(tv) => items + [tv] + ConvertAll(arr[i + 1..])
  {
    hide Convert;
    if i < |arr| {
      assert arr[i..][1..] == arr[i + 1..];
      if Convert(arr[i]).Some? {
        ConcatAssoc(items, [Convert(arr[i]).value], ConvertAll(arr[i + 1..]));
      }
    }
  }

  // ---- what a merge leaves at each key ----

  function Entry(table: Entries, key: string): Option<Toml> {
    if key in table then Some(table[key]) else None
  }

  function FieldValue(fields: seq<Field>, key: string): Option<Json> {
    if |fields| == 0 then None
    else if fields[0].key == key then Some(fields[0].value)
    else FieldValue(fields[1..], key)
  }

  /** The rule for one key: sub-objects merge into tables and are lost on other values; null leaves no trace. */
  function MergedValue(present: Option<Toml>, incoming: Option<Json>): Option<Toml> {
    match incoming
    case None => present
    case Some(v) =>
      if !v.Obj? then (if Convert(v).Some? then Convert(v) else present)
      else
        match present
        case None => Some(Table(Merge(map[], v)))
        case Some(Table(entries)) => Some(Table(Merge(entries, v)))
        case Some(other) => Some(other)
  }

  lemma {:induction false} MergeFieldsAtKey(table: Entries, fields: seq<Field>, key: string)
    requires DistinctKeys(Obj(fields))
    ensures Entry(MergeFields(table, fields), key) == MergedValue(Entry(table, key), FieldValue(fields, key))
    decreases fields
  {
    hide Merge, Convert;
    if |fields| > 0 {
      var rest := fields[1..];
      assert forall f :: f in rest ==> f in fields;
      MergeFieldsAtKey(MergeField(table, fields[0].key, fields[0].value), rest, key);
      if key == fields[0].key {
        AbsentKey(rest, key);
      }
    }
  }

  lemma {:induction false} AbsentKey(fields: seq<Field>, key: string)
    requires forall f :: f in fields ==> f.key != key
    ensures FieldValue(fields, key) == None
  {
    if |fields| > 0 {
      assert fields[0] in fields;
      AbsentKey(fields[1..], key);
    }
  }

  /** The rule for one key holds of the whole merge. */
  lemma MergeAtKey(table: Entries, json: Json, key: string)
    requires DistinctKeys(json) && json.Obj?
    ensures Entry(Merge(table, json), key) == MergedValue(Entry(table, key), FieldValue(json.fields, key))
  {
    MergeFieldsAtKey(table, json.fields, key);
  }

  lemma SameEntries(x: Entries, y: Entries)
    requires forall key :: Entry(x, key) == Entry(y, key)
    ensures x == y
  {
    assert forall key :: key in x <==> Entry(x, key).Some?;
    assert forall key :: key in y <==> Entry(y, key).Some?;
    forall key | key in x
      ensures key in y && x[key] == y[key]
    {
      assert Entry(x, key) == Entry(y, key);
    }
  }

  /** A field's value is one of the object's fields. */
  lemma {:induction false} FieldValueIsAField(fields: seq<Field>, key: string)
    requires FieldValue(fields, key).Some?
    ensures Field(key, FieldValue(fields, key).value) in fields
  {
    if fields[0].key != key {
      FieldValueIsAField(fields[1..], key);
    }
  }

  lemma FieldIsSmaller(json: Json, key: string) returns (v: Json)
    requires json.Obj? && DistinctKeys(json) && FieldValue(json.fields, key).Some?
    ensures v == FieldValue(json.fields, key).value && DistinctKeys(v) && v < json
  {
    FieldValueIsAField(json.fields, key);
    v := FieldValue(json.fields, key).value;
    var f := Field(key, v);
    assert f in json.fields;
    var i :| 0 <= i < |json.fields| && json.fields[i] == f;
    assert json.fields[i].value == v;
  }

  // ---- merging into nothing is converting ----

  /** The table an object converts to holds, key by key, the conversions of its fields. */
  lemma ConvertedObjectByKey(json: Json, key: string)
    requires DistinctKeys(json) && json.Obj?
    ensures Convert(json) == Some(Table(Merge(map[], json)))
    ensures Entry(Merge(map[], json), key)
         == match FieldValue(json.fields, key) { case None => None case Some(v) => Convert(v) }
  {
    MergeAtKey(map[], json, key);
  }

  /** An array keeps the order of its items, and loses those without a conversion. */
  lemma {:induction false} ArrayKeepsOrder(front: seq<Json>, back: seq<Json>)
    ensures ConvertAll(front + back) == ConvertAll(front) + ConvertAll(back)
    ensures |front| == 1 && Convert(front[0]).Some? ==> ConvertAll(front) == [Convert(front[0]).value]
    ensures |front| == 1 && Convert(front[0]).None? ==> ConvertAll(front) == []
    decreases front
  {
    hide Convert;
    if |front| == 0 {
      assert front + back == back;
    } else {
      assert (front + back)[1..] == front[1..] + back;
      ArrayKeepsOrder(front[1..], back);
      var first := match Convert(front[0]) case Some(tv) => [tv] case None => [];
      ConcatAssoc(first, ConvertAll(front[1..]), ConvertAll(back));
    }
  }

  // ---- merging twice is merging once ----

  lemma {:induction false} MergeIsIdempotent(table: Entries, json: Json)
    requires DistinctKeys(json)
    ensures Merge(Merge(table, json), json) == Merge(table, json)
    decreases json, 0
  {
    if json.Obj? {
      hide Merge;
      forall key
        ensures Entry(Merge(Merge(table, json), json), key) == Entry(Merge(table, json), key)
      {
        MergeAtKey(table, json, key);
        MergeAtKey(Merge(table, json), json, key);
        if FieldValue(json.fields, key).Some? {
          var v := FieldIsSmaller(json, key);
          MergedValueIsIdempotent(Entry(table, key), v);
        }
      }
      SameEntries(Merge(Merge(table, json), json), Merge(table, json));
    }
  }

  lemma {:induction false} MergedValueIsIdempotent(present: Option<Toml>, v: Json)
    requires DistinctKeys(v)
    ensures MergedValue(MergedValue(present, Some(v)), Some(v)) == MergedValue(present, Some(v))
    decreases v, 1
  {
    hide Merge, Convert;
    if v.Obj? {
      match present
      case None => MergeIsIdempotent(map[], v);
      case Some(Table(entries)) => MergeIsIdempotent(entries, v);
      case _ =>
    }
  }

  // ---- the order of the keys does not matter ----

  /** Equal up to the order in which the objects inside list their fields. */
  predicate SameUpToOrder(x: Json, y: Json)
    decreases x
  {
    match (x, y)
    case (Obj(fx), Obj(fy)) =>
      && (forall f :: f in fx ==> FieldValue(fy, f.key).Some? && SameUpToOrder(f.value, FieldValue(fy, f.key).value))
      && (forall g :: g in fy ==> FieldValue(fx, g.key).Some?)
    case (Arr(xs), Arr(ys)) =>
      |xs| == |ys| && forall i :: 0 <= i < |xs| ==> SameUpToOrder(xs[i], ys[i])
    case _ => x == y
  }

  lemma SameKeys(fx: seq<Field>, fy: seq<Field>, key: string)
    requires SameUpToOrder(Obj(fx), Obj(fy))
    ensures FieldValue(fx, key).Some? <==> FieldValue(fy, key).Some?
  {
    if FieldValue(fx, key).Some? {
      FieldValueIsAField(fx, key);
      var f := Field(key, FieldValue(fx, key).value);
      assert f in fx && FieldValue(fy, f.key).Some?;
    }
    if FieldValue(fy, key).Some? {
      FieldValueIsAField(fy, key);
      var g := Field(key, FieldValue(fy, key).value);
      assert g in fy && FieldValue(fx, g.key).Some?;
    }
  }

  lemma {:induction false} MergeIgnoresOrder(table: Entries, x: Json, y: Json)
    requires DistinctKeys(x) && DistinctKeys(y) && SameUpToOrder(x, y)
    ensures Merge(table, x) == Merge(table, y)
    decreases x, 0
  {
    if x.Obj? {
      hide Merge;
      forall key
        ensures Entry(Merge(table, x), key) == Entry(Merge(table, y), key)
      {
        MergeAtKey(table, x, key);
        MergeAtKey(table, y, key);
        SameKeys(x.fields, y.fields, key);
        if FieldValue(x.fields, key).Some? {
          var vx := FieldIsSmaller(x, key);
          FieldValueIsAField(x.fields, key);
          assert Field(key, vx) in x.fields;
          var vy := FieldIsSmaller(y, key);
          MergedValueIgnoresOrder(Entry(table, key), vx, vy);
        }
      }
      SameEntries(Merge(table, x), Merge(table, y));
    }
  }

  lemma {:induction false} MergedValueIgnoresOrder(present: Option<Toml>, x: Json, y: Json)
    requires DistinctKeys(x) && DistinctKeys(y) && SameUpToOrder(x, y)
    ensures MergedValue(present, Some(x)) == MergedValue(present, Some(y))
    decreases x, 2
  {
    hide Merge, Convert;
    if x.Obj? {
      match present
      case None => MergeIgnoresOrder(map[], x, y);
      case Some(Table(entries)) => MergeIgnoresOrder(entries, x, y);
      case _ =>
    } else {
      ConvertIgnoresOrder(x, y);
    }
  }

  lemma {:induction false} ConvertIgnoresOrder(x: Json, y: Json)
    requires DistinctKeys(x) && DistinctKeys(y) && SameUpToOrder(x, y)
    ensures Convert(x) == Convert(y)
    decreases x, 1
  {
    match x
    case Obj(_) => MergeIgnoresOrder(map[], x, y);
    case Arr(xs) => ConvertAllIgnoresOrder(xs, y.items);
    case _ =>
  }

  lemma {:induction false} ConvertAllIgnoresOrder(xs: seq<Json>, ys: seq<Json>)
    requires |xs| == |ys|
    requires forall i :: 0 <= i < |xs| ==> DistinctKeys(xs[i]) && DistinctKeys(ys[i]) && SameUpToOrder(xs[i], ys[i])
    ensures ConvertAll(xs) == ConvertAll(ys)
    decreases xs
  {
    if |xs| > 0 {
      ConvertIgnoresOrder(xs[0], ys[0]);
      ConvertAllIgnoresOrder(xs[1..], ys[1..]);
    }
  }

  // ---- what a merge leaves at each path ----

  type Path = p: seq<string> | |p| > 0 witness [""]

  /** The value at a path of a table; only tables have anything below them. */
  function ValueAt(table: Entries, path: Path): Option<Toml>
    decreases |path|
  {
    match Entry(table, path[0])
    case None => None
    case Some(v) =>
      if |path| == 1 then Some(v)
      else if v.Table? then ValueAt(v.entries, path[1..])
      else None
  }

  function JsonAt(json: Json, path: Path): Option<Json>
    decreases |path|
  {
    if !json.Obj? then None
    else
      match FieldValue(json.fields, path[0])
      case None => None
      case Some(v) => if |path| == 1 then Some(v) else JsonAt(v, path[1..])
  }

  /** Every proper prefix of the path is a table, or absent. */
  predicate Open(table: Entries, path: Path)
    decreases |path|
  {
    |path| == 1 ||
    match Entry(table, path[0])
    case None => true
    case Some(v) => v.Table? && Open(v.entries, path[1..])
  }

  /** A value that is written over whatever is at its path. */
  predicate IsLeaf(v: Json) {
    !v.Obj? && Convert(v).Some?
  }

  /** The path lies strictly below a leaf of the object. */
  predicate BelowLeaf(json: Json, path: Path)
    decreases |path|
  {
    json.Obj? && |path| > 1 && FieldValue(json.fields, path[0]).Some? &&
    var v := FieldValue(json.fields, path[0]).value;
    IsLeaf(v) || BelowLeaf(v, path[1..])
  }

  lemma {:induction false} NothingAtAllPaths(path: Path)
    ensures ValueAt(map[], path) == None && Open(map[], path)
  {
  }

  /**
   * Read-back: a path where the object has a leaf or a sub-object holds what the rule for one key makes of
   * the value that was there, provided the way to it is open; otherwise there is nothing at the path.
   */
  lemma {:induction false} MergedAtPath(table: Entries, json: Json, path: Path)
    requires DistinctKeys(json) && JsonAt(json, path).Some?
    ensures ValueAt(Merge(table, json), path)
         == if Open(table, path) then MergedValue(ValueAt(table, path), JsonAt(json, path)) else None
    decreases |path|
  {
    hide Merge, Convert;
    MergeAtKey(table, json, path[0]);
    if |path| > 1 {
      var v := FieldIsSmaller(json, path[0]);
      match Entry(table, path[0])
      case None =>
        MergedAtPath(map[], v, path[1..]);
        NothingAtAllPaths(path[1..]);
      case Some(Table(entries)) =>
        MergedAtPath(entries, v, path[1..]);
      case _ =>
    }
  }

  /** A leaf of the object reads back as its conversion. */
  lemma LeafReadsBack(table: Entries, json: Json, path: Path)
    requires DistinctKeys(json) && JsonAt(json, path).Some? && IsLeaf(JsonAt(json, path).value)
    ensures Open(table, path) ==> ValueAt(Merge(table, json), path) == Convert(JsonAt(json, path).value)
  {
    MergedAtPath(table, json, path);
  }

  /** A sub-object that meets a value other than a table changes nothing at its path. */
  lemma SubObjectIsLostOnOtherValues(table: Entries, json: Json, path: Path)
    requires DistinctKeys(json) && JsonAt(json, path).Some? && JsonAt(json, path).value.Obj?
    requires Open(table, path) && ValueAt(table, path).Some? && !ValueAt(table, path).value.Table?
    ensures ValueAt(Merge(table, json), path) == ValueAt(table, path)
  {
    MergedAtPath(table, json, path);
  }

  /** Frame: a path that is not at a value of the object, nor below one of its leaves, is unchanged. */
  lemma {:induction false} UnmentionedPathIsUnchanged(table: Entries, json: Json, path: Path)
    requires DistinctKeys(json) && JsonAt(json, path) == None && !BelowLeaf(json, path)
    ensures ValueAt(Merge(table, json), path) == ValueAt(table, path)
    decreases |path|
  {
    hide Convert;
    if json.Obj? {
      hide Merge;
      MergeAtKey(table, json, path[0]);
      if FieldValue(json.fields, path[0]).Some? {
        var v := FieldIsSmaller(json, path[0]);
        if v.Obj? {
          match Entry(table, path[0])
          case None =>
            UnmentionedPathIsUnchanged(map[], v, path[1..]);
            NothingAtAllPaths(path[1..]);
          case Some(Table(entries)) =>
            UnmentionedPathIsUnchanged(entries, v, path[1..]);
          case _ =>
        }
      }
    }
  }

  /** A null, and any other value that has no conversion, leaves what was at its path. */
  lemma UnconvertibleValueLeavesNoTrace(table: Entries, json: Json, path: Path)
    requires DistinctKeys(json) && JsonAt(json, path).Some?
    requires !JsonAt(json, path).value.Obj? && Convert(JsonAt(json, path).value) == None
    ensures ValueAt(Merge(table, json), path) == ValueAt(table, path)
  {
    MergedAtPath(table, json, path);
    if !Open(table, path) {
      ClosedPathHoldsNothing(table, path);
    }
  }

  lemma {:induction false} ClosedPathHoldsNothing(table: Entries, path: Path)
    requires !Open(table, path)
    ensures ValueAt(table, path) == None
    decreases |path|
  {
    if Entry(table, path[0]).value.Table? {
      ClosedPathHoldsNothing(Entry(table, path[0]).value.entries, path[1..]);
    }
  }

  /** Below a leaf nothing is left: the leaf has replaced whatever table was there. */
  lemma {:induction false} NothingBelowLeaf(table: Entries, json: Json, path: Path)
    requires DistinctKeys(json) && BelowLeaf(json, path)
    ensures ValueAt(Merge(table, json), path) == None
    decreases |path|
  {
    hide Merge, Convert;
    MergeAtKey(table, json, path[0]);
    var v := FieldIsSmaller(json, path[0]);
    if IsLeaf(v) {
      LeafIsNoTable(v);
    } else {
      match Entry(table, path[0])
      case None => NothingBelowLeaf(map[], v, path[1..]);
      case Some(Table(entries)) => NothingBelowLeaf(entries, v, path[1..]);
      case _ =>
    }
  }

  lemma LeafIsNoTable(v: Json)
    requires IsLeaf(v)
    ensures !Convert(v).value.Table?
  {
  }
}
