/**
  Records as an index tree stores them (src/sql_ibtree.c, src/sql_value.c, src/sql_record.c): the value of the primary
  key first, then the other columns in the order of the table, whatever order the record lists them in.
*/
module Record {
  import opened Bytes

  datatype Type = IntType | TextType

  datatype Column = Column(name: bytes, columnType: Type, isPrimary: bool)

  datatype Value = Number(num: int) | Text(text: bytes)

  /** The names of the columns, and the values in the same order. */
  datatype Record = Record(columns: seq<bytes>, values: seq<Value>)

  datatype Status = Ok | BadRecord | MissingPrimaryKey

  // ---- looking up columns ----

  /** The first place of a name from `from` on, or -1. */
  function IndexFrom(names: seq<bytes>, name: bytes, from: nat): (i: int)
    requires from <= |names|
    ensures i == -1 || (from <= i < |names| && names[i] == name)
    ensures i == -1 ==> forall j :: from <= j < |names| ==> names[j] != name
    decreases |names| - from
  {
    if from == |names| then -1 else if names[from] == name then from else IndexFrom(names, name, from + 1)
  }

  function IndexOf(names: seq<bytes>, name: bytes): (i: int)
    ensures i == -1 || (0 <= i < |names| && names[i] == name)
  {
    IndexFrom(names, name, 0)
  }

  /** sql_record_schema_indexof: the first column of that name, or -1 if there is none. */
  method FindColumn(names: seq<bytes>, name: bytes) returns (index: int)
    ensures index == IndexOf(names, name)
    ensures index == -1 || (0 <= index < |names| && names[index] == name)
    ensures forall j :: 0 <= j < (if index == -1 then |names| else index) ==> names[j] != name
  {
    var i := 0;
    while i < |names|
      invariant i <= |names| && IndexOf(names, name) == IndexFrom(names, name, i)
      invariant forall j :: 0 <= j < i ==> names[j] != name
    {
      if names[i] == name {
        return i;
      }
      i := i + 1;
    }
    index := -1;
  }

  function PrimaryFrom(table: seq<Column>, from: nat): (i: int)
    requires from <= |table|
    ensures i == -1 || (from <= i < |table| && table[i].isPrimary)
    decreases |table| - from
  {
    if from == |table| then -1 else if table[from].isPrimary then from else PrimaryFrom(table, from + 1)
  }

  /** sql_table_find_primary_key: the first primary column, or -1 if there is none. */
  method FindPrimary(table: seq<Column>) returns (index: int)
    ensures index == PrimaryFrom(table, 0)
    ensures index == -1 || (0 <= index < |table| && table[index].isPrimary)
    ensures forall j :: 0 <= j < (if index == -1 then |table| else index) ==> !table[j].isPrimary
  {
    var i := 0;
    while i < |table|
      invariant i <= |table| && PrimaryFrom(table, 0) == PrimaryFrom(table, i)
      invariant forall j :: 0 <= j < i ==> !table[j].isPrimary
    {
      if table[i].isPrimary {
        return i;
      }
      i := i + 1;
    }
    index := -1;
  }

  // ---- values ----

  function EncodedSize(v: Value): nat { if v.Text? then 4 + |v.text| else 4 }

  predicate Storable(v: Value) { v.Text? ==> |v.text| < TWO_32 }

  /** sql_value_serialize: numbers are cut to 32 bits. */
  function Encode(v: Value): (b: bytes)
    requires Storable(v)
    ensures |b| == EncodedSize(v)
  {
    match v
    case Number(num) => WriteLe32(num % TWO_32)
    case Text(text) => WriteLe32(|text|) + text
  }

  /** What a value is after it has been stored and loaded. */
  function Loaded(v: Value): Value { if v.Number? then Number(v.num % TWO_32) else v }

  predicate HasType(v: Value, t: Type) { if t == IntType then v.Number? else v.Text? }

  /** sql_value_deserialize_as. */
  function Decode(t: Type, b: bytes): (r: (Value, nat))
    requires |b| >= 4 && (t == TextType ==> |b| >= 4 + ReadLe32(b))
    ensures r.1 <= |b|
  {
    match t
    case IntType => (Number(ReadLe32(b)), 4)
    case TextType => (Text(b[4..4 + ReadLe32(b)]), 4 + ReadLe32(b))
  }

  lemma {:induction false} DecodeEncoded(v: Value, t: Type, rest: bytes)
    requires Storable(v) && HasType(v, t)
    ensures
      var b := Encode(v) + rest;
      && |b| >= 4 && (t == TextType ==> |b| >= 4 + ReadLe32(b))
      && Decode(t, b) == (Loaded(v), EncodedSize(v)) && b[EncodedSize(v)..] == rest
  {
    match v
    case Number(num) => Le32RoundTrip(num % TWO_32, rest);
    case Text(text) =>
      Le32RoundTrip(|text|, text + rest);
      assert Encode(v) + rest == WriteLe32(|text|) + (text + rest);
  }

  /** A value comes back as it was if and only if it is text or a number of 32 bits without sign. */
  lemma {:induction false} LoadedIsSame(v: Value)
    ensures Loaded(v) == v <==> v.Text? || 0 <= v.num < TWO_32
  {
  }

  /** Of other numbers what comes back is the one of 32 bits that differs from it by a multiple of 2 to the 32. */
  lemma {:induction false} LoadedIsCongruent(num: int, k: int)
    ensures
      var v := Loaded(Number(num));
      && v.Number? && 0 <= v.num < 0x1_0000_0000 && (num - v.num) % 0x1_0000_0000 == 0
      && (0 <= k < 0x1_0000_0000 && (num - k) % 0x1_0000_0000 == 0 ==> k == v.num)
  {
  }

  /** The bytes of a stored value: four bytes that have its value, or those of its length and then its text. */
  lemma {:induction false} EncodedBytes(v: Value)
    requires Storable(v)
    ensures v.Number? ==> |Encode(v)| == 4 && Bytes.Value(Encode(v)) == Loaded(v).num
    ensures v.Text? ==>
      |Encode(v)| == 4 + |v.text| && Bytes.Value(Encode(v)[..4]) == |v.text| && Encode(v)[4..] == v.text
  {
    match v
    case Number(num) => WrittenIsValue(num % TWO_32);
    case Text(text) =>
      WrittenIsValue(|text|);
      assert Encode(v)[..4] == WriteLe32(|text|);
  }

  function EncodeAll(vs: seq<Value>): bytes
    requires forall i :: 0 <= i < |vs| ==> Storable(vs[i])
  {
    if vs == [] then [] else Encode(vs[0]) + EncodeAll(vs[1..])
  }

  function SizeOfAll(vs: seq<Value>): nat {
    if vs == [] then 0 else SizeOfAll(vs[..|vs| - 1]) + EncodedSize(vs[|vs| - 1])
  }

  /** sql_value_array_ser_size. */
  method ArraySize(vs: seq<Value>) returns (size: nat)
    ensures size == SizeOfAll(vs)
  {
    size := 0;
    for i := 0 to |vs|
      invariant size == SizeOfAll(vs[..i])
    {
      assert vs[..i + 1][..i] == vs[..i];
      size := size + if vs[i].Text? then 4 + |vs[i].text| else 4;
    }
    assert vs[..|vs|] == vs;
  }

  lemma {:induction false} EncodeAllLast(vs: seq<Value>, v: Value)
    requires Storable(v) && forall i :: 0 <= i < |vs| ==> Storable(vs[i])
    ensures EncodeAll(vs + [v]) == EncodeAll(vs) + Encode(v)
  {
    if vs == [] {
      assert [v][1..] == [] && [] + [v] == [v];
      assert EncodeAll([v]) == Encode(v) + [];
    } else {
      assert (vs + [v])[0] == vs[0] && (vs + [v])[1..] == vs[1..] + [v];
      EncodeAllLast(vs[1..], v);
      assert Encode(vs[0]) + (EncodeAll(vs[1..]) + Encode(v)) == (Encode(vs[0]) + EncodeAll(vs[1..])) + Encode(v);
    }
  }

  lemma {:induction false} SizeOfEncoded(vs: seq<Value>)
    requires forall i :: 0 <= i < |vs| ==> Storable(vs[i])
    ensures |EncodeAll(vs)| == SizeOfAll(vs)
  {
    if vs != [] {
      var front := vs[..|vs| - 1];
      SizeOfEncoded(front);
      EncodeAllLast(front, vs[|vs| - 1]);
      assert front + [vs[|vs| - 1]] == vs;
    }
  }

  // ---- the order of the columns ----

  /** The columns before `n` other than the primary key. */
  function Others(n: nat, primary: nat): (r: seq<nat>)
    ensures forall i :: 0 <= i < |r| ==> r[i] < n && r[i] != primary
  {
    if n == 0 then [] else Others(n - 1, primary) + if n - 1 == primary then [] else [n - 1]
  }

  /** The order in which a record is stored. */
  function StoredOrder(n: nat, primary: nat): seq<nat> { [primary] + Others(n, primary) }

  /** The primary key is stored first, and the other columns as they stand in the table. */
  lemma {:induction false} OrderAscends(n: nat, primary: nat)
    requires primary < n
    ensures
      var order := StoredOrder(n, primary);
      && |order| == n && order[0] == primary
      && (forall i, j :: 1 <= i < j < n ==> order[i] < order[j])
      && (forall i :: 1 <= i < n ==> order[i] < n && order[i] != primary)
  {
    OthersComplete(n, primary);
    OthersAscend(n, primary);
  }

  lemma {:induction false} OthersAscend(n: nat, primary: nat)
    ensures forall i, j :: 0 <= i < j < |Others(n, primary)| ==> Others(n, primary)[i] < Others(n, primary)[j]
  {
    if n > 0 { OthersAscend(n - 1, primary); }
  }

  ghost predicate Distinct<T>(s: seq<T>) { forall i, j :: 0 <= i < j < |s| ==> s[i] != s[j] }

  lemma {:induction false} OthersComplete(n: nat, primary: nat)
    ensures Distinct(Others(n, primary)) && |Others(n, primary)| == if primary < n then n - 1 else n
  {
    if n > 0 { OthersComplete(n - 1, primary); }
  }

  lemma {:induction false} OrderComplete(n: nat, primary: nat)
    requires primary < n
    ensures Distinct(StoredOrder(n, primary)) && |StoredOrder(n, primary)| == n
    ensures forall i :: 0 <= i < n ==> StoredOrder(n, primary)[i] < n
  {
    OthersComplete(n, primary);
  }

  // ---- permutations ----

  function SumAt(sizes: seq<nat>, at: seq<nat>): nat
    requires forall i :: 0 <= i < |at| ==> at[i] < |sizes|
  {
    if at == [] then 0 else SumAt(sizes, at[..|at| - 1]) + sizes[at[|at| - 1]]
  }

  function Sum(sizes: seq<nat>): nat { if sizes == [] then 0 else Sum(sizes[..|sizes| - 1]) + sizes[|sizes| - 1] }

  function Without<T>(s: seq<T>, i: nat): seq<T>
    requires i < |s|
  {
    s[..i] + s[i + 1..]
  }

  lemma {:induction false} SumAtWithout(sizes: seq<nat>, at: seq<nat>, i: nat)
    requires i < |at| && forall k :: 0 <= k < |at| ==> at[k] < |sizes|
    ensures SumAt(sizes, at) == SumAt(sizes, Without(at, i)) + sizes[at[i]]
  {
    var n := |at| - 1;
    if i == n {
      assert Without(at, i) == at[..n];
    } else {
      SumAtWithout(sizes, at[..n], i);
      var rest := Without(at, i);
      assert rest[..n - 1] == Without(at[..n], i) && rest[n - 1] == at[n];
    }
  }

  lemma {:induction false} SumAtShorter(sizes: seq<nat>, at: seq<nat>)
    requires sizes != [] && forall k :: 0 <= k < |at| ==> at[k] < |sizes| - 1
    ensures SumAt(sizes, at) == SumAt(sizes[..|sizes| - 1], at)
  {
    if at != [] { SumAtShorter(sizes, at[..|at| - 1]); }
  }

  /** Distinct places below `n`, and `n` of them: the last place is among them. */
  lemma {:induction false} SomewhereLast(at: seq<nat>, n: nat)
    requires n > 0 && |at| == n && Distinct(at) && forall k :: 0 <= k < n ==> at[k] < n
    ensures exists i :: 0 <= i < n && at[i] == n - 1
  {
    if forall i :: 0 <= i < n ==> at[i] != n - 1 { TooMany(at, n - 1); }
  }

  lemma {:induction false} TooMany(at: seq<nat>, n: nat)
    requires Distinct(at) && forall k :: 0 <= k < |at| ==> at[k] < n
    ensures |at| <= n
  {
    var first := if at == [] then 0 else at[0];
    if at != [] && exists k :: 0 <= k < |at| && at[k] == n - 1 {
      var k :| 0 <= k < |at| && at[k] == n - 1;
      var rest := Without(at, k);
      assert forall j :: 0 <= j < |rest| ==> rest[j] == at[if j < k then j else j + 1];
      TooMany(rest, n - 1);
    } else if at != [] {
      TooMany(at, n - 1);
    }
  }

  /** A sum over all places, each once and in any order, is the sum. */
  lemma {:induction false} SumOfPermutation(sizes: seq<nat>, at: seq<nat>)
    requires |at| == |sizes| && Distinct(at) && forall k :: 0 <= k < |at| ==> at[k] < |sizes|
    ensures SumAt(sizes, at) == Sum(sizes)
  {
    if sizes != [] {
      SomewhereLast(at, |sizes|);
      var i :| 0 <= i < |at| && at[i] == |sizes| - 1;
      WithoutLast(sizes, at, i);
      SumOfPermutation(sizes[..|sizes| - 1], Without(at, i));
    }
  }

  lemma {:induction false} WithoutLast(sizes: seq<nat>, at: seq<nat>, i: nat)
    requires sizes != [] && i < |at| == |sizes| && Distinct(at) && at[i] == |sizes| - 1
    requires forall k :: 0 <= k < |at| ==> at[k] < |sizes|
    ensures
      var rest := Without(at, i);
      && |rest| == |sizes| - 1 && Distinct(rest) && (forall k :: 0 <= k < |rest| ==> rest[k] < |sizes| - 1)
      && SumAt(sizes, at) == SumAt(sizes[..|sizes| - 1], rest) + sizes[|sizes| - 1]
  {
    var rest := Without(at, i);
    SumAtWithout(sizes, at, i);
    assert forall j :: 0 <= j < |rest| ==> rest[j] == at[if j < i then j else j + 1];
    SumAtShorter(sizes, rest);
  }

  // ---- records ----

  /** The table has one primary key at least, and no name twice. */
  ghost predicate IsTable(table: seq<Column>) {
    PrimaryFrom(table, 0) != -1 && Distinct(Names(table))
  }

  function Names(table: seq<Column>): (names: seq<bytes>)
    ensures |names| == |table| && forall i :: 0 <= i < |names| ==> names[i] == table[i].name
  {
    seq(|table|, i requires 0 <= i < |table| => table[i].name)
  }

  /** The value that a record gives to a name. */
  function ValueOf(record: Record, name: bytes): Value
    requires |record.values| == |record.columns| && IndexOf(record.columns, name) != -1
  {
    record.values[IndexOf(record.columns, name)]
  }

  /** The record has a storable value of the right type for every column of the table. */
  ghost predicate FitsTable(table: seq<Column>, record: Record) {
    && |record.values| == |record.columns|
    && forall i :: 0 <= i < |table| ==>
      && IndexOf(record.columns, table[i].name) != -1
      && HasType(ValueOf(record, table[i].name), table[i].columnType) && Storable(ValueOf(record, table[i].name))
  }

  /** The values of the record, for columns in a given order. */
  function Arranged(table: seq<Column>, record: Record, order: seq<nat>): (vs: seq<Value>)
    requires |record.values| == |record.columns|
    requires forall k :: 0 <= k < |order| ==> order[k] < |table| && IndexOf(record.columns, table[order[k]].name) != -1
    ensures |vs| == |order| && forall k :: 0 <= k < |order| ==> vs[k] == ValueOf(record, table[order[k]].name)
  {
    seq(|order|, k requires 0 <= k < |order| => ValueOf(record, table[order[k]].name))
  }

  /** The record has as many columns as the table, all of them the table's: the sizes come to the same in any order. */
  lemma {:induction false} ArrangedSize(table: seq<Column>, record: Record, primary: nat)
    requires IsTable(table) && primary < |table| && FitsTable(table, record) && |record.columns| == |table|
    ensures |StoredOrder(|table|, primary)| == |table|
    ensures forall k :: 0 <= k < |table| ==> StoredOrder(|table|, primary)[k] < |table|
    ensures SizeOfAll(Arranged(table, record, StoredOrder(|table|, primary))) == SizeOfAll(record.values)
  {
    var order := StoredOrder(|table|, primary);
    OrderComplete(|table|, primary);
    var at := seq(|order|, k requires 0 <= k < |order| => IndexOf(record.columns, table[order[k]].name) as nat);
    var sizes := seq(|record.values|, k requires 0 <= k < |record.values| => EncodedSize(record.values[k]));
    forall j, k | 0 <= j < k < |at| ensures at[j] != at[k] {
      assert order[j] != order[k];
      assert Names(table)[order[j]] != Names(table)[order[k]];
      assert record.columns[at[j]] == table[order[j]].name && record.columns[at[k]] == table[order[k]].name;
    }
    SumOfPermutation(sizes, at);
    SizesInOrder(Arranged(table, record, order), sizes, at);
    SizesSum(record.values, sizes);
  }

  lemma {:induction false} SizesInOrder(vs: seq<Value>, sizes: seq<nat>, at: seq<nat>)
    requires |vs| == |at| && forall k :: 0 <= k < |at| ==> at[k] < |sizes| && sizes[at[k]] == EncodedSize(vs[k])
    ensures SizeOfAll(vs) == SumAt(sizes, at)
  {
    if vs != [] { SizesInOrder(vs[..|vs| - 1], sizes, at[..|at| - 1]); }
  }

  lemma {:induction false} SizesSum(vs: seq<Value>, sizes: seq<nat>)
    requires |vs| == |sizes| && forall k :: 0 <= k < |vs| ==> sizes[k] == EncodedSize(vs[k])
    ensures SizeOfAll(vs) == Sum(sizes)
  {
    if vs != [] { SizesSum(vs[..|vs| - 1], sizes[..|sizes| - 1]); }
  }

  // ---- storing ----

  lemma {:induction false} OthersPrefix(n: nat, m: nat, primary: nat)
    requires m <= n
    ensures Others(m, primary) <= Others(n, primary)
    decreases n
  {
    if m < n { OthersPrefix(n - 1, m, primary); }
  }

  /** The next column in stored order. */
  lemma {:induction false} NextInOrder(n: nat, i: nat, primary: nat)
    requires i < n && primary < n
    ensures StoredOrder(i, primary) <= StoredOrder(n, primary)
    ensures i != primary ==>
      |StoredOrder(i, primary)| < |StoredOrder(n, primary)| && StoredOrder(n, primary)[|StoredOrder(i, primary)|] == i
    ensures |StoredOrder(i + 1, primary)| == |StoredOrder(i, primary)| + if i == primary then 0 else 1
  {
    OthersPrefix(n, i, primary);
    OthersPrefix(n, i + 1, primary);
  }

  lemma {:induction false} SizeOfPrefix(vs: seq<Value>, k: nat)
    requires k < |vs|
    ensures SizeOfAll(vs[..k + 1]) == SizeOfAll(vs[..k]) + EncodedSize(vs[k]) && SizeOfAll(vs[..k + 1]) <= SizeOfAll(vs)
    decreases |vs|
  {
    assert vs[..k + 1][..k] == vs[..k];
    if k + 1 == |vs| {
      assert vs[..k + 1] == vs;
    } else {
      var front := vs[..|vs| - 1];
      SizeOfPrefix(front, k);
      assert front[..k + 1] == vs[..k + 1];
    }
  }

  /** sql_value_serialize into a buffer. */
  method WriteValue(buffer: array<byte>, at: nat, v: Value) returns (written: nat)
    requires Storable(v) && at + EncodedSize(v) <= buffer.Length
    modifies buffer
    ensures written == EncodedSize(v)
    ensures buffer[..at + written] == old(buffer[..at]) + Encode(v)
  {
    var b := Encode(v);
    forall k | 0 <= k < |b| { buffer[at + k] := b[k]; }
    written := |b|;
    assert buffer[at..at + written] == b;
    assert buffer[..at] == old(buffer[..at]);
    assert buffer[..at + written] == buffer[..at] + buffer[at..at + written];
  }

  /** The values written so far. */
  ghost predicate WrittenUpTo(buffer: bytes, written: nat, vs: seq<Value>, k: nat)
    requires forall i :: 0 <= i < |vs| ==> Storable(vs[i])
  {
    k <= |vs| && written == SizeOfAll(vs[..k]) && written <= |buffer| && buffer[..written] == EncodeAll(vs[..k])
  }

  /** One more value. */
  method WriteNext(buffer: array<byte>, at: nat, v: Value, ghost vs: seq<Value>, ghost k: nat) returns (written: nat)
    requires forall i :: 0 <= i < |vs| ==> Storable(vs[i])
    requires WrittenUpTo(buffer[..], at, vs, k) && k < |vs| && v == vs[k] && buffer.Length == SizeOfAll(vs)
    modifies buffer
    ensures WrittenUpTo(buffer[..], written, vs, k + 1)
  {
    SizeOfPrefix(vs, k);
    EncodeAllLast(vs[..k], v);
    assert vs[..k] + [v] == vs[..k + 1];
    assert buffer[..][..at] == buffer[..at];
    var n := WriteValue(buffer, at, v);
    written := at + n;
    assert buffer[..][..written] == buffer[..written];
  }

  /** The values of the record in stored order. */
  ghost predicate AreOrdered(table: seq<Column>, record: Record, primary: nat, vs: seq<Value>)
    requires |record.values| == |record.columns|
  {
    var order := StoredOrder(|table|, primary);
    |vs| == |order| && forall k :: 0 <= k < |vs| ==>
      && order[k] < |table| && IndexOf(record.columns, table[order[k]].name) != -1
      && vs[k] == ValueOf(record, table[order[k]].name)
  }

  lemma {:induction false} FirstInOrder(table: seq<Column>, record: Record, primary: nat, vs: seq<Value>)
    requires primary < |table| && |record.values| == |record.columns| && AreOrdered(table, record, primary, vs)
    ensures |vs| > 0 && IndexOf(record.columns, table[primary].name) != -1
    ensures vs[0] == ValueOf(record, table[primary].name)
  {
    assert StoredOrder(|table|, primary)[0] == primary;
  }

  lemma {:induction false} NextValue(table: seq<Column>, record: Record, primary: nat, vs: seq<Value>, i: nat)
    requires i < |table| && primary < |table| && i != primary
    requires |record.values| == |record.columns| && AreOrdered(table, record, primary, vs)
    ensures
      var k := |StoredOrder(i, primary)|;
      && k < |vs| && IndexOf(record.columns, table[i].name) != -1 && vs[k] == ValueOf(record, table[i].name)
  {
    NextInOrder(|table|, i, primary);
  }

  lemma {:induction false} AllWritten(buffer: bytes, written: nat, vs: seq<Value>)
    requires forall i :: 0 <= i < |vs| ==> Storable(vs[i])
    requires WrittenUpTo(buffer, written, vs, |vs|) && |buffer| == SizeOfAll(vs)
    ensures buffer == EncodeAll(vs)
  {
    assert vs[..|vs|] == vs && buffer[..|buffer|] == buffer;
  }

  /** The primary key, which comes first. */
  method WriteKey(
      table: seq<Column>, record: Record, primary: nat, first: nat, buffer: array<byte>, ghost vs: seq<Value>)
    returns (written: nat)
    requires primary < |table| && |record.values| == |record.columns|
    requires (forall i :: 0 <= i < |vs| ==> Storable(vs[i])) && AreOrdered(table, record, primary, vs)
    requires first == IndexOf(record.columns, table[primary].name) && first < |record.values|
    requires buffer.Length == SizeOfAll(vs)
    modifies buffer
    ensures WrittenUpTo(buffer[..], written, vs, |StoredOrder(0, primary)|)
  {
    assert vs[..0] == [] && buffer[..][..0] == [];
    FirstInOrder(table, record, primary, vs);
    written := WriteNext(buffer, 0, record.values[first], vs, 0);
  }

  /** The value of column `i`, after those that come before it. */
  method WriteColumn(
      table: seq<Column>, record: Record, primary: nat, i: nat, buffer: array<byte>, at: nat, ghost vs: seq<Value>)
    returns (written: nat)
    requires i < |table| && primary < |table| && i != primary && |record.values| == |record.columns|
    requires (forall i :: 0 <= i < |vs| ==> Storable(vs[i])) && AreOrdered(table, record, primary, vs)
    requires buffer.Length == SizeOfAll(vs) && WrittenUpTo(buffer[..], at, vs, |StoredOrder(i, primary)|)
    modifies buffer
    ensures WrittenUpTo(buffer[..], written, vs, |StoredOrder(i, primary)| + 1)
  {
    NextValue(table, record, primary, vs, i);
    var place := FindColumn(record.columns, table[i].name);
    written := WriteNext(buffer, at, record.values[place], vs, |StoredOrder(i, primary)|);
  }

  /** One turn: the column, unless it is the primary key. */
  method WriteTurn(
      table: seq<Column>, record: Record, primary: nat, i: nat, buffer: array<byte>, at: nat, ghost vs: seq<Value>)
    returns (written: nat)
    requires i < |table| && primary < |table| && |record.values| == |record.columns|
    requires (forall i :: 0 <= i < |vs| ==> Storable(vs[i])) && AreOrdered(table, record, primary, vs)
    requires buffer.Length == SizeOfAll(vs) && WrittenUpTo(buffer[..], at, vs, |StoredOrder(i, primary)|)
    modifies buffer
    ensures WrittenUpTo(buffer[..], written, vs, |StoredOrder(i + 1, primary)|)
  {
    NextInOrder(|table|, i, primary);
    written := at;
    if i != primary { written := WriteColumn(table, record, primary, i, buffer, at, vs); }
  }

  /** The primary key, then the other columns. */
  method WriteInOrder(
      table: seq<Column>, record: Record, primary: nat, first: nat, buffer: array<byte>, ghost vs: seq<Value>)
    requires primary < |table| && |record.values| == |record.columns|
    requires forall i :: 0 <= i < |vs| ==> Storable(vs[i])
    requires AreOrdered(table, record, primary, vs)
    requires first == IndexOf(record.columns, table[primary].name) && first < |record.values|
    requires buffer.Length == SizeOfAll(vs)
    modifies buffer
    ensures buffer[..] == EncodeAll(vs)
  {
    var written := WriteKey(table, record, primary, first, buffer, vs);
    for i := 0 to |table|
      invariant WrittenUpTo(buffer[..], written, vs, |StoredOrder(i, primary)|)
    {
      written := WriteTurn(table, record, primary, i, buffer, written, vs);
    }
    AllWritten(buffer[..], written, vs);
  }

  /**
    sql_ibtree_serialize_record_acquire: the buffer has exactly the size that the values add up to, and the values
    fill it, primary key first.
  */
  method Serialize(table: seq<Column>, record: Record) returns (status: Status, buffer: array<byte>)
    requires IsTable(table) && |record.values| == |record.columns|
    requires
      |record.columns| == |table| && IndexOf(record.columns, table[PrimaryFrom(table, 0)].name) != -1 ==>
        FitsTable(table, record)
    ensures status ==
      if |record.columns| != |table| then BadRecord
      else if IndexOf(record.columns, table[PrimaryFrom(table, 0)].name) == -1 then MissingPrimaryKey else Ok
    ensures status == Ok ==>
      && buffer.Length == SizeOfAll(record.values)
      && IsStored(table, record, buffer[..])
  {
    buffer := new byte[0];
    var primary := FindPrimary(table);
    if |record.columns| != |table| {
      return BadRecord, buffer;
    }
    var first := FindColumn(record.columns, table[primary].name);
    if first == -1 {
      return MissingPrimaryKey, buffer;
    }
    var size := ArraySize(record.values);
    ArrangedSize(table, record, primary);
    ghost var n := |table|;
    ghost var vs := Arranged(table, record, StoredOrder(n, primary));
    buffer := new byte[size](_ => 0);
    WriteInOrder(table, record, primary, first, buffer, vs);
    status := Ok;
  }

  /** The bytes of a stored record. */
  ghost predicate IsStored(table: seq<Column>, record: Record, stored: bytes)
    requires IsTable(table)
  {
    && FitsTable(table, record)
    && var primary: nat := PrimaryFrom(table, 0);
    && (forall k :: 0 <= k < |StoredOrder(|table|, primary)| ==> StoredOrder(|table|, primary)[k] < |table|)
    && stored == EncodeAll(Arranged(table, record, StoredOrder(|table|, primary)))
  }

  // ---- loading ----

  /** The values from `k` on, encoded. */
  function EncodeFrom(vs: seq<Value>, k: nat): bytes
    requires k <= |vs| && forall i :: 0 <= i < |vs| ==> Storable(vs[i])
    decreases |vs| - k
  {
    if k == |vs| then [] else Encode(vs[k]) + EncodeFrom(vs, k + 1)
  }

  lemma {:induction false} EncodeFromIsAll(vs: seq<Value>, k: nat)
    requires k <= |vs| && forall i :: 0 <= i < |vs| ==> Storable(vs[i])
    ensures EncodeFrom(vs, k) == EncodeAll(vs[k..])
    decreases |vs| - k
  {
    if k < |vs| {
      EncodeFromIsAll(vs, k + 1);
      assert vs[k..][0] == vs[k] && vs[k..][1..] == vs[k + 1..];
    }
  }

  /** sql_value_deserialize_as at a place of the buffer. */
  method ReadNext(stored: bytes, at: nat, t: Type, ghost vs: seq<Value>, ghost k: nat) returns (v: Value, next: nat)
    requires forall i :: 0 <= i < |vs| ==> Storable(vs[i])
    requires k < |vs| && at <= |stored| && stored[at..] == EncodeFrom(vs, k) && HasType(vs[k], t)
    ensures v == Loaded(vs[k]) && next <= |stored| && stored[next..] == EncodeFrom(vs, k + 1)
  {
    DecodeEncoded(vs[k], t, EncodeFrom(vs, k + 1));
    var r := Decode(t, stored[at..]);
    v, next := r.0, at + r.1;
    assert stored[at..][r.1..] == stored[next..];
  }

  /** The first columns in order, with the values that were stored. */
  ghost predicate LoadedSoFar(table: seq<Column>, order: seq<nat>, vs: seq<Value>, loaded: Record) {
    && |vs| == |order|
    && (forall k :: 0 <= k < |order| ==> order[k] < |table| && HasType(vs[k], table[order[k]].columnType))
    && |loaded.columns| == |loaded.values| <= |order|
    && forall k :: 0 <= k < |loaded.values| ==>
       loaded.columns[k] == table[order[k]].name && loaded.values[k] == Loaded(vs[k])
  }

  lemma {:induction false} OneMoreLoaded(
      table: seq<Column>, order: seq<nat>, vs: seq<Value>, loaded: Record, i: nat, v: Value)
    requires LoadedSoFar(table, order, vs, loaded) && |loaded.values| < |order|
    requires order[|loaded.values|] == i && v == Loaded(vs[|loaded.values|])
    ensures i < |table| && LoadedSoFar(table, order, vs, Record(loaded.columns + [table[i].name], loaded.values + [v]))
  {
  }

  /** The columns before `i`, and the primary key, have been read. */
  ghost predicate ReadUpTo(
      table: seq<Column>, primary: nat, i: nat, stored: bytes, at: nat, vs: seq<Value>, loaded: Record)
    requires forall k :: 0 <= k < |vs| ==> Storable(vs[k])
  {
    && LoadedSoFar(table, StoredOrder(|table|, primary), vs, loaded)
    && |loaded.values| == |StoredOrder(i, primary)|
    && at <= |stored| && stored[at..] == EncodeFrom(vs, |loaded.values|)
  }

  /** One column other than the primary key. */
  method ReadColumn(
      table: seq<Column>, primary: nat, i: nat, stored: bytes, at: nat, loaded: Record, ghost vs: seq<Value>)
    returns (more: Record, next: nat)
    requires forall k :: 0 <= k < |vs| ==> Storable(vs[k])
    requires i < |table| && primary < |table| && i != primary && ReadUpTo(table, primary, i, stored, at, vs, loaded)
    ensures ReadUpTo(table, primary, i + 1, stored, next, vs, more)
  {
    NextInOrder(|table|, i, primary);
    var v;
    v, next := ReadNext(stored, at, table[i].columnType, vs, |loaded.values|);
    more := Record(loaded.columns + [table[i].name], loaded.values + [v]);
    OneMoreRead(table, primary, i, stored, at, next, vs, loaded, v);
  }

  lemma {:induction false} OneMoreRead(
      table: seq<Column>, primary: nat, i: nat, stored: bytes, at: nat, next: nat, vs: seq<Value>, loaded: Record,
      v: Value)
    requires forall k :: 0 <= k < |vs| ==> Storable(vs[k])
    requires i < |table| && primary < |table| && i != primary && ReadUpTo(table, primary, i, stored, at, vs, loaded)
    requires |loaded.values| < |vs| && v == Loaded(vs[|loaded.values|])
    requires next <= |stored| && stored[next..] == EncodeFrom(vs, |loaded.values| + 1)
    ensures ReadUpTo(table, primary, i + 1, stored, next, vs,
      Record(loaded.columns + [table[i].name], loaded.values + [v]))
  {
    NextInOrder(|table|, i, primary);
    OneMoreLoaded(table, StoredOrder(|table|, primary), vs, loaded, i, v);
  }

  /** The primary key, then the other columns. */
  method ReadInOrder(table: seq<Column>, primary: nat, stored: bytes, ghost vs: seq<Value>)
    returns (loaded: Record, at: nat)
    requires forall k :: 0 <= k < |vs| ==> Storable(vs[k])
    requires primary < |table| && LoadedSoFar(table, StoredOrder(|table|, primary), vs, Record([], []))
    requires stored == EncodeAll(vs)
    ensures ReadUpTo(table, primary, |table|, stored, at, vs, loaded)
  {
    loaded, at := ReadKey(table, primary, stored, vs);
    for i := 0 to |table|
      invariant ReadUpTo(table, primary, i, stored, at, vs, loaded)
    {
      loaded, at := ReadTurn(table, primary, i, stored, at, loaded, vs);
    }
  }

  lemma {:induction false} AllRead(
      table: seq<Column>, primary: nat, stored: bytes, at: nat, vs: seq<Value>, loaded: Record)
    requires forall k :: 0 <= k < |vs| ==> Storable(vs[k])
    requires ReadUpTo(table, primary, |table|, stored, at, vs, loaded)
    ensures LoadedSoFar(table, StoredOrder(|table|, primary), vs, loaded)
    ensures |loaded.values| == |StoredOrder(|table|, primary)|
  {
  }

  /** One turn: the column, unless it is the primary key. */
  method ReadTurn(
      table: seq<Column>, primary: nat, i: nat, stored: bytes, at: nat, loaded: Record, ghost vs: seq<Value>)
    returns (more: Record, next: nat)
    requires forall k :: 0 <= k < |vs| ==> Storable(vs[k])
    requires i < |table| && primary < |table| && ReadUpTo(table, primary, i, stored, at, vs, loaded)
    ensures ReadUpTo(table, primary, i + 1, stored, next, vs, more)
  {
    more, next := loaded, at;
    if i != primary {
      more, next := ReadColumn(table, primary, i, stored, at, loaded, vs);
    } else {
      KeyIsRead(table, primary, stored, at, vs, loaded);
    }
  }

  /** The primary key, which comes first. */
  method ReadKey(
      table: seq<Column>, primary: nat, stored: bytes, ghost vs: seq<Value>)
    returns (loaded: Record, next: nat)
    requires forall k :: 0 <= k < |vs| ==> Storable(vs[k])
    requires primary < |table| && LoadedSoFar(table, StoredOrder(|table|, primary), vs, Record([], []))
    requires stored == EncodeAll(vs)
    ensures ReadUpTo(table, primary, 0, stored, next, vs, loaded)
  {
    EncodeFromIsAll(vs, 0);
    assert stored[0..] == stored && vs[0..] == vs;
    var v: Value;
    v, next := ReadNext(stored, 0, table[primary].columnType, vs, 0);
    loaded := Record([table[primary].name], [v]);
    KeyFirst(table, primary, vs, v);
  }

  lemma {:induction false} KeyFirst(table: seq<Column>, primary: nat, vs: seq<Value>, v: Value)
    requires primary < |table| && LoadedSoFar(table, StoredOrder(|table|, primary), vs, Record([], []))
    requires v == Loaded(vs[0])
    ensures LoadedSoFar(table, StoredOrder(|table|, primary), vs, Record([table[primary].name], [v]))
    ensures |StoredOrder(0, primary)| == 1
  {
    OneMoreLoaded(table, StoredOrder(|table|, primary), vs, Record([], []), primary, v);
    assert [] + [table[primary].name] == [table[primary].name] && [] + [v] == [v];
  }

  /** The primary key has been read already. */
  lemma {:induction false} KeyIsRead(
      table: seq<Column>, primary: nat, stored: bytes, at: nat, vs: seq<Value>, loaded: Record)
    requires forall k :: 0 <= k < |vs| ==> Storable(vs[k])
    requires primary < |table| && ReadUpTo(table, primary, primary, stored, at, vs, loaded)
    ensures ReadUpTo(table, primary, primary + 1, stored, at, vs, loaded)
  {
    NextInOrder(|table|, primary, primary);
  }

  /** sql_ibtree_deserialize_record. */
  method Deserialize(table: seq<Column>, stored: bytes, ghost record: Record) returns (loaded: Record)
    requires IsTable(table) && IsStored(table, record, stored)
    ensures |loaded.columns| == |loaded.values| == |table|
    ensures
      var order := StoredOrder(|table|, PrimaryFrom(table, 0));
      |order| == |table| && forall k :: 0 <= k < |table| ==>
        && order[k] < |table| && loaded.columns[k] == table[order[k]].name
        && loaded.values[k] == Loaded(ValueOf(record, table[order[k]].name))
  {
    var primary: nat := FindPrimary(table);
    OrderComplete(|table|, primary);
    ghost var vs := Arranged(table, record, StoredOrder(|table|, primary));
    var at;
    loaded, at := ReadInOrder(table, primary, stored, vs);
    AllRead(table, primary, stored, at, vs, loaded);
  }

  /** Storing a record and loading it again gives every column the value it had, numbers cut to 32 bits. */
  method StoreAndLoad(table: seq<Column>, record: Record) returns (loaded: Record)
    requires IsTable(table) && FitsTable(table, record) && |record.columns| == |table|
    ensures |loaded.columns| == |loaded.values| == |table|
    ensures forall i :: 0 <= i < |table| ==>
      && IndexOf(loaded.columns, table[i].name) != -1
      && ValueOf(loaded, table[i].name) == Loaded(ValueOf(record, table[i].name))
  {
    var status, buffer := Serialize(table, record);
    loaded := Deserialize(table, buffer[..], record);
    ghost var primary: nat := PrimaryFrom(table, 0);
    ghost var order := StoredOrder(|table|, primary);
    forall i | 0 <= i < |table|
      ensures IndexOf(loaded.columns, table[i].name) != -1
      ensures ValueOf(loaded, table[i].name) == Loaded(ValueOf(record, table[i].name))
    {
      EveryColumn(|table|, primary, i);
      var k :| 0 <= k < |order| && order[k] == i;
      assert loaded.columns[k] == table[i].name;
      var at := IndexOf(loaded.columns, table[i].name);
      assert loaded.columns[at] == table[order[at]].name;
      assert Names(table)[order[at]] == Names(table)[i];
    }
  }

  lemma {:induction false} EveryColumn(n: nat, primary: nat, i: nat)
    requires i < n && primary < n
    ensures exists k :: 0 <= k < |StoredOrder(n, primary)| && StoredOrder(n, primary)[k] == i
  {
    if i == primary {
      assert StoredOrder(n, primary)[0] == i;
    } else {
      NextInOrder(n, i, primary);
    }
  }
}
