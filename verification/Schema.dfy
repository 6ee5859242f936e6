/** Table definitions (schema/schema.go) and the check of a row against one (engine/kv.go). */
module Schemas {
  import opened ByteStrings
  import opened SqlValues

  datatype Column = Column(name: Bytes, dataType: DataType, nullable: bool, default: Option<Value>, primaryKey: bool)

  datatype Table = Table(name: Bytes, columns: seq<Column>)

  function PrimaryCount(cs: seq<Column>): nat {
    if cs == [] then 0 else PrimaryCount(cs[..|cs| - 1]) + if cs[|cs| - 1].primaryKey then 1 else 0
  }

  predicate ValidColumn(c: Column) {
    && (c.primaryKey ==> !c.nullable)
    && (c.default.Some? && TypeOf(c.default.value).Some? ==> TypeOf(c.default.value) == Some(c.dataType))
  }

  /** A name, columns, defaults of the right types, and exactly one primary key, which is not nullable. */
  predicate ValidTable(t: Table) {
    t.name != [] && t.columns != [] && (forall c :: c in t.columns ==> ValidColumn(c)) && PrimaryCount(t.columns) == 1
  }

  /** v is a value of the type d. */
  predicate OfType(d: DataType, v: Value) {
    match d
    case BooleanType => v.Boolean?
    case IntegerType => v.Integer?
    case FloatType => v.Float?
    case StringType => v.Str?
  }

  lemma TypeIs(d: DataType, v: Value)
    ensures TypeOf(v) == Some(d) <==> OfType(d, v)
    ensures TypeOf(v).None? <==> v.Null?
  {
  }

  /** Column i is the only primary key. */
  predicate OnlyPrimary(cs: seq<Column>, i: nat) {
    i < |cs| && forall j :: 0 <= j < |cs| ==> (cs[j].primaryKey <==> j == i)
  }

  lemma {:induction false} NoPrimary(cs: seq<Column>)
    ensures PrimaryCount(cs) == 0 <==> forall c :: c in cs ==> !c.primaryKey
  {
    if cs != [] {
      NoPrimary(cs[..|cs| - 1]);
      assert forall c :: c in cs <==> c in cs[..|cs| - 1] || c == cs[|cs| - 1];
    }
  }

  lemma {:induction false} OnePrimary(cs: seq<Column>)
    ensures PrimaryCount(cs) == 1 <==> exists i :: OnlyPrimary(cs, i)
  {
    if cs != [] {
      var last := |cs| - 1;
      if cs[last].primaryKey {
        NoPrimary(cs[..last]);
        assert PrimaryCount(cs) == 1 ==> OnlyPrimary(cs, last);
      } else {
        OnePrimary(cs[..last]);
        forall i
          ensures OnlyPrimary(cs, i) <==> OnlyPrimary(cs[..last], i)
        {
        }
      }
    }
  }

  /** A primary key is not nullable, and a default that is not NULL is of the column's type. */
  predicate GoodColumn(c: Column) {
    (c.primaryKey ==> !c.nullable) && (c.default.Some? ==> c.default.value.Null? || OfType(c.dataType, c.default.value))
  }

  lemma ValidTableExact(t: Table)
    ensures ValidTable(t) <==>
              && t.name != [] && t.columns != [] && (forall c :: c in t.columns ==> GoodColumn(c))
              && exists i :: OnlyPrimary(t.columns, i)
  {
    OnePrimary(t.columns);
    forall c | c in t.columns
      ensures ValidColumn(c) <==> GoodColumn(c)
    {
      if c.default.Some? {
        TypeIs(c.dataType, c.default.value);
      }
    }
  }

  /** `Table.Validate` */
  method Validate(t: Table) returns (ok: bool)
    ensures ok <==> ValidTable(t)
    ensures ok <==>
              && t.name != [] && t.columns != [] && (forall c :: c in t.columns ==> GoodColumn(c))
              && exists i :: OnlyPrimary(t.columns, i)
  {
    ValidTableExact(t);
    if t.name == [] || t.columns == [] {
      return false;
    }
    var primaryKeys := 0;
    for i := 0 to |t.columns|
      invariant primaryKeys == PrimaryCount(t.columns[..i])
      invariant forall c :: c in t.columns[..i] ==> ValidColumn(c)
    {
      var column := t.columns[i];
      assert t.columns[..i + 1][..i] == t.columns[..i] && column in t.columns;
      if column.primaryKey {
        primaryKeys := primaryKeys + 1;
        if column.nullable {
          return false;
        }
      }
      if column.default.None? || TypeOf(column.default.value).None? {
        continue;
      }
      if TypeOf(column.default.value) != Some(column.dataType) {
        return false;
      }
    }
    assert t.columns[..|t.columns|] == t.columns;
    ok := primaryKeys == 1;
  }

  /** i is the first primary-key column. */
  predicate IsPrimary(t: Table, i: nat) {
    i < |t.columns| && t.columns[i].primaryKey && forall j :: 0 <= j < i ==> !t.columns[j].primaryKey
  }

  lemma {:induction false} SomePrimary(cs: seq<Column>)
    requires PrimaryCount(cs) > 0
    ensures exists i :: 0 <= i < |cs| && cs[i].primaryKey
  {
    if !cs[|cs| - 1].primaryKey {
      SomePrimary(cs[..|cs| - 1]);
      var i :| 0 <= i < |cs| - 1 && cs[..|cs| - 1][i].primaryKey;
      assert cs[i].primaryKey;
    }
  }

  function PrimaryFrom(t: Table, i: nat): nat
    requires i <= |t.columns|
    decreases |t.columns| - i
  {
    if i == |t.columns| || t.columns[i].primaryKey then i else PrimaryFrom(t, i + 1)
  }

  lemma {:induction false} PrimaryFromIs(t: Table, i: nat)
    requires i <= |t.columns| && forall j :: 0 <= j < i ==> !t.columns[j].primaryKey
    ensures PrimaryFrom(t, i) <= |t.columns| && forall j :: 0 <= j < PrimaryFrom(t, i) ==> !t.columns[j].primaryKey
    ensures PrimaryFrom(t, i) < |t.columns| ==> IsPrimary(t, PrimaryFrom(t, i))
    decreases |t.columns| - i
  {
    if i < |t.columns| && !t.columns[i].primaryKey {
      PrimaryFromIs(t, i + 1);
    }
  }

  lemma ValidHasPrimary(t: Table)
    requires ValidTable(t)
    ensures IsPrimary(t, PrimaryFrom(t, 0))
  {
    SomePrimary(t.columns);
    PrimaryFromIs(t, 0);
  }

  /** The primary key of a row: the cell in the primary-key column; None is the source's error. */
  function PrimaryKey(t: Table, row: Row): Option<Value> {
    if |row| != |t.columns| || PrimaryFrom(t, 0) >= |row| then None else Some(row[PrimaryFrom(t, 0)])
  }

  /** `Table.PrimaryKeyValue` */
  method PrimaryKeyValue(t: Table, row: Row) returns (v: Option<Value>)
    ensures v == PrimaryKey(t, row)
    ensures v.Some? <==> |row| == |t.columns| && exists i: nat :: IsPrimary(t, i)
    ensures forall i: nat :: v.Some? && IsPrimary(t, i) ==> v.value == row[i]
  {
    PrimaryFromIs(t, 0);
    if |row| != |t.columns| {
      return None;
    }
    for i := 0 to |t.columns|
      invariant PrimaryFrom(t, 0) == PrimaryFrom(t, i)
      invariant forall j :: 0 <= j < i ==> !t.columns[j].primaryKey
    {
      if t.columns[i].primaryKey {
        assert IsPrimary(t, i);
        return Some(row[i]);
      }
    }
    v := None;
  }

  /** `ColumnIndex`: the first column of that name. */
  method ColumnIndex(t: Table, name: Bytes) returns (i: Option<nat>)
    ensures i.Some? ==> i.value < |t.columns| && t.columns[i.value].name == name
    ensures i.Some? ==> forall j :: 0 <= j < i.value ==> t.columns[j].name != name
    ensures i.None? ==> forall j :: 0 <= j < |t.columns| ==> t.columns[j].name != name
  {
    for n := 0 to |t.columns|
      invariant forall j :: 0 <= j < n ==> t.columns[j].name != name
    {
      if t.columns[n].name == name {
        return Some(n);
      }
    }
    i := None;
  }

  predicate ValidCell(c: Column, v: Value) {
    if v.Null? then c.nullable else TypeOf(v) == Some(c.dataType)
  }

  predicate ValidRow(t: Table, row: Row) {
    |row| == |t.columns| && forall i :: 0 <= i < |row| ==> ValidCell(t.columns[i], row[i])
  }

  /** A NULL where that is allowed, or a value of the column's type. */
  predicate GoodCell(c: Column, v: Value) {
    (v.Null? && c.nullable) || OfType(c.dataType, v)
  }

  lemma ValidRowExact(t: Table, row: Row)
    ensures ValidRow(t, row) <==>
            |row| == |t.columns| && forall i :: 0 <= i < |row| ==> GoodCell(t.columns[i], row[i])
  {
    if |row| == |t.columns| {
      forall i | 0 <= i < |row|
        ensures ValidCell(t.columns[i], row[i]) <==> GoodCell(t.columns[i], row[i])
      {
        TypeIs(t.columns[i].dataType, row[i]);
      }
    }
  }

  /** `validateRow` */
  method ValidateRow(t: Table, row: Row) returns (ok: bool)
    ensures ok <==> ValidRow(t, row)
    ensures ok <==> |row| == |t.columns| && forall i :: 0 <= i < |row| ==> GoodCell(t.columns[i], row[i])
  {
    ValidRowExact(t, row);
    if |row| != |t.columns| {
      return false;
    }
    for i := 0 to |t.columns|
      invariant forall j :: 0 <= j < i ==> ValidCell(t.columns[j], row[j])
    {
      if row[i].Null? {
        if !t.columns[i].nullable {
          return false;
        }
        continue;
      }
      if TypeOf(row[i]) != Some(t.columns[i].dataType) {
        return false;
      }
    }
    ok := true;
  }

  /** Valid rows have primary keys, all of one type and none of them NULL. */
  lemma PrimaryKeysComparable(t: Table, a: Row, b: Row)
    requires ValidTable(t) && ValidRow(t, a) && ValidRow(t, b)
    ensures PrimaryKey(t, a).Some? && PrimaryKey(t, b).Some?
    ensures SameType(PrimaryKey(t, a).value, PrimaryKey(t, b).value)
  {
    ValidHasPrimary(t);
    var i := PrimaryFrom(t, 0);
    assert t.columns[i] in t.columns;
    assert ValidCell(t.columns[i], a[i]) && ValidCell(t.columns[i], b[i]);
  }
}
