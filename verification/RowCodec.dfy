/** The codec the row layer is given can be had: some encoding of rows and tables loses nothing. */
module RowCodecs {
  import opened ByteStrings
  import opened MvccKeys
  import opened SqlValues
  import opened RowKeys
  import opened Schemas
  import opened RowStores

  /** Byte strings one after another, each closed by its terminator. */
  function Packed(bs: seq<Bytes>): Bytes {
    if bs == [] then [] else Terminated(bs[0]) + Packed(bs[1..])
  }

  lemma {:induction false} PackedInjective(a: seq<Bytes>, b: seq<Bytes>)
    requires Packed(a) == Packed(b)
    ensures a == b
    decreases |a|
  {
    if a != [] && b != [] {
      DecodeTerminated(a[0], Packed(a[1..]));
      DecodeTerminated(b[0], Packed(b[1..]));
      PackedInjective(a[1..], b[1..]);
      assert a == [a[0]] + a[1..] && b == [b[0]] + b[1..];
    }
  }

  // ---- Rows ----

  function PackRow(row: Row): Bytes {
    Packed(seq(|row|, i requires 0 <= i < |row| => EncodePrimaryKey(row[i])))
  }

  lemma PackRowInjective(a: Row, b: Row)
    requires PackRow(a) == PackRow(b)
    ensures a == b
  {
    var x := seq(|a|, i requires 0 <= i < |a| => EncodePrimaryKey(a[i]));
    var y := seq(|b|, i requires 0 <= i < |b| => EncodePrimaryKey(b[i]));
    PackedInjective(x, y);
    forall i | 0 <= i < |a|
      ensures a[i] == b[i]
    {
      assert x[i] == y[i];
      PrimaryKeyInjective(a[i], b[i]);
    }
  }

  // ---- Tables ----

  function PackFlag(b: bool): Bytes {
    [if b then 1 else 0]
  }

  function PackType(d: DataType): Bytes {
    match d
    case BooleanType => [0]
    case IntegerType => [1]
    case FloatType => [2]
    case StringType => [3]
  }

  function PackDefault(v: Option<Value>): Bytes {
    if v.None? then [] else EncodePrimaryKey(v.value)
  }

  function PackColumn(c: Column): Bytes {
    Packed([c.name, PackType(c.dataType), PackFlag(c.nullable), PackDefault(c.default), PackFlag(c.primaryKey)])
  }

  lemma PackColumnInjective(a: Column, b: Column)
    requires PackColumn(a) == PackColumn(b)
    ensures a == b
  {
    var x := [a.name, PackType(a.dataType), PackFlag(a.nullable), PackDefault(a.default), PackFlag(a.primaryKey)];
    var y := [b.name, PackType(b.dataType), PackFlag(b.nullable), PackDefault(b.default), PackFlag(b.primaryKey)];
    PackedInjective(x, y);
    assert forall i :: 0 <= i < 5 ==> x[i] == y[i];
    assert x[1][0] == y[1][0] && x[2][0] == y[2][0] && x[4][0] == y[4][0];
    if a.default.Some? && b.default.Some? {
      PrimaryKeyInjective(a.default.value, b.default.value);
    }
  }

  function PackTable(t: Table): Bytes {
    Packed([t.name] + seq(|t.columns|, i requires 0 <= i < |t.columns| => PackColumn(t.columns[i])))
  }

  lemma PackTableInjective(a: Table, b: Table)
    requires PackTable(a) == PackTable(b)
    ensures a == b
  {
    var x := [a.name] + seq(|a.columns|, i requires 0 <= i < |a.columns| => PackColumn(a.columns[i]));
    var y := [b.name] + seq(|b.columns|, i requires 0 <= i < |b.columns| => PackColumn(b.columns[i]));
    PackedInjective(x, y);
    assert x[0] == y[0];
    forall i | 0 <= i < |a.columns|
      ensures a.columns[i] == b.columns[i]
    {
      assert x[i + 1] == y[i + 1];
      PackColumnInjective(a.columns[i], b.columns[i]);
    }
  }

  // ---- The codec ----

  ghost function UnpackRow(b: Bytes): Option<Row> {
    if row: Row :| PackRow(row) == b then Some(row) else None
  }

  ghost function UnpackTable(b: Bytes): Option<Table> {
    if t: Table :| PackTable(t) == b then Some(t) else None
  }

  lemma LosslessExists()
    ensures exists c :: Lossless(c)
  {
    var c := Codec(row => PackRow(row), b => UnpackRow(b), t => PackTable(t), b => UnpackTable(b));
    forall row
      ensures c.decodeRow(c.encodeRow(row)) == Some(row)
    {
      PackRowInjective(UnpackRow(PackRow(row)).value, row);
    }
    forall t
      ensures c.decodeTable(c.encodeTable(t)) == Some(t)
    {
      PackTableInjective(UnpackTable(PackTable(t)).value, t);
    }
    assert Lossless(c);
  }
}
