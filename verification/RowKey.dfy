/** Keys of tables and rows (engine/kv.go): one table's rows are contiguous and sort by primary key. */
module RowKeys {
  import opened ByteStrings
  import opened MvccKeys
  import opened SqlValues

  // ---- Primary keys ----

  /** uint64(i) with its top bit flipped. */
  function OrderedInteger(i: Int64): Bits64 {
    var u: Bits64 := if i < 0 then i + TWO64 else i;
    if u >= TWO63 then u - TWO63 else u + TWO63
  }

  /** All bits flipped when the sign bit is set, else the sign bit flipped. */
  function OrderedFloat(b: Bits64): Bits64 {
    if SignBit(b) then TWO64 - 1 - b else b + TWO63
  }

  function EncodePrimaryKey(v: Value): Bytes {
    match v
    case Null => [0]
    case Boolean(b) => [1, if b then 1 else 0]
    case Integer(i) => [2] + BigEndian(OrderedInteger(i), 8)
    case Float(b) => [3] + BigEndian(OrderedFloat(b), 8)
    case Str(s) => [4] + s
  }

  /** Flipped float patterns sort by value, -0 just below +0. */
  lemma OrderedFloatOrder(a: Bits64, b: Bits64)
    ensures OrderedFloat(a) < OrderedFloat(b) <==>
            FloatValue(a) < FloatValue(b) || (a == NEGATIVE_ZERO && b == 0)
  {
    var m, n := if SignBit(a) then a - TWO63 else a, if SignBit(b) then b - TWO63 else b;
    MagnitudeOrder(m, n);
    MagnitudeOrder(n, m);
    MagnitudeOrder(0, m);
    MagnitudeOrder(0, n);
    assert Magnitude(0) == 0;
  }

  lemma EightBytesOrder(x: Bits64, y: Bits64)
    ensures Less(BigEndian(x, 8), BigEndian(y, 8)) <==> x < y
    ensures BigEndian(x, 8) == BigEndian(y, 8) <==> x == y
  {
    Pow256Of8();
    BigEndianOrder(x, y, 8);
    BigEndianRoundTrip(x, 8);
    BigEndianRoundTrip(y, 8);
  }

  /** Encoded primary keys of one type sort the way `Value.Compare` orders the values. */
  lemma PrimaryKeyOrder(v: Value, w: Value)
    requires SameType(v, w)
    ensures Less(EncodePrimaryKey(v), EncodePrimaryKey(w)) <==> Compare(v, w) == Some(-1)
  {
    match v
    case Boolean(_) =>
      LessCommonPrefix([1], [if v.b then 1 else 0], [if w.b then 1 else 0]);
      assert EncodePrimaryKey(v) == [1] + [if v.b then 1 else 0];
      assert EncodePrimaryKey(w) == [1] + [if w.b then 1 else 0];
    case Integer(_) =>
      LessCommonPrefix([2], BigEndian(OrderedInteger(v.i), 8), BigEndian(OrderedInteger(w.i), 8));
      EightBytesOrder(OrderedInteger(v.i), OrderedInteger(w.i));
    case Float(_) =>
      LessCommonPrefix([3], BigEndian(OrderedFloat(v.bits), 8), BigEndian(OrderedFloat(w.bits), 8));
      EightBytesOrder(OrderedFloat(v.bits), OrderedFloat(w.bits));
      OrderedFloatOrder(v.bits, w.bits);
    case Str(_) =>
      LessCommonPrefix([4], v.s, w.s);
  }

  lemma PrimaryKeyInjective(v: Value, w: Value)
    requires EncodePrimaryKey(v) == EncodePrimaryKey(w)
    ensures v == w
  {
    var a, b := EncodePrimaryKey(v), EncodePrimaryKey(w);
    assert a[0] == b[0] && a[1..] == b[1..];
    match v
    case Null =>
    case Boolean(_) => assert a[1] == b[1];
    case Integer(_) => EightBytesOrder(OrderedInteger(v.i), OrderedInteger(w.i));
    case Float(_) => EightBytesOrder(OrderedFloat(v.bits), OrderedFloat(w.bits));
    case Str(_) =>
  }

  // ---- Table and row keys ----

  /** Table names are lexer identifiers: they hold no zero byte. */
  predicate NoZero(name: Bytes) {
    0 !in name
  }

  function TableKey(name: Bytes): Bytes {
    [1] + name
  }

  function RowPrefix(name: Bytes): Bytes {
    [2] + name + [0]
  }

  function RowKey(name: Bytes, primary: Value): Bytes {
    RowPrefix(name) + EncodePrimaryKey(primary)
  }

  lemma {:induction false} ZeroEndsName(t: Bytes, x: Bytes, u: Bytes, y: Bytes)
    requires NoZero(t) && NoZero(u) && t + [0] + x == u + [0] + y
    ensures t == u && x == y
  {
    var l, r := t + [0] + x, u + [0] + y;
    assert t != [] ==> l[0] == t[0] && t[0] in t;
    assert u != [] ==> r[0] == u[0] && u[0] in u;
    assert t == [] ==> l[0] == 0 && l[1..] == x;
    assert u == [] ==> r[0] == 0 && r[1..] == y;
    if t != [] {
      assert l[1..] == t[1..] + [0] + x && r[1..] == u[1..] + [0] + y;
      assert l[0] == t[0] && r[0] == u[0];
      ZeroEndsName(t[1..], x, u[1..], y);
      assert t == [t[0]] + t[1..] && u == [u[0]] + u[1..];
    }
  }

  /** A row key determines its table and its primary key. */
  lemma RowKeyInjective(t: Bytes, v: Value, u: Bytes, w: Value)
    requires NoZero(t) && NoZero(u) && RowKey(t, v) == RowKey(u, w)
    ensures t == u && v == w
  {
    var x, y := EncodePrimaryKey(v), EncodePrimaryKey(w);
    assert RowKey(t, v)[1..] == t + [0] + x && RowKey(u, w)[1..] == u + [0] + y;
    ZeroEndsName(t, x, u, y);
    PrimaryKeyInjective(v, w);
  }

  /** A table's prefix selects its own rows, and no table entry. */
  lemma RowPrefixSelects(t: Bytes, u: Bytes, w: Value)
    requires NoZero(t) && NoZero(u)
    ensures RowPrefix(t) <= RowKey(u, w) <==> t == u
    ensures !(RowPrefix(t) <= TableKey(u))
    ensures TableKey(t) != RowKey(u, w)
  {
    NamePrefix(t, u, EncodePrimaryKey(w));
    assert RowKey(u, w)[0] == 2 && TableKey(t)[0] == 1 && RowPrefix(t)[0] == 2;
    assert TableKey(u)[0] == 1;
  }

  lemma NamePrefix(t: Bytes, u: Bytes, x: Bytes)
    requires NoZero(t) && NoZero(u)
    ensures RowPrefix(t) <= RowPrefix(u) + x <==> t == u
  {
    var key := RowPrefix(u) + x;
    if RowPrefix(t) <= key {
      var rest := key[|RowPrefix(t)|..];
      assert key == RowPrefix(t) + rest;
      assert key[1..] == t + [0] + rest;
      assert key[1..] == u + [0] + x;
      ZeroEndsName(t, rest, u, x);
    }
  }

  /** Within a table, row keys sort by primary key. */
  lemma RowKeyOrder(t: Bytes, v: Value, w: Value)
    requires SameType(v, w)
    ensures Less(RowKey(t, v), RowKey(t, w)) <==> Compare(v, w) == Some(-1)
  {
    LessCommonPrefix(RowPrefix(t), EncodePrimaryKey(v), EncodePrimaryKey(w));
    PrimaryKeyOrder(v, w);
  }
}
