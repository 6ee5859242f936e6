/** Where the statements of executor/executor.go read their rows, and DELETE. */
module Statements {
  import opened ByteStrings
  import opened SqlValues
  import opened RowKeys
  import opened Schemas
  import opened Expressions
  import opened RowStores
  import opened LogRoom
  import opened RowTraces
  import opened KvTransactions

  function ColumnNames(t: Table): (names: seq<Bytes>)
    ensures |names| == |t.columns| && forall i :: 0 <= i < |names| ==> names[i] == t.columns[i].name
  {
    seq(|t.columns|, i requires 0 <= i < |t.columns| => t.columns[i].name)
  }

  lemma RowsFit(c: Codec, view: View, t: Table)
    requires Sound(c, view) && TableAt(c, view, t)
    ensures AllFit(ColumnNames(t), RowsOf(c, view, t))
  {
    ScanIsExact(c, view, t);
  }

  /** The rows a WHERE clause selects; all of them without one. */
  ghost function Chosen(c: Codec, view: View, t: Table, where: Option<Expression>): seq<Row>
    requires Sound(c, view) && TableAt(c, view, t)
  {
    RowsFit(c, view, t);
    if where.None? then RowsOf(c, view, t) else Selected(where.value, ColumnNames(t), RowsOf(c, view, t))
  }

  ghost predicate Selectable(c: Codec, view: View, t: Table, where: Option<Expression>)
    requires Sound(c, view) && TableAt(c, view, t)
  {
    RowsFit(c, view, t);
    where.Some? ==> !Fails(where.value, ColumnNames(t), RowsOf(c, view, t))
  }

  /** A row of the table t. */
  ghost predicate RowIn(c: Codec, view: View, t: Table, row: Row) {
    exists key :: RowAt(c, view, key, t, row)
  }

  /** Without a WHERE clause every row is asked for, otherwise those of which it is true. */
  ghost predicate Asked(t: Table, where: Option<Expression>, row: Row) {
    where.Some? ==> True(where.value, ColumnNames(t), row)
  }

  /** Exactly the rows of the table that are asked for, each once, in ascending order of primary key. */
  ghost predicate Targets(c: Codec, view: View, t: Table, where: Option<Expression>, rows: seq<Row>) {
    && (forall row :: row in rows <==> RowIn(c, view, t, row) && Asked(t, where, row))
    && forall i, j :: 0 <= i < j < |rows| ==> KeysAscend(t, rows[i], rows[j])
  }

  predicate KeysAscend(t: Table, a: Row, b: Row) {
    PrimaryKey(t, a).Some? && PrimaryKey(t, b).Some? && Below(PrimaryKey(t, a).value, PrimaryKey(t, b).value)
  }

  /** The WHERE clause has a value on every row of the table. */
  ghost predicate Answerable(c: Codec, view: View, t: Table, where: Option<Expression>) {
    where.Some? ==> forall row :: RowIn(c, view, t, row) ==> !Meaningless(where.value, ColumnNames(t), row)
  }

  lemma ScanHasRows(c: Codec, view: View, t: Table)
    requires Sound(c, view) && TableAt(c, view, t)
    ensures forall row :: row in RowsOf(c, view, t) <==> RowIn(c, view, t, row)
    ensures var rows := RowsOf(c, view, t); forall i, j :: 0 <= i < j < |rows| ==> KeysAscend(t, rows[i], rows[j])
  {
    ScanIsExact(c, view, t);
    var rows := RowsOf(c, view, t);
    forall row | row in rows
      ensures RowIn(c, view, t, row)
    {
      assert RowAt(c, view, KeyOf(t, row), t, row);
    }
    forall i, j | 0 <= i < j < |rows|
      ensures KeysAscend(t, rows[i], rows[j])
    {
      PrimaryKeysComparable(t, rows[i], rows[j]);
      CompareExact(PrimaryKey(t, rows[i]).value, PrimaryKey(t, rows[j]).value);
    }
  }

  lemma SelectedHas(e: Expression, columns: seq<Bytes>, rows: seq<Row>) returns (from: seq<nat>)
    requires AllFit(columns, rows)
    ensures var kept := Selected(e, columns, rows);
            && |from| == |kept| && (forall i, j :: 0 <= i < j < |from| ==> from[i] < from[j] < |rows|)
            && (forall i :: 0 <= i < |from| ==> from[i] < |rows| && kept[i] == rows[from[i]])
            && forall row :: row in kept <==> row in rows && True(e, columns, row)
  {
    var kept, wanted := Selected(e, columns, rows), Marks(e, columns, rows);
    from := SelectedFrom(e, columns, rows);
    forall i | 0 <= i < |rows|
      ensures wanted[i] <==> True(e, columns, rows[i])
    {
      EvaluateExact(e, Scope(columns, rows[i]), Scope(columns, rows[i]), Boolean(true));
    }
    KeptHas(e, columns, rows, wanted, kept, from);
  }

  lemma KeptHas(
    e: Expression, columns: seq<Bytes>, rows: seq<Row>, wanted: seq<bool>, kept: seq<Row>, from: seq<nat>)
    requires TrueOf(e, columns, rows, wanted) && KeptFrom(rows, wanted, kept, from)
    ensures forall row :: row in kept <==> row in rows && True(e, columns, row)
  {
    forall row
      ensures row in kept ==> row in rows && True(e, columns, row)
    {
      if row in kept {
        var j :| 0 <= j < |kept| && kept[j] == row;
        assert from[j] in from && row == rows[from[j]];
      }
    }
    forall row
      ensures row in rows && True(e, columns, row) ==> row in kept
    {
      if row in rows && True(e, columns, row) {
        var i :| 0 <= i < |rows| && rows[i] == row;
        var j :| 0 <= j < |from| && from[j] == i;
        assert kept[j] == row;
      }
    }
  }

  /** The chosen rows are those asked for, and choosing fails exactly if the clause has no value on some row. */
  lemma ChosenExact(c: Codec, view: View, t: Table, where: Option<Expression>)
    requires Sound(c, view) && TableAt(c, view, t)
    ensures Targets(c, view, t, where, Chosen(c, view, t, where))
    ensures Selectable(c, view, t, where) <==> Answerable(c, view, t, where)
  {
    ScanHasRows(c, view, t);
    RowsFit(c, view, t);
    if where.Some? {
      var from := SelectedHas(where.value, ColumnNames(t), RowsOf(c, view, t));
      FailsExact(where.value, ColumnNames(t), RowsOf(c, view, t));
    }
  }

  method Choose(ghost c: Codec, ghost view: View, t: Table, where: Option<Expression>, all: seq<Row>)
    returns (rows: Option<seq<Row>>)
    requires Sound(c, view) && TableAt(c, view, t) && all == RowsOf(c, view, t)
    ensures rows.Some? <==> Selectable(c, view, t, where)
    ensures rows.Some? ==> rows.value == Chosen(c, view, t, where)
  {
    RowsFit(c, view, t);
    rows := Some(all);
    if where.Some? {
      rows := Filter(where.value, ColumnNames(t), all);
    }
  }

  method ScanWhere(txn: KvTransaction, t: Table, where: Option<Expression>) returns (rows: Option<seq<Row>>)
    requires txn.Valid() && TableAt(txn.codec, txn.view, t)
    modifies txn.Repr()
    ensures txn.Valid() && txn.view == old(txn.view) && txn.writes == old(txn.writes)
    ensures rows.Some? <==> Selectable(txn.codec, txn.view, t, where)
    ensures rows.Some? ==> rows.value == Chosen(txn.codec, txn.view, t, where)
  {
    rows := txn.ScanTable(t);
    label scanned:
    rows := Choose(txn.codec, txn.view, t, where, rows.value);
    txn.StillValid@scanned();
  }

  /** `ScanExecutor`, under a `FilterExecutor` if there is a WHERE clause. */
  method Source(txn: KvTransaction, name: Bytes, where: Option<Expression>, ghost t: Table)
    returns (rows: Option<seq<Row>>)
    requires txn.Valid() && TableAt(txn.codec, txn.view, t) && t.name == name
    modifies txn.Repr()
    ensures txn.Valid() && txn.view == old(txn.view) && txn.writes == old(txn.writes)
    ensures rows.Some? <==> Selectable(txn.codec, txn.view, t, where)
    ensures rows.Some? <==> Answerable(txn.codec, txn.view, t, where)
    ensures rows.Some? ==> rows.value == Chosen(txn.codec, txn.view, t, where)
    ensures rows.Some? ==> Targets(txn.codec, txn.view, t, where, rows.value)
  {
    ChosenExact(txn.codec, txn.view, t, where);
    var ok, found := txn.GetTable(name);
    if !ok || found.None? {
      return None;
    }
    rows := ScanWhere(txn, found.value, where);
  }

  /** The key of a row; every row of the right length has one. */
  function KeyFor(t: Table, row: Row): Bytes {
    if PrimaryKey(t, row).Some? then KeyOf(t, row) else []
  }

  /** Distinct rows of the table t. */
  ghost predicate DistinctRows(c: Codec, view: View, t: Table, rows: seq<Row>) {
    && (forall i :: 0 <= i < |rows| ==> RowAt(c, view, KeyFor(t, rows[i]), t, rows[i]))
    && (forall i, j :: 0 <= i < j < |rows| ==> KeyFor(t, rows[i]) != KeyFor(t, rows[j]))
  }

  lemma DistinctHaveKeys(c: Codec, view: View, t: Table, rows: seq<Row>, i: nat)
    requires DistinctRows(c, view, t, rows) && i < |rows|
    ensures PrimaryKey(t, rows[i]).Some?
  {
    assert RowAt(c, view, KeyFor(t, rows[i]), t, rows[i]);
  }

  lemma DistinctKeys(c: Codec, view: View, t: Table, rows: seq<Row>, i: nat, j: nat)
    requires IsScan(c, view, t, rows) && TableAt(c, view, t) && i < j < |rows|
    ensures KeyFor(t, rows[i]) != KeyFor(t, rows[j])
  {
    var v, w := PrimaryKey(t, rows[i]).value, PrimaryKey(t, rows[j]).value;
    if KeyFor(t, rows[i]) == KeyFor(t, rows[j]) {
      RowKeyInjective(t.name, v, t.name, w);
      PrimaryKeysComparable(t, rows[i], rows[j]);
      CompareOrders(v, w, w);
    }
  }

  lemma ChosenDistinct(c: Codec, view: View, t: Table, where: Option<Expression>)
    requires Sound(c, view) && TableAt(c, view, t)
    ensures DistinctRows(c, view, t, Chosen(c, view, t, where))
  {
    var rows, chosen := RowsOf(c, view, t), Chosen(c, view, t, where);
    ScanIsExact(c, view, t);
    RowsFit(c, view, t);
    var from := seq(|rows|, i => i);
    if where.Some? {
      from := SelectedFrom(where.value, ColumnNames(t), rows);
    }
    forall i, j | 0 <= i < j < |chosen|
      ensures KeyFor(t, chosen[i]) != KeyFor(t, chosen[j])
    {
      DistinctKeys(c, view, t, rows, from[i], from[j]);
    }
  }

  ghost function KeySet(t: Table, rows: seq<Row>): set<Bytes> {
    set i | 0 <= i < |rows| :: KeyFor(t, rows[i])
  }

  lemma KeySetStep(t: Table, rows: seq<Row>, i: nat)
    requires i < |rows|
    ensures KeySet(t, rows[..i + 1]) == KeySet(t, rows[..i]) + {KeyFor(t, rows[i])}
  {
    var more, fewer := rows[..i + 1], rows[..i];
    assert more[i] == rows[i] && forall j :: 0 <= j < i ==> more[j] == fewer[j];
    forall k | k in KeySet(t, fewer)
      ensures k in KeySet(t, more)
    {
      var j :| 0 <= j < i && KeyFor(t, fewer[j]) == k;
      assert KeyFor(t, more[j]) == k;
    }
    forall k | k in KeySet(t, more)
      ensures k in KeySet(t, fewer) || k == KeyFor(t, rows[i])
    {
      var j :| 0 <= j < i + 1 && KeyFor(t, more[j]) == k;
      assert j < i ==> KeyFor(t, fewer[j]) == k;
    }
  }

  method DeleteOne(txn: KvTransaction, t: Table, row: Row) returns (s: Status)
    requires txn.Valid() && PrimaryKey(t, row).Some? && NoZero(t.name)
    modifies txn.Repr()
    ensures txn.Valid() && !s.Refused?
    ensures txn.view == if s.Ok? then old(txn.view) - {KeyFor(t, row)} else old(txn.view)
    ensures old(txn.writes).Keys <= txn.writes.Keys && (s.Ok? ==> KeyFor(t, row) in txn.writes)
    ensures s.Conflicted? ==> Clashed(txn.store.ops, txn.version, t.name)
    ensures s.TooLarge? ==> txn.store.OnDisk() && !Roomy(KeyFor(t, row), None)
  {
    var primary := PrimaryKeyValue(t, row);
    txn.StillValid();
    s := txn.DeleteRow(t, primary.value);
  }

  /** A log on disk has no room for the deletion of one of the rows. */
  ghost predicate DeleteOversized(t: Table, rows: seq<Row>) {
    exists i :: 0 <= i < |rows| && !Roomy(KeyFor(t, rows[i]), None)
  }

  method DeleteRows(txn: KvTransaction, t: Table, rows: seq<Row>) returns (s: Status, count: nat)
    requires txn.Valid() && DistinctRows(txn.codec, txn.view, t, rows) && NoZero(t.name)
    modifies txn.Repr()
    ensures txn.Valid() && !s.Refused?
    ensures s.Ok? ==> txn.view == old(txn.view) - KeySet(t, rows) && count == |rows|
    ensures s.Ok? ==> KeySet(t, rows) <= txn.writes.Keys
    ensures s.Conflicted? ==> Clashed(txn.store.ops, txn.version, t.name)
    ensures s.TooLarge? ==> txn.store.OnDisk() && DeleteOversized(t, rows)
  {
    s, count := Ok, 0;
    for i := 0 to |rows|
      invariant txn.Valid() && s.Ok? && count == i
      invariant txn.view == old(txn.view) - KeySet(t, rows[..i]) && KeySet(t, rows[..i]) <= txn.writes.Keys
    {
      DistinctHaveKeys(txn.codec, old(txn.view), t, rows, i);
      s := DeleteOne(txn, t, rows[i]);
      if !s.Ok? {
        return;
      }
      KeySetStep(t, rows, i);
      count := count + 1;
    }
    assert rows[..|rows|] == rows;
  }

  ghost predicate IsTable(c: Codec, view: View, name: Bytes, t: Table) {
    TableAt(c, view, t) && t.name == name
  }

  lemma OneTable(c: Codec, view: View, name: Bytes, t: Table)
    requires IsTable(c, view, name, t)
    ensures forall u :: IsTable(c, view, name, u) ==> u == t
  {
  }

  ghost predicate Deletable(c: Codec, view: View, name: Bytes, where: Option<Expression>)
    requires Sound(c, view)
  {
    exists t :: IsTable(c, view, name, t) && Answerable(c, view, t, where)
  }

  /** Removes exactly the chosen rows. */
  method Delete(txn: KvTransaction, name: Bytes, where: Option<Expression>)
    returns (s: Status, count: nat, ghost t: Table)
    requires txn.Valid() && NoZero(name)
    modifies txn.Repr()
    ensures txn.Valid()
    ensures s.Refused? <==> !Deletable(txn.codec, old(txn.view), name, where)
    ensures s.Ok? ==> IsTable(txn.codec, old(txn.view), name, t) && Selectable(txn.codec, old(txn.view), t, where)
    ensures s.Ok? ==>
              var rows := Chosen(txn.codec, old(txn.view), t, where);
              Targets(txn.codec, old(txn.view), t, where, rows) &&
              txn.view == old(txn.view) - KeySet(t, rows) && count == |rows| && KeySet(t, rows) <= txn.writes.Keys
    ensures s.Conflicted? ==> Clashed(txn.store.ops, txn.version, name)
    ensures s.TooLarge? ==>
              && txn.store.OnDisk() && IsTable(txn.codec, old(txn.view), name, t)
              && DeleteOversized(t, Chosen(txn.codec, old(txn.view), t, where))
  {
    t := Table([], []);
    var ok, found := txn.GetTable(name);
    if !ok || found.None? {
      return Refused, 0, t;
    }
    t := found.value;
    OneTable(txn.codec, txn.view, name, t);
    var rows := Source(txn, name, where, t);
    if rows.None? {
      return Refused, 0, t;
    }
    ChosenDistinct(txn.codec, txn.view, t, where);
    s, count := DeleteRows(txn, found.value, rows.value);
  }
}
