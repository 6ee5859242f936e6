/** INSERT (executor/executor.go): completing each row, then creating them one after another. */
module Inserts {
  import opened ByteStrings
  import opened SqlValues
  import opened RowKeys
  import opened Schemas
  import opened Expressions
  import opened RowStores
  import opened LogRoom
  import opened SnapshotIsolation
  import opened RowTraces
  import opened KvTransactions
  import opened Moves
  import opened Statements

  /** Column i is the one an INSERT column list means by name: the last of that name. */
  predicate LastNamed(t: Table, i: nat, name: Bytes) {
    i < |t.columns| && t.columns[i].name == name && forall j :: i < j < |t.columns| ==> t.columns[j].name != name
  }

  ghost predicate Known(t: Table, name: Bytes) {
    exists i: nat :: LastNamed(t, i, name)
  }

  method Positions(t: Table) returns (positions: map<Bytes, nat>)
    ensures forall name :: name in positions ==> LastNamed(t, positions[name], name)
    ensures forall i :: 0 <= i < |t.columns| ==> t.columns[i].name in positions
  {
    positions := map[];
    for i := 0 to |t.columns|
      invariant forall name :: name in positions ==>
                  positions[name] < i && t.columns[positions[name]].name == name
                  && forall j :: positions[name] < j < i ==> t.columns[j].name != name
      invariant forall j :: 0 <= j < i ==> t.columns[j].name in positions
    {
      positions := positions[t.columns[i].name := i];
    }
  }

  /** Column i takes the value v: the one listed for it, else its default. */
  ghost predicate Takes(t: Table, names: seq<Bytes>, input: Row, i: nat, v: Value)
    requires i < |t.columns| && |names| == |input|
  {
    || (exists j :: 0 <= j < |names| && LastNamed(t, i, names[j]) && v == input[j])
    || ((forall j :: 0 <= j < |names| ==> !LastNamed(t, i, names[j])) && t.columns[i].default == Some(v))
  }

  /** The row an INSERT means: values in table order, or listed by column, and defaults elsewhere. */
  ghost predicate Completes(t: Table, names: seq<Bytes>, input: Row, row: Row) {
    && |row| == |t.columns|
    && if names == [] then
         && |input| <= |row| && row[..|input|] == input
         && forall i :: |input| <= i < |row| ==> t.columns[i].default == Some(row[i])
       else
         && |names| == |input|
         && (forall j :: 0 <= j < |names| ==> Known(t, names[j]))
         && (forall j, k :: 0 <= j < k < |names| ==> names[j] != names[k])
         && forall i: nat :: i < |row| ==> Takes(t, names, input, i, row[i])
  }

  method InTableOrder(t: Table, input: Row) returns (r: Option<Row>)
    ensures r.Some? ==> Completes(t, [], input, r.value)
    ensures r.None? ==> forall row :: !Completes(t, [], input, row)
  {
    if |input| > |t.columns| {
      return None;
    }
    var out := input;
    for i := |input| to |t.columns|
      invariant |out| == i && out[..|input|] == input
      invariant forall j :: |input| <= j < i ==> t.columns[j].default == Some(out[j])
    {
      if t.columns[i].default.None? {
        return None;
      }
      out := out + [t.columns[i].default.value];
    }
    r := Some(out);
  }

  /** Cell i holds what the first n listed values put there. */
  ghost predicate Filled(t: Table, names: seq<Bytes>, input: Row, n: nat, i: nat, cell: Option<Value>)
    requires n <= |names| == |input|
  {
    && (cell.Some? ==> exists j :: 0 <= j < n && LastNamed(t, i, names[j]) && cell.value == input[j])
    && (cell.None? ==> forall j :: 0 <= j < n ==> !LastNamed(t, i, names[j]))
  }

  /** Places the listed values; None if a name is unknown or repeated. */
  method Place(t: Table, names: seq<Bytes>, input: Row) returns (r: Option<seq<Option<Value>>>)
    requires |names| == |input|
    ensures r.Some? <==>
              && (forall j :: 0 <= j < |names| ==> Known(t, names[j]))
              && (forall j, k :: 0 <= j < k < |names| ==> names[j] != names[k])
    ensures r.Some? ==>
              && |r.value| == |t.columns|
              && forall i: nat :: i < |t.columns| ==> Filled(t, names, input, |names|, i, r.value[i])
  {
    var positions := Positions(t);
    var cells: seq<Option<Value>> := seq(|t.columns|, _ => None);
    for n := 0 to |names|
      invariant |cells| == |t.columns|
      invariant forall i: nat :: i < |t.columns| ==> Filled(t, names, input, n, i, cells[i])
      invariant forall j :: 0 <= j < n ==> Known(t, names[j])
      invariant forall j, k :: 0 <= j < k < n ==> names[j] != names[k]
    {
      if names[n] !in positions {
        return None;
      }
      var i := positions[names[n]];
      assert LastNamed(t, i, names[n]);
      assert Filled(t, names, input, n, i, cells[i]);
      if cells[i].Some? {
        return None;
      }
      cells := cells[i := Some(input[n])];
    }
    r := Some(cells);
  }

  /** `makeInsertRow` */
  method MakeInsertRow(t: Table, names: seq<Bytes>, input: Row) returns (r: Option<Row>)
    ensures r.Some? ==> Completes(t, names, input, r.value)
    ensures r.None? ==> forall row :: !Completes(t, names, input, row)
  {
    if names == [] {
      r := InTableOrder(t, input);
      return;
    }
    if |names| != |input| {
      return None;
    }
    var cells := Place(t, names, input);
    if cells.None? {
      return None;
    }
    var out: Row := [];
    for i := 0 to |t.columns|
      invariant |out| == i && forall j: nat :: j < i ==> Takes(t, names, input, j, out[j])
    {
      assert Filled(t, names, input, |names|, i, cells.value[i]);
      if cells.value[i].Some? {
        out := out + [cells.value[i].value];
        continue;
      }
      if t.columns[i].default.None? {
        forall row
          ensures !Completes(t, names, input, row)
        {
          assert |row| == |t.columns| ==> !Takes(t, names, input, i, row[i]);
        }
        return None;
      }
      out := out + [t.columns[i].default.value];
    }
    r := Some(out);
  }

  // ---- Creating the rows ----

  /** The constants of a VALUES list; None if one is not a constant. */
  method Constants(es: seq<Expression>) returns (row: Option<Row>)
    ensures row.Some? <==> forall i :: 0 <= i < |es| ==> es[i].Literal?
    ensures row.Some? ==> |row.value| == |es| && forall i :: 0 <= i < |es| ==> es[i].v == row.value[i]
  {
    var out: Row := [];
    for i := 0 to |es|
      invariant |out| == i && forall j :: 0 <= j < i ==> es[j] == Literal(out[j])
    {
      if !es[i].Literal? {
        return None;
      }
      out := out + [es[i].v];
    }
    row := Some(out);
  }

  /** row is what one VALUES list means. */
  ghost predicate Inserted(t: Table, names: seq<Bytes>, es: seq<Expression>, row: Row) {
    exists input: Row :: |input| == |es| && (forall i :: 0 <= i < |es| ==> es[i] == Literal(input[i]))
      && Completes(t, names, input, row)
  }

  lemma CompletesUnique(t: Table, names: seq<Bytes>, input: Row, a: Row, b: Row)
    requires Completes(t, names, input, a) && Completes(t, names, input, b)
    ensures a == b
  {
    forall i: nat | i < |a|
      ensures a[i] == b[i]
    {
      if names == [] {
        assert i < |input| ==> a[..|input|][i] == input[i] && b[..|input|][i] == input[i];
      } else {
        assert Takes(t, names, input, i, a[i]) && Takes(t, names, input, i, b[i]);
      }
    }
  }

  /** Without repeated column names, a VALUES list in table order means the same as with its columns listed. */
  lemma OrderIsList(t: Table, input: Row, row: Row)
    requires 0 < |input| <= |t.columns|
    requires forall i, j :: 0 <= i < j < |t.columns| ==> t.columns[i].name != t.columns[j].name
    ensures Completes(t, [], input, row) <==> Completes(t, ColumnNames(t)[..|input|], input, row)
  {
    var names := ColumnNames(t)[..|input|];
    forall i: nat, j: nat | i < |t.columns| && j < |names|
      ensures LastNamed(t, i, names[j]) <==> i == j
    {
    }
    if |row| == |t.columns| {
      forall i: nat | i < |row|
        ensures Takes(t, names, input, i, row[i]) <==>
                if i < |input| then row[i] == input[i] else t.columns[i].default == Some(row[i])
      {
        if i < |input| {
          assert LastNamed(t, i, names[i]);
        }
      }
      assert row[..|input|] == input <==> forall i :: 0 <= i < |input| ==> row[i] == input[i];
    }
    forall j | 0 <= j < |names|
      ensures Known(t, names[j])
    {
      assert LastNamed(t, j, names[j]);
    }
  }

  /** A VALUES list means at most one row. */
  lemma InsertedUnique(t: Table, names: seq<Bytes>, es: seq<Expression>, a: Row, b: Row)
    requires Inserted(t, names, es, a) && Inserted(t, names, es, b)
    ensures a == b
  {
    var x: Row :| |x| == |es| && (forall i :: 0 <= i < |es| ==> es[i] == Literal(x[i])) && Completes(t, names, x, a);
    var y: Row :| |y| == |es| && (forall i :: 0 <= i < |es| ==> es[i] == Literal(y[i])) && Completes(t, names, y, b);
    assert forall i :: 0 <= i < |es| ==> x[i] == es[i].v == y[i];
    assert x == y;
    CompletesUnique(t, names, x, a, b);
  }

  /** The rows the statement means. */
  ghost predicate InsertedRows(t: Table, names: seq<Bytes>, values: seq<seq<Expression>>, rows: seq<Row>) {
    |rows| == |values| && forall i :: 0 <= i < |rows| ==> Inserted(t, names, values[i], rows[i])
  }

  ghost function CreateMoves(c: Codec, t: Table, rows: seq<Row>): (ms: seq<Move>)
    ensures |ms| == |rows|
  {
    seq(|rows|, i requires 0 <= i < |rows| => Move(None, KeyFor(t, rows[i]), c.encodeRow(rows[i])))
  }

  ghost predicate AllRowsValid(t: Table, rows: seq<Row>) {
    forall i :: 0 <= i < |rows| ==> ValidRow(t, rows[i])
  }

  /** The rows are valid, their keys distinct and none of them in use. */
  ghost predicate Creatable(c: Codec, view: View, t: Table, rows: seq<Row>) {
    AllRowsValid(t, rows) && Clean(view, CreateMoves(c, t, rows))
  }

  lemma CreateStep(c: Codec, view: View, t: Table, rows: seq<Row>, row: Row)
    requires Creatable(c, view, t, rows) && ValidRow(t, row)
    requires KeyFor(t, row) !in Moved(view, CreateMoves(c, t, rows))
    ensures Creatable(c, view, t, rows + [row])
    ensures Moved(view, CreateMoves(c, t, rows + [row])) ==
            Moved(view, CreateMoves(c, t, rows))[KeyFor(t, row) := c.encodeRow(row)]
  {
    var ms, m := CreateMoves(c, t, rows), Move(None, KeyFor(t, row), c.encodeRow(row));
    CreateMovesStep(c, t, rows, row);
    MoveStep(view, ms, m);
    AllRowsValidStep(t, rows, row);
  }

  lemma CreateMovesStep(c: Codec, t: Table, rows: seq<Row>, row: Row)
    ensures CreateMoves(c, t, rows + [row]) == CreateMoves(c, t, rows) + [Move(None, KeyFor(t, row), c.encodeRow(row))]
  {
  }

  lemma AllRowsValidStep(t: Table, rows: seq<Row>, row: Row)
    requires AllRowsValid(t, rows) && ValidRow(t, row)
    ensures AllRowsValid(t, rows + [row])
  {
  }

  /** A row that cannot be created after the ones before it cannot be part of the statement. */
  lemma RefusedCreate(c: Codec, view: View, t: Table, rows: seq<Row>, i: nat)
    requires i < |rows| && Creatable(c, view, t, rows[..i])
    requires ValidRow(t, rows[i]) ==> KeyFor(t, rows[i]) in Moved(view, CreateMoves(c, t, rows[..i]))
    ensures !Creatable(c, view, t, rows)
  {
    var ms := CreateMoves(c, t, rows);
    assert ms[..i] == CreateMoves(c, t, rows[..i]);
    if ValidRow(t, rows[i]) {
      TargetInUse(view, ms, i);
    }
  }

  /** One VALUES list. */
  method InsertOne(txn: KvTransaction, t: Table, names: seq<Bytes>, es: seq<Expression>) returns (s: Status, row: Row)
    requires txn.Valid() && TableAt(txn.codec, txn.view, t)
    modifies txn.Repr()
    ensures txn.Valid() && TableAt(txn.codec, txn.view, t)
    ensures !s.Refused? ==> Inserted(t, names, es, row)
    ensures s.Ok? ==> ValidRow(t, row) && KeyFor(t, row) !in old(txn.view)
    ensures s.Ok? ==> txn.view == old(txn.view)[KeyFor(t, row) := txn.codec.encodeRow(row)]
    ensures s.Refused? ==> forall r :: Inserted(t, names, es, r) && ValidRow(t, r) ==> KeyFor(t, r) in old(txn.view)
    ensures old(txn.writes).Keys <= txn.writes.Keys && (s.Ok? ==> KeyFor(t, row) in txn.writes)
    ensures s.Conflicted? ==> Clashed(txn.store.ops, txn.version, t.name)
    ensures s.TooLarge? ==> txn.store.OnDisk() && !Roomy(KeyFor(t, row), Some(txn.codec.encodeRow(row)))
  {
    var input := Constants(es);
    txn.StillValid();
    if input.None? {
      return Refused, [];
    }
    var full := MakeInsertRow(t, names, input.value);
    txn.StillValid();
    if full.None? {
      forall r
        ensures !Inserted(t, names, es, r)
      {
        assert forall x: Row :: |x| == |es| && (forall i :: 0 <= i < |es| ==> es[i] == Literal(x[i])) ==>
          x == input.value;
      }
      return Refused, [];
    }
    row := full.value;
    assert Inserted(t, names, es, row);
    s := txn.CreateRow(t.name, row);
    if s.Refused? {
      forall r | Inserted(t, names, es, r) && ValidRow(t, r)
        ensures KeyFor(t, r) in old(txn.view)
      {
        InsertedUnique(t, names, es, r, row);
        PrimaryKeysComparable(t, row, row);
      }
    }
  }

  ghost predicate SoFar(
    c: Codec, view: View, t: Table, names: seq<Bytes>, values: seq<seq<Expression>>, rows: seq<Row>, now: View)
  {
    && |rows| <= |values| && InsertedRows(t, names, values[..|rows|], rows)
    && Creatable(c, view, t, rows) && now == Moved(view, CreateMoves(c, t, rows))
  }

  /** Whatever the rest of the statement is, the rows so far are its first rows. */
  lemma FirstRows(t: Table, names: seq<Bytes>, values: seq<seq<Expression>>, rows: seq<Row>, all: seq<Row>)
    requires |rows| <= |values| && InsertedRows(t, names, values[..|rows|], rows) && InsertedRows(t, names, values, all)
    ensures all[..|rows|] == rows
  {
    forall i | 0 <= i < |rows|
      ensures all[i] == rows[i]
    {
      assert values[..|rows|][i] == values[i];
      InsertedUnique(t, names, values[i], all[i], rows[i]);
    }
  }

  lemma RefusedStatement(
    c: Codec, view: View, t: Table, names: seq<Bytes>, values: seq<seq<Expression>>, rows: seq<Row>, now: View)
    requires SoFar(c, view, t, names, values, rows, now) && |rows| < |values|
    requires forall r :: Inserted(t, names, values[|rows|], r) && ValidRow(t, r) ==> KeyFor(t, r) in now
    ensures forall all :: InsertedRows(t, names, values, all) ==> !Creatable(c, view, t, all)
  {
    forall all | InsertedRows(t, names, values, all)
      ensures !Creatable(c, view, t, all)
    {
      FirstRows(t, names, values, rows, all);
      RefusedCreate(c, view, t, all, |rows|);
    }
  }

  lemma NextInsert(
    c: Codec, view: View, t: Table, names: seq<Bytes>, values: seq<seq<Expression>>, rows: seq<Row>, now: View,
    row: Row)
    requires SoFar(c, view, t, names, values, rows, now) && |rows| < |values|
    requires Inserted(t, names, values[|rows|], row) && ValidRow(t, row) && KeyFor(t, row) !in now
    ensures SoFar(c, view, t, names, values, rows + [row], now[KeyFor(t, row) := c.encodeRow(row)])
  {
    CreateStep(c, view, t, rows, row);
    InsertedStep(t, names, values, rows, row);
  }

  lemma InsertedStep(t: Table, names: seq<Bytes>, values: seq<seq<Expression>>, rows: seq<Row>, row: Row)
    requires |rows| < |values| && InsertedRows(t, names, values[..|rows|], rows)
    requires Inserted(t, names, values[|rows|], row)
    ensures InsertedRows(t, names, values[..|rows| + 1], rows + [row])
  {
    var n := |rows|;
    forall i | 0 <= i < n + 1
      ensures Inserted(t, names, values[..n + 1][i], (rows + [row])[i])
    {
      assert i < n ==> values[..n][i] == values[..n + 1][i];
    }
  }

  /** All rows of the statement can be added at once. */
  ghost predicate CanInsert(c: Codec, view: View, name: Bytes, names: seq<Bytes>, values: seq<seq<Expression>>) {
    exists t, rows :: IsTable(c, view, name, t) && InsertedRows(t, names, values, rows) && Creatable(c, view, t, rows)
  }

  lemma MoreCreated(c: Codec, t: Table, rows: seq<Row>, row: Row, writes: WriteSet, more: WriteSet)
    requires AllWritten(writes, CreateMoves(c, t, rows)) && writes.Keys <= more.Keys && KeyFor(t, row) in more
    ensures AllWritten(more, CreateMoves(c, t, rows + [row]))
  {
    CreateMovesStep(c, t, rows, row);
    AllWrittenStep(writes, more, CreateMoves(c, t, rows), Move(None, KeyFor(t, row), c.encodeRow(row)));
  }

  /** A log on disk has no room for one of the rows. */
  ghost predicate InsertOversized(c: Codec, t: Table, names: seq<Bytes>, values: seq<seq<Expression>>) {
    exists i, row ::
      0 <= i < |values| && Inserted(t, names, values[i], row) && !Roomy(KeyFor(t, row), Some(c.encodeRow(row)))
  }

  method InsertRows(txn: KvTransaction, t: Table, names: seq<Bytes>, values: seq<seq<Expression>>)
    returns (s: Status, count: nat, ghost rows: seq<Row>)
    requires txn.Valid() && TableAt(txn.codec, txn.view, t)
    modifies txn.Repr()
    ensures txn.Valid()
    ensures s.Ok? ==>
              && count == |values| && InsertedRows(t, names, values, rows)
              && Creatable(txn.codec, old(txn.view), t, rows)
              && txn.view == Moved(old(txn.view), CreateMoves(txn.codec, t, rows))
              && AllWritten(txn.writes, CreateMoves(txn.codec, t, rows))
    ensures s.Refused? ==>
              forall all :: InsertedRows(t, names, values, all) ==> !Creatable(txn.codec, old(txn.view), t, all)
    ensures s.Conflicted? ==> Clashed(txn.store.ops, txn.version, t.name)
    ensures s.TooLarge? ==> txn.store.OnDisk() && InsertOversized(txn.codec, t, names, values)
  {
    s, count, rows := Ok, 0, [];
    ghost var view := txn.view;
    for i := 0 to |values|
      invariant txn.Valid() && s.Ok? && count == i == |rows| && TableAt(txn.codec, txn.view, t)
      invariant SoFar(txn.codec, view, t, names, values, rows, txn.view)
      invariant AllWritten(txn.writes, CreateMoves(txn.codec, t, rows))
    {
      ghost var now, before := txn.view, txn.writes;
      var row;
      s, row := InsertOne(txn, t, names, values[i]);
      if !s.Ok? {
        if s.Refused? {
          RefusedStatement(txn.codec, view, t, names, values, rows, now);
        }
        return;
      }
      NextInsert(txn.codec, view, t, names, values, rows, now, row);
      MoreCreated(txn.codec, t, rows, row, before, txn.writes);
      rows := rows + [row];
      count := count + 1;
    }
    assert values[..|rows|] == values;
  }

  /**
   Succeeds only if the statement as a whole can be carried out, and then adds exactly its
   rows; refuses only if it cannot.  Otherwise a write conflict stopped it.
   */
  method Insert(txn: KvTransaction, name: Bytes, names: seq<Bytes>, values: seq<seq<Expression>>)
    returns (s: Status, count: nat, ghost t: Table, ghost rows: seq<Row>)
    requires txn.Valid() && NoZero(name)
    modifies txn.Repr()
    ensures txn.Valid()
    ensures s.Ok? ==>
              && IsTable(txn.codec, old(txn.view), name, t) && count == |values|
              && InsertedRows(t, names, values, rows) && Creatable(txn.codec, old(txn.view), t, rows)
              && txn.view == Moved(old(txn.view), CreateMoves(txn.codec, t, rows))
              && AllWritten(txn.writes, CreateMoves(txn.codec, t, rows))
    ensures s.Refused? ==> !CanInsert(txn.codec, old(txn.view), name, names, values)
    ensures s.Conflicted? ==> Clashed(txn.store.ops, txn.version, name)
    ensures s.TooLarge? ==>
              && txn.store.OnDisk() && IsTable(txn.codec, old(txn.view), name, t)
              && InsertOversized(txn.codec, t, names, values)
  {
    t, rows := Table([], []), [];
    var ok, found := txn.GetTable(name);
    if !ok || found.None? {
      return Refused, 0, t, [];
    }
    t := found.value;
    OneTable(txn.codec, txn.view, name, t);
    s, count, rows := InsertRows(txn, found.value, names, values);
  }
}
