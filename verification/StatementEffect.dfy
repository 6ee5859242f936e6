/** What a statement means, and what its writes make of the contents they are committed to. */
module StatementEffects {
  import opened ByteStrings
  import opened SqlValues
  import opened RowKeys
  import opened Schemas
  import opened Expressions
  import opened SnapshotIsolation
  import opened RowStores
  import opened LogRoom
  import opened Moves
  import opened Statements
  import opened Updates
  import opened Inserts
  import opened RowMeanings

  datatype Statement =
    | CreateTable(t: Table)
    | InsertInto(name: Bytes, names: seq<Bytes>, values: seq<seq<Expression>>)
    | UpdateSet(name: Bytes, a: Assignments, where: Option<Expression>)
    | DeleteFrom(name: Bytes, where: Option<Expression>)
  {
    function Target(): Bytes {
      match this case CreateTable(t) => t.name case _ => name
    }
  }

  /** The statement makes sense as one step on these contents. */
  ghost predicate Doable(c: Codec, view: View, st: Statement)
    requires Sound(c, view)
  {
    match st
    case CreateTable(t) => ValidTable(t) && TableKey(t.name) !in view
    case InsertInto(name, names, values) => CanInsert(c, view, name, names, values)
    case UpdateSet(name, a, where) => CanUpdate(c, view, name, a, where)
    case DeleteFrom(name, where) => Deletable(c, view, name, where)
  }

  /** A log on disk has no room for one of the records of the statement. */
  ghost predicate StatementOversized(c: Codec, view: View, st: Statement)
    requires Sound(c, view)
  {
    match st
    case CreateTable(t) => !Roomy(TableKey(t.name), Some(c.encodeTable(t)))
    case InsertInto(name, names, values) =>
      exists t :: IsTable(c, view, name, t) && InsertOversized(c, t, names, values)
    case UpdateSet(name, a, where) =>
      exists t :: IsTable(c, view, name, t) && UpdateOversized(c, t, a, Chosen(c, view, t, where))
    case DeleteFrom(name, where) =>
      exists t :: IsTable(c, view, name, t) && DeleteOversized(t, Chosen(c, view, t, where))
  }

  // ---- Writes ----

  ghost predicate WroteInsert(
    c: Codec, view: View, st: Statement, t: Table, rows: seq<Row>, writes: WriteSet, count: nat)
    requires st.InsertInto?
  {
    && IsTable(c, view, st.name, t) && InsertedRows(t, st.names, st.values, rows) && count == |rows|
    && Carries(c, view, t, InsertChange(c, t, rows), writes) && |InsertChange(c, t, rows).put| == |rows|
  }

  ghost predicate WroteUpdate(c: Codec, view: View, st: Statement, t: Table, writes: WriteSet, count: nat)
    requires Sound(c, view) && st.UpdateSet?
  {
    && IsTable(c, view, st.name, t)
    && var rows := Chosen(c, view, t, st.where);
    && var x := UpdateChange(c, t, st.a, rows);
    && Assignable(t, st.a) && count == |rows| && Carries(c, view, t, x, writes) && |x.taken| == |x.put|
  }

  ghost predicate WroteDelete(c: Codec, view: View, st: Statement, t: Table, writes: WriteSet, count: nat)
    requires Sound(c, view) && st.DeleteFrom?
  {
    && IsTable(c, view, st.name, t)
    && var rows := Chosen(c, view, t, st.where);
    && count == |rows| && Carries(c, view, t, DeleteChange(t, rows), writes) && |KeySet(t, rows)| == |rows|
  }

  /** The writes are those of the statement on the transaction's snapshot. */
  ghost predicate Wrote(c: Codec, view: View, st: Statement, writes: WriteSet, count: nat)
    requires Sound(c, view)
  {
    match st
    case CreateTable(t) =>
      ValidTable(t) && TableKey(t.name) !in view && writes == map[TableKey(t.name) := Some(c.encodeTable(t))]
    case InsertInto(_, _, _) => exists t, rows :: WroteInsert(c, view, st, t, rows, writes, count)
    case UpdateSet(_, _, _) => exists t :: WroteUpdate(c, view, st, t, writes, count)
    case DeleteFrom(_, _) => exists t :: WroteDelete(c, view, st, t, writes, count)
  }

  lemma InsertWrote(c: Codec, view: View, st: Statement, t: Table, rows: seq<Row>, writes: WriteSet)
    requires st.InsertInto? && IsTable(c, view, st.name, t) && InsertedRows(t, st.names, st.values, rows)
    requires Creatable(c, view, t, rows) && AllWritten(writes, CreateMoves(c, t, rows))
    requires Overlay(view, writes) == Moved(view, CreateMoves(c, t, rows))
    ensures WroteInsert(c, view, st, t, rows, writes, |rows|)
  {
    InsertCarried(c, view, t, rows, writes);
  }

  lemma UpdateWrote(c: Codec, view: View, st: Statement, t: Table, writes: WriteSet, count: nat)
    requires Sound(c, view) && st.UpdateSet? && IsTable(c, view, st.name, t)
    requires Updated(c, view, t, st.a, st.where, Overlay(view, writes), writes, count)
    ensures WroteUpdate(c, view, st, t, writes, count)
  {
    ChosenDistinct(c, view, t, st.where);
    UpdateCarried(c, view, t, st.a, Chosen(c, view, t, st.where), writes);
  }

  lemma DeleteWrote(c: Codec, view: View, st: Statement, t: Table, rows: seq<Row>, writes: WriteSet)
    requires Sound(c, view) && st.DeleteFrom? && IsTable(c, view, st.name, t) && rows == Chosen(c, view, t, st.where)
    requires KeySet(t, rows) <= writes.Keys && Overlay(view, writes) == view - KeySet(t, rows)
    ensures WroteDelete(c, view, st, t, writes, |rows|)
  {
    ChosenDistinct(c, view, t, st.where);
    DeleteChanges(c, view, t, rows);
  }

  // ---- Effects ----

  ghost predicate DidInsert(
    c: Codec, snapshot: View, now: View, after: View, st: Statement, t: Table, rows: seq<Row>, count: nat)
    requires st.InsertInto?
  {
    && IsTable(c, snapshot, st.name, t) && InsertedRows(t, st.names, st.values, rows) && count == |rows|
    && Replaced(c, now, after, t, [], rows) && |RowsOf(c, after, t)| == |RowsOf(c, now, t)| + count
  }

  /** A row of the snapshot that the statement asks for. */
  ghost predicate Target(c: Codec, snapshot: View, t: Table, where: Option<Expression>, row: Row) {
    RowIn(c, snapshot, t, row) && Asked(t, where, row)
  }

  /** Every row the statement asks for is replaced by the row with the assigned cells, and no other changes. */
  ghost predicate RowsUpdated(
    c: Codec, snapshot: View, now: View, after: View, t: Table, a: Assignments, where: Option<Expression>)
  {
    forall row :: RowIn(c, after, t, row) <==>
      || (RowIn(c, now, t, row) && !Target(c, snapshot, t, where, row))
      || exists was :: Target(c, snapshot, t, where, was) && IsAssigned(t, a, was, row)
  }

  /** The rows the statement asks for are gone, and no others. */
  ghost predicate RowsDeleted(c: Codec, snapshot: View, now: View, after: View, t: Table, where: Option<Expression>) {
    forall row :: RowIn(c, after, t, row) <==> RowIn(c, now, t, row) && !Target(c, snapshot, t, where, row)
  }

  ghost predicate DidUpdate(c: Codec, snapshot: View, now: View, after: View, st: Statement, t: Table, count: nat)
    requires Sound(c, snapshot) && st.UpdateSet?
  {
    && IsTable(c, snapshot, st.name, t)
    && var rows := Chosen(c, snapshot, t, st.where);
    && Targets(c, snapshot, t, st.where, rows) && RowsUpdated(c, snapshot, now, after, t, st.a, st.where)
    && count == |rows| && Replaced(c, now, after, t, rows, AssignedRows(t, st.a, rows))
    && |RowsOf(c, after, t)| == |RowsOf(c, now, t)|
  }

  ghost predicate DidDelete(c: Codec, snapshot: View, now: View, after: View, st: Statement, t: Table, count: nat)
    requires Sound(c, snapshot) && st.DeleteFrom?
  {
    && IsTable(c, snapshot, st.name, t)
    && var rows := Chosen(c, snapshot, t, st.where);
    && Targets(c, snapshot, t, st.where, rows) && RowsDeleted(c, snapshot, now, after, t, st.where)
    && count == |rows| && Replaced(c, now, after, t, rows, []) && |RowsOf(c, after, t)| + count == |RowsOf(c, now, t)|
  }

  /**
   From the contents now to the contents after, the statement was carried out, with the count
   it reports: on the rows it chose in its snapshot, which are still there, and on no others.
   */
  ghost predicate Did(c: Codec, snapshot: View, now: View, after: View, st: Statement, count: nat)
    requires Sound(c, snapshot)
  {
    match st
    case CreateTable(t) =>
      ValidTable(t) && TableKey(t.name) !in now && after == now[TableKey(t.name) := c.encodeTable(t)]
    case InsertInto(_, _, _) => exists t, rows :: DidInsert(c, snapshot, now, after, st, t, rows, count)
    case UpdateSet(_, _, _) => exists t :: DidUpdate(c, snapshot, now, after, st, t, count)
    case DeleteFrom(_, _) => exists t :: DidDelete(c, snapshot, now, after, st, t, count)
  }

  /** now is the snapshot with what others committed since: nothing the writes touch, and no table, has changed. */
  ghost predicate Later(c: Codec, snapshot: View, now: View, writes: WriteSet) {
    && Sound(c, now) && Sound(c, Overlay(now, writes))
    && (forall k :: k in writes ==> Same(snapshot, now, k))
    && (forall t :: TableAt(c, snapshot, t) ==> TableAt(c, now, t))
  }

  lemma CarriedChange(c: Codec, snapshot: View, now: View, t: Table, x: Change, writes: WriteSet)
    requires Lossless(c) && TableAt(c, snapshot, t) && Carries(c, snapshot, t, x, writes)
    requires Later(c, snapshot, now, writes)
    ensures Replaced(c, now, Overlay(now, writes), t, x.olds, x.news)
    ensures |RowsOf(c, Overlay(now, writes), t)| + |x.taken| == |RowsOf(c, now, t)| + |x.put|
  {
    RebasedChange(c, snapshot, now, t, x, writes);
    ChangeMeaning(c, now, t, x);
  }

  lemma InsertDid(
    c: Codec, snapshot: View, now: View, st: Statement, t: Table, rows: seq<Row>, writes: WriteSet, count: nat)
    requires Lossless(c) && st.InsertInto? && WroteInsert(c, snapshot, st, t, rows, writes, count)
    requires Later(c, snapshot, now, writes)
    ensures DidInsert(c, snapshot, now, Overlay(now, writes), st, t, rows, count)
  {
    CarriedChange(c, snapshot, now, t, InsertChange(c, t, rows), writes);
  }

  lemma AssignedHas(
    c: Codec, snapshot: View, t: Table, a: Assignments, where: Option<Expression>, rows: seq<Row>, row: Row)
    requires Targets(c, snapshot, t, where, rows) && Assignable(t, a)
    ensures row in AssignedRows(t, a, rows) <==>
            exists was :: Target(c, snapshot, t, where, was) && IsAssigned(t, a, was, row)
  {
    var news := AssignedRows(t, a, rows);
    if row in news {
      var i :| 0 <= i < |rows| && news[i] == row;
      assert rows[i] in rows && Target(c, snapshot, t, where, rows[i]);
      AssignedExact(t, a, rows[i], row);
    }
    if was :| Target(c, snapshot, t, where, was) && IsAssigned(t, a, was, row) {
      AssignedExact(t, a, was, row);
      var i :| 0 <= i < |rows| && rows[i] == was;
      assert news[i] == row;
    }
  }

  lemma UpdateDid(c: Codec, snapshot: View, now: View, st: Statement, t: Table, writes: WriteSet, count: nat)
    requires Lossless(c) && Sound(c, snapshot) && st.UpdateSet? && WroteUpdate(c, snapshot, st, t, writes, count)
    requires Later(c, snapshot, now, writes)
    ensures DidUpdate(c, snapshot, now, Overlay(now, writes), st, t, count)
  {
    var rows := Chosen(c, snapshot, t, st.where);
    CarriedChange(c, snapshot, now, t, UpdateChange(c, t, st.a, rows), writes);
    ChosenExact(c, snapshot, t, st.where);
    forall row
      ensures row in AssignedRows(t, st.a, rows) <==>
              exists was :: Target(c, snapshot, t, st.where, was) && IsAssigned(t, st.a, was, row)
    {
      AssignedHas(c, snapshot, t, st.a, st.where, rows, row);
    }
  }

  lemma DeleteDid(c: Codec, snapshot: View, now: View, st: Statement, t: Table, writes: WriteSet, count: nat)
    requires Lossless(c) && Sound(c, snapshot) && st.DeleteFrom? && WroteDelete(c, snapshot, st, t, writes, count)
    requires Later(c, snapshot, now, writes)
    ensures DidDelete(c, snapshot, now, Overlay(now, writes), st, t, count)
  {
    CarriedChange(c, snapshot, now, t, DeleteChange(t, Chosen(c, snapshot, t, st.where)), writes);
    ChosenExact(c, snapshot, t, st.where);
  }

  lemma CreateDid(c: Codec, snapshot: View, now: View, st: Statement, writes: WriteSet, count: nat)
    requires Sound(c, snapshot) && st.CreateTable? && Wrote(c, snapshot, st, writes, count)
    requires forall k :: k in writes ==> Same(snapshot, now, k)
    ensures Did(c, snapshot, now, Overlay(now, writes), st, count)
  {
    var k := TableKey(st.t.name);
    assert Same(snapshot, now, k);
    WriteOverlays(now, map[], k, Some(c.encodeTable(st.t)));
    assert Overlay(now, map[]) == now;
  }

  /** Writes made for a statement on its snapshot do the statement on the later contents. */
  lemma WroteDid(c: Codec, snapshot: View, now: View, st: Statement, writes: WriteSet, count: nat)
    requires Lossless(c) && Sound(c, snapshot) && Wrote(c, snapshot, st, writes, count)
    requires Later(c, snapshot, now, writes)
    ensures Did(c, snapshot, now, Overlay(now, writes), st, count)
  {
    match st
    case CreateTable(_) => CreateDid(c, snapshot, now, st, writes, count);
    case InsertInto(_, _, _) =>
      var t, rows :| WroteInsert(c, snapshot, st, t, rows, writes, count);
      InsertDid(c, snapshot, now, st, t, rows, writes, count);
    case UpdateSet(_, _, _) =>
      var t :| WroteUpdate(c, snapshot, st, t, writes, count);
      UpdateDid(c, snapshot, now, st, t, writes, count);
    case DeleteFrom(_, _) =>
      var t :| WroteDelete(c, snapshot, st, t, writes, count);
      DeleteDid(c, snapshot, now, st, t, writes, count);
  }
}
