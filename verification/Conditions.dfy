/** When a statement can be carried out, in terms of the rows of the tables. */
module Conditions {
  import opened ByteStrings
  import opened SqlValues
  import opened RowKeys
  import opened Schemas
  import opened Expressions
  import opened RowStores
  import opened LogRoom
  import opened Moves
  import opened Statements
  import opened Updates
  import opened Inserts
  import opened RowMeanings
  import opened StatementEffects

  // ---- Keys in use ----

  lemma SameKey(t: Table, a: Row, b: Row)
    requires ValidTable(t) && NoZero(t.name) && ValidRow(t, a) && ValidRow(t, b)
    ensures KeyFor(t, a) == KeyFor(t, b) <==> PrimaryKey(t, a) == PrimaryKey(t, b)
  {
    PrimaryKeysComparable(t, a, b);
    if KeyFor(t, a) == KeyFor(t, b) {
      RowKeyInjective(t.name, PrimaryKey(t, a).value, t.name, PrimaryKey(t, b).value);
    }
  }

  /** A key is in use exactly if a row of the table has that primary key. */
  lemma KeyInUse(c: Codec, view: View, t: Table, row: Row)
    requires Sound(c, view) && TableAt(c, view, t) && ValidRow(t, row)
    ensures KeyFor(t, row) in view <==> exists r :: RowIn(c, view, t, r) && PrimaryKey(t, r) == PrimaryKey(t, row)
  {
    PrimaryKeysComparable(t, row, row);
    if KeyFor(t, row) in view {
      RowPrefixSelects(t.name, t.name, PrimaryKey(t, row).value);
      var r := RowEntry(c, view, t, KeyFor(t, row));
      assert RowIn(c, view, t, r);
      SameKey(t, r, row);
    }
    if r :| RowIn(c, view, t, r) && PrimaryKey(t, r) == PrimaryKey(t, row) {
      SameKey(t, r, row);
    }
  }

  // ---- INSERT ----

  /** The rows are valid, their primary keys distinct, and none of them that of a row of the table. */
  ghost predicate Addable(c: Codec, view: View, t: Table, rows: seq<Row>) {
    && (forall i :: 0 <= i < |rows| ==> ValidRow(t, rows[i]))
    && (forall i, j :: 0 <= i < j < |rows| ==> PrimaryKey(t, rows[i]) != PrimaryKey(t, rows[j]))
    && forall i, r :: 0 <= i < |rows| && RowIn(c, view, t, r) ==> PrimaryKey(t, r) != PrimaryKey(t, rows[i])
  }

  lemma CreatableExact(c: Codec, view: View, t: Table, rows: seq<Row>)
    requires Sound(c, view) && TableAt(c, view, t)
    ensures Creatable(c, view, t, rows) <==> Addable(c, view, t, rows)
  {
    var ms := CreateMoves(c, t, rows);
    CreateMovesFroms(c, t, rows);
    if AllRowsValid(t, rows) {
      forall i, j | 0 <= i < j < |rows|
        ensures ms[i].to != ms[j].to <==> PrimaryKey(t, rows[i]) != PrimaryKey(t, rows[j])
      {
        SameKey(t, rows[i], rows[j]);
      }
      forall i | 0 <= i < |rows|
        ensures ms[i].to in view <==> exists r :: RowIn(c, view, t, r) && PrimaryKey(t, r) == PrimaryKey(t, rows[i])
      {
        KeyInUse(c, view, t, rows[i]);
      }
      assert Clean(view, ms) <==> DistinctTos(ms) && forall i :: 0 <= i < |ms| ==> ms[i].to !in view;
    }
  }

  // ---- UPDATE ----

  ghost predicate NewKeysDistinct(t: Table, news: seq<Row>) {
    forall i, j :: 0 <= i < j < |news| ==> PrimaryKey(t, news[i]) != PrimaryKey(t, news[j])
  }

  ghost predicate NewKeysFree(c: Codec, view: View, t: Table, rows: seq<Row>, news: seq<Row>) {
    forall i, other :: 0 <= i < |news| && RowIn(c, view, t, other) && other !in rows ==>
      PrimaryKey(t, news[i]) != PrimaryKey(t, other)
  }

  lemma OldKeys(c: Codec, view: View, t: Table, a: Assignments, rows: seq<Row>)
    requires DistinctRows(c, view, t, rows)
    ensures Froms(MovesOf(c, t, a, rows)) == KeySet(t, rows) <= view.Keys && DistinctFroms(MovesOf(c, t, a, rows))
  {
    UpdateFroms(c, t, a, rows);
    forall k | k in KeySet(t, rows)
      ensures k in view
    {
      var i :| 0 <= i < |rows| && KeyFor(t, rows[i]) == k;
      assert RowAt(c, view, KeyFor(t, rows[i]), t, rows[i]);
    }
  }

  /** A row of the table is among these exactly if its key is among theirs. */
  lemma KeyAmong(c: Codec, view: View, t: Table, rows: seq<Row>, row: Row)
    requires DistinctRows(c, view, t, rows) && RowIn(c, view, t, row)
    ensures KeyFor(t, row) in KeySet(t, rows) <==> row in rows
  {
    if KeyFor(t, row) in KeySet(t, rows) {
      var i :| 0 <= i < |rows| && KeyFor(t, rows[i]) == KeyFor(t, row);
      assert RowAt(c, view, KeyFor(t, rows[i]), t, rows[i]);
      assert rows[i] == row;
    }
    if row in rows {
      var i :| 0 <= i < |rows| && rows[i] == row;
      assert KeyFor(t, rows[i]) in KeySet(t, rows);
    }
  }

  /** A new key is free once the old rows have left exactly if no other row of the table has it. */
  lemma FreeExact(c: Codec, view: View, t: Table, rows: seq<Row>, r: Row)
    requires Sound(c, view) && TableAt(c, view, t) && DistinctRows(c, view, t, rows) && ValidRow(t, r)
    ensures (KeyFor(t, r) in view ==> KeyFor(t, r) in KeySet(t, rows)) <==>
            forall other :: RowIn(c, view, t, other) && other !in rows ==> PrimaryKey(t, r) != PrimaryKey(t, other)
  {
    KeyInUse(c, view, t, r);
    forall other | RowIn(c, view, t, other) && PrimaryKey(t, other) == PrimaryKey(t, r)
      ensures KeyFor(t, other) == KeyFor(t, r) && (KeyFor(t, r) in KeySet(t, rows) <==> other in rows)
    {
      SameKey(t, other, r);
      KeyAmong(c, view, t, rows, other);
    }
  }

  lemma ValidAll(t: Table, a: Assignments, rows: seq<Row>)
    ensures AllValid(t, a, rows) <==> AllRowsValid(t, AssignedRows(t, a, rows))
  {
    var news := AssignedRows(t, a, rows);
    assert forall i :: 0 <= i < |rows| ==> news[i] == Assigned(t, a, rows[i]);
  }

  lemma DistinctAll(t: Table, ms: seq<Move>, news: seq<Row>)
    requires ValidTable(t) && NoZero(t.name) && AllRowsValid(t, news)
    requires |ms| == |news| && forall i :: 0 <= i < |ms| ==> ms[i].to == KeyFor(t, news[i])
    ensures DistinctTos(ms) <==> NewKeysDistinct(t, news)
  {
    forall i, j | 0 <= i < j < |news|
      ensures ms[i].to != ms[j].to <==> PrimaryKey(t, news[i]) != PrimaryKey(t, news[j])
    {
      SameKey(t, news[i], news[j]);
    }
  }

  lemma UpdatableExact(c: Codec, view: View, t: Table, a: Assignments, rows: seq<Row>)
    requires Sound(c, view) && TableAt(c, view, t) && DistinctRows(c, view, t, rows)
    ensures var news := AssignedRows(t, a, rows);
            Updatable(c, view, t, a, rows) <==>
              AllRowsValid(t, news) && NewKeysDistinct(t, news) && NewKeysFree(c, view, t, rows, news)
  {
    OldKeys(c, view, t, a, rows);
    ValidAll(t, a, rows);
    if AllValid(t, a, rows) {
      DistinctAll(t, MovesOf(c, t, a, rows), AssignedRows(t, a, rows));
      FreeAll(c, view, t, a, rows);
    }
  }

  lemma FreeAll(c: Codec, view: View, t: Table, a: Assignments, rows: seq<Row>)
    requires Sound(c, view) && TableAt(c, view, t) && DistinctRows(c, view, t, rows)
    requires AllRowsValid(t, AssignedRows(t, a, rows))
    ensures LandsFree(view, KeySet(t, rows), MovesOf(c, t, a, rows)) <==>
            NewKeysFree(c, view, t, rows, AssignedRows(t, a, rows))
  {
    var ms, news := MovesOf(c, t, a, rows), AssignedRows(t, a, rows);
    forall i | 0 <= i < |news|
      ensures ms[i].to == KeyFor(t, news[i])
      ensures (ms[i].to in view ==> ms[i].to in KeySet(t, rows)) <==>
              forall other :: RowIn(c, view, t, other) && other !in rows ==>
                PrimaryKey(t, news[i]) != PrimaryKey(t, other)
    {
      FreeExact(c, view, t, rows, news[i]);
    }
  }

  /** r is what the statement makes of a row it asks for. */
  ghost predicate Becomes(c: Codec, view: View, t: Table, st: Statement, was: Row, r: Row)
    requires st.UpdateSet?
  {
    Target(c, view, t, st.where, was) && IsAssigned(t, st.a, was, r)
  }

  /** Different rows get different primary keys. */
  ghost predicate KeysStayDistinct(c: Codec, view: View, t: Table, st: Statement)
    requires st.UpdateSet?
  {
    forall was, r, was', r' ::
      Becomes(c, view, t, st, was, r) && Becomes(c, view, t, st, was', r') && was != was' ==>
        PrimaryKey(t, r) != PrimaryKey(t, r')
  }

  /** No row that stays has the primary key of a new one. */
  ghost predicate KeysAreFree(c: Codec, view: View, t: Table, st: Statement)
    requires st.UpdateSet?
  {
    forall was, r, other ::
      Becomes(c, view, t, st, was, r) && RowIn(c, view, t, other) && !Target(c, view, t, st.where, other) ==>
        PrimaryKey(t, r) != PrimaryKey(t, other)
  }

  /** The new rows are valid, their primary keys distinct, and none of them that of a row that stays. */
  ghost predicate Replaceable(c: Codec, view: View, t: Table, st: Statement)
    requires st.UpdateSet?
  {
    && (forall was, r :: Becomes(c, view, t, st, was, r) ==> ValidRow(t, r))
    && KeysStayDistinct(c, view, t, st) && KeysAreFree(c, view, t, st)
  }

  /** news[i] is what becomes of rows[i], and these are all. */
  ghost predicate AllBecome(c: Codec, view: View, t: Table, st: Statement, rows: seq<Row>, news: seq<Row>)
    requires st.UpdateSet?
  {
    && |news| == |rows|
    && (forall i :: 0 <= i < |rows| ==> Becomes(c, view, t, st, rows[i], news[i]))
    && forall was, r :: Becomes(c, view, t, st, was, r) ==>
         exists i :: 0 <= i < |rows| && rows[i] == was && news[i] == r
  }

  lemma BecomesAt(c: Codec, view: View, t: Table, st: Statement, rows: seq<Row>)
    requires st.UpdateSet? && Assignable(t, st.a) && Targets(c, view, t, st.where, rows)
    ensures AllBecome(c, view, t, st, rows, AssignedRows(t, st.a, rows))
  {
    var news := AssignedRows(t, st.a, rows);
    forall i | 0 <= i < |rows|
      ensures Becomes(c, view, t, st, rows[i], news[i])
    {
      assert rows[i] in rows;
      AssignedExact(t, st.a, rows[i], news[i]);
    }
    forall was, r | Becomes(c, view, t, st, was, r)
      ensures exists i :: 0 <= i < |rows| && rows[i] == was && news[i] == r
    {
      AssignedExact(t, st.a, was, r);
      var i :| 0 <= i < |rows| && rows[i] == was;
      assert news[i] == r;
    }
  }

  lemma DistinctExact(c: Codec, view: View, t: Table, st: Statement, rows: seq<Row>, news: seq<Row>)
    requires st.UpdateSet? && AllBecome(c, view, t, st, rows, news)
    requires forall i, j :: 0 <= i < j < |rows| ==> rows[i] != rows[j]
    ensures KeysStayDistinct(c, view, t, st) <==> NewKeysDistinct(t, news)
  {
    if KeysStayDistinct(c, view, t, st) {
      forall i, j | 0 <= i < j < |news|
        ensures PrimaryKey(t, news[i]) != PrimaryKey(t, news[j])
      {
        assert Becomes(c, view, t, st, rows[i], news[i]) && Becomes(c, view, t, st, rows[j], news[j]);
      }
    } else {
      var was, r, was', r' :| Becomes(c, view, t, st, was, r) && Becomes(c, view, t, st, was', r') && was != was'
                              && PrimaryKey(t, r) == PrimaryKey(t, r');
      var i :| 0 <= i < |rows| && rows[i] == was && news[i] == r;
      var j :| 0 <= j < |rows| && rows[j] == was' && news[j] == r';
      assert i < j || j < i;
    }
  }

  lemma FreeRows(c: Codec, view: View, t: Table, st: Statement, rows: seq<Row>, news: seq<Row>)
    requires st.UpdateSet? && AllBecome(c, view, t, st, rows, news) && Targets(c, view, t, st.where, rows)
    ensures KeysAreFree(c, view, t, st) <==> NewKeysFree(c, view, t, rows, news)
  {
    assert forall row :: row in rows <==> Target(c, view, t, st.where, row);
    if KeysAreFree(c, view, t, st) {
      forall i, other | 0 <= i < |news| && RowIn(c, view, t, other) && other !in rows
        ensures PrimaryKey(t, news[i]) != PrimaryKey(t, other)
      {
        assert Becomes(c, view, t, st, rows[i], news[i]);
      }
    } else {
      var was, r, other :| Becomes(c, view, t, st, was, r) && RowIn(c, view, t, other)
                           && !Target(c, view, t, st.where, other) && PrimaryKey(t, r) == PrimaryKey(t, other);
      var i :| 0 <= i < |rows| && rows[i] == was && news[i] == r;
    }
  }

  lemma ReplaceableExact(c: Codec, view: View, t: Table, st: Statement, rows: seq<Row>)
    requires st.UpdateSet? && Assignable(t, st.a) && Targets(c, view, t, st.where, rows)
    requires forall i, j :: 0 <= i < j < |rows| ==> rows[i] != rows[j]
    ensures var news := AssignedRows(t, st.a, rows);
            Replaceable(c, view, t, st) <==>
              AllRowsValid(t, news) && NewKeysDistinct(t, news) && NewKeysFree(c, view, t, rows, news)
  {
    var news := AssignedRows(t, st.a, rows);
    BecomesAt(c, view, t, st, rows);
    DistinctExact(c, view, t, st, rows, news);
    FreeRows(c, view, t, st, rows, news);
  }

  // ---- Statements ----

  /** The statement can be carried out on these rows. */
  ghost predicate Possible(c: Codec, view: View, st: Statement) {
    match st
    case CreateTable(t) => ValidTable(t) && forall u :: TableAt(c, view, u) ==> u.name != t.name
    case InsertInto(name, names, values) =>
      exists t, rows :: IsTable(c, view, name, t) && InsertedRows(t, names, values, rows) && Addable(c, view, t, rows)
    case UpdateSet(name, a, where) =>
      exists t :: IsTable(c, view, name, t) && Assignable(t, a) && Answerable(c, view, t, where)
                  && Replaceable(c, view, t, st)
    case DeleteFrom(name, where) => exists t :: IsTable(c, view, name, t) && Answerable(c, view, t, where)
  }

  lemma UpdatePossible(c: Codec, view: View, st: Statement, t: Table)
    requires Sound(c, view) && st.UpdateSet? && IsTable(c, view, st.name, t) && Assignable(t, st.a)
    ensures Updatable(c, view, t, st.a, Chosen(c, view, t, st.where)) <==> Replaceable(c, view, t, st)
  {
    var rows := Chosen(c, view, t, st.where);
    ChosenExact(c, view, t, st.where);
    ChosenDistinct(c, view, t, st.where);
    UpdatableExact(c, view, t, st.a, rows);
    ReplaceableExact(c, view, t, st, rows);
  }

  /** A statement can be done exactly if this can: one that refuses has a reason to. */
  lemma DoableExact(c: Codec, view: View, st: Statement)
    requires Sound(c, view) && NoZero(st.Target())
    ensures Doable(c, view, st) <==> Possible(c, view, st)
  {
    match st
    case CreateTable(t) =>
      if TableKey(t.name) in view {
        var u := TableEntry(c, view, t.name);
      }
    case InsertInto(name, names, values) =>
      forall t, rows | IsTable(c, view, name, t)
        ensures Creatable(c, view, t, rows) <==> Addable(c, view, t, rows)
      {
        CreatableExact(c, view, t, rows);
      }
    case UpdateSet(name, a, where) =>
      forall t | IsTable(c, view, name, t) && Assignable(t, a)
        ensures Updatable(c, view, t, a, Chosen(c, view, t, where)) <==> Replaceable(c, view, t, st)
      {
        UpdatePossible(c, view, st, t);
      }
    case DeleteFrom(_, _) =>
  }

  // ---- Records too large for a log on disk ----

  /** The log has no room for the row. */
  predicate Heavy(c: Codec, t: Table, row: Row) {
    !Roomy(KeyFor(t, row), Some(c.encodeRow(row)))
  }

  /** The log has no room for the removal of the row. */
  predicate HeavyKey(t: Table, row: Row) {
    !Roomy(KeyFor(t, row), None)
  }

  /** A row of the table is too large as the statement leaves it, or too large to be taken away. */
  ghost predicate TooBigFor(c: Codec, view: View, t: Table, st: Statement) {
    match st
    case CreateTable(_) => false
    case InsertInto(_, names, values) =>
      exists i, row :: 0 <= i < |values| && Inserted(t, names, values[i], row) && Heavy(c, t, row)
    case UpdateSet(_, a, where) =>
      exists was :: Target(c, view, t, where, was) && (HeavyKey(t, was) || Heavy(c, t, Assigned(t, a, was)))
    case DeleteFrom(_, where) => exists row :: Target(c, view, t, where, row) && HeavyKey(t, row)
  }

  ghost predicate TooBig(c: Codec, view: View, st: Statement) {
    match st
    case CreateTable(t) => !Roomy(TableKey(t.name), Some(c.encodeTable(t)))
    case _ => exists t :: IsTable(c, view, st.Target(), t) && TooBigFor(c, view, t, st)
  }

  lemma InsertTooBig(c: Codec, t: Table, names: seq<Bytes>, values: seq<seq<Expression>>)
    ensures InsertOversized(c, t, names, values) <==>
            exists i, row :: 0 <= i < |values| && Inserted(t, names, values[i], row) && Heavy(c, t, row)
  {
    if i, row :| 0 <= i < |values| && Inserted(t, names, values[i], row) && Heavy(c, t, row) {
      assert !Roomy(KeyFor(t, row), Some(c.encodeRow(row)));
    }
    if InsertOversized(c, t, names, values) {
      var i, row :| 0 <= i < |values| && Inserted(t, names, values[i], row)
                    && !Roomy(KeyFor(t, row), Some(c.encodeRow(row)));
      assert Heavy(c, t, row);
    }
  }

  lemma DeleteTooBig(c: Codec, view: View, t: Table, where: Option<Expression>, rows: seq<Row>)
    requires Targets(c, view, t, where, rows)
    ensures DeleteOversized(t, rows) <==> exists row :: Target(c, view, t, where, row) && HeavyKey(t, row)
  {
    if DeleteOversized(t, rows) {
      var i :| 0 <= i < |rows| && !Roomy(KeyFor(t, rows[i]), None);
      assert rows[i] in rows && Target(c, view, t, where, rows[i]) && HeavyKey(t, rows[i]);
    }
    if row :| Target(c, view, t, where, row) && HeavyKey(t, row) {
      var i :| 0 <= i < |rows| && rows[i] == row;
    }
  }

  lemma UpdateTooBig(c: Codec, view: View, t: Table, a: Assignments, where: Option<Expression>, rows: seq<Row>)
    requires Targets(c, view, t, where, rows)
    ensures UpdateOversized(c, t, a, rows) <==>
            exists was :: Target(c, view, t, where, was) && (HeavyKey(t, was) || Heavy(c, t, Assigned(t, a, was)))
  {
    if UpdateOversized(c, t, a, rows) {
      var i :| 0 <= i < |rows| && Oversized(MoveOf(c, t, a, rows[i]));
      assert rows[i] in rows && Target(c, view, t, where, rows[i]);
    }
    if was :| Target(c, view, t, where, was) && (HeavyKey(t, was) || Heavy(c, t, Assigned(t, a, was))) {
      var i :| 0 <= i < |rows| && rows[i] == was;
      assert Oversized(MoveOf(c, t, a, rows[i]));
    }
  }

  lemma InsertsTooBig(c: Codec, view: View, st: Statement)
    requires Sound(c, view) && st.InsertInto?
    ensures StatementOversized(c, view, st) <==> TooBig(c, view, st)
  {
    forall t
      ensures InsertOversized(c, t, st.names, st.values) <==> TooBigFor(c, view, t, st)
    {
      InsertTooBig(c, t, st.names, st.values);
    }
  }

  lemma UpdatesTooBig(c: Codec, view: View, st: Statement)
    requires Sound(c, view) && st.UpdateSet?
    ensures StatementOversized(c, view, st) <==> TooBig(c, view, st)
  {
    forall t | IsTable(c, view, st.name, t)
      ensures UpdateOversized(c, t, st.a, Chosen(c, view, t, st.where)) <==> TooBigFor(c, view, t, st)
    {
      ChosenExact(c, view, t, st.where);
      UpdateTooBig(c, view, t, st.a, st.where, Chosen(c, view, t, st.where));
    }
  }

  lemma DeletesTooBig(c: Codec, view: View, st: Statement)
    requires Sound(c, view) && st.DeleteFrom?
    ensures StatementOversized(c, view, st) <==> TooBig(c, view, st)
  {
    forall t | IsTable(c, view, st.name, t)
      ensures DeleteOversized(t, Chosen(c, view, t, st.where)) <==> TooBigFor(c, view, t, st)
    {
      ChosenExact(c, view, t, st.where);
      DeleteTooBig(c, view, t, st.where, Chosen(c, view, t, st.where));
    }
  }

  /** The size of a record stops a statement exactly if one of its rows is too large. */
  lemma OversizedExact(c: Codec, view: View, st: Statement)
    requires Sound(c, view)
    ensures StatementOversized(c, view, st) <==> TooBig(c, view, st)
  {
    match st
    case CreateTable(_) =>
    case InsertInto(_, _, _) => InsertsTooBig(c, view, st);
    case UpdateSet(_, _, _) => UpdatesTooBig(c, view, st);
    case DeleteFrom(_, _) => DeletesTooBig(c, view, st);
  }

  // ---- CREATE TABLE ----

  /** A row is always one of a table that is there. */
  lemma RowHasTable(c: Codec, view: View, name: Bytes, v: Value)
    requires Sound(c, view) && NoZero(name) && RowKey(name, v) in view
    ensures TableKey(name) in view
  {
    var key := RowKey(name, v);
    assert SoundAt(c, view, key);
    RowKeyIsNoTableKey(name, v);
    var u, row :| RowAt(c, view, key, u, row);
    RowKeyInjective(name, v, u.name, PrimaryKey(u, row).value);
  }

  /** CREATE TABLE adds the table, without rows, and changes nothing else. */
  lemma TableCreated(c: Codec, snapshot: View, now: View, after: View, st: Statement, count: nat)
    requires Lossless(c) && Sound(c, snapshot) && Sound(c, now) && st.CreateTable? && NoZero(st.t.name)
    requires Did(c, snapshot, now, after, st, count)
    ensures TableAt(c, after, st.t) && forall row :: !RowIn(c, after, st.t, row)
    ensures forall u: Table :: u.name != st.t.name ==> (TableAt(c, after, u) <==> TableAt(c, now, u))
    ensures forall u: Table, row :: u.name != st.t.name ==> (RowIn(c, after, u, row) <==> RowIn(c, now, u, row))
  {
    forall row, key
      ensures !RowAt(c, after, key, st.t, row)
    {
      if RowAt(c, after, key, st.t, row) {
        RowKeyIsNoTableKey(st.t.name, PrimaryKey(st.t, row).value);
        RowHasTable(c, now, st.t.name, PrimaryKey(st.t, row).value);
      }
    }
    forall u: Table | u.name != st.t.name
      ensures TableAt(c, after, u) <==> TableAt(c, now, u)
    {
      OthersStay(c, now, after, st.t, u, []);
    }
    forall u: Table, row | u.name != st.t.name
      ensures RowIn(c, after, u, row) <==> RowIn(c, now, u, row)
    {
      OthersStay(c, now, after, st.t, u, row);
    }
  }

  lemma OthersStay(c: Codec, now: View, after: View, t: Table, u: Table, row: Row)
    requires NoZero(t.name) && u.name != t.name && after == now[TableKey(t.name) := c.encodeTable(t)]
    ensures TableAt(c, after, u) <==> TableAt(c, now, u)
    ensures RowIn(c, after, u, row) <==> RowIn(c, now, u, row)
  {
    assert TableKey(u.name)[1..] == u.name && TableKey(t.name)[1..] == t.name;
    assert TableAt(c, after, u) <==> TableAt(c, now, u);
    if TableAt(c, now, u) && PrimaryKey(u, row).Some? {
      RowKeyIsNoTableKey(u.name, PrimaryKey(u, row).value);
      assert RowAt(c, after, KeyOf(u, row), u, row) <==> RowAt(c, now, KeyOf(u, row), u, row);
    }
  }
}
