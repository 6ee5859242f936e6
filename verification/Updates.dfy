/** UPDATE (executor/executor.go): one row after another, and the single step that amounts to. */
module Updates {
  import opened ByteStrings
  import opened SqlValues
  import opened RowKeys
  import opened Schemas
  import opened Expressions
  import opened RowStores
  import opened SnapshotIsolation
  import opened RowTraces
  import opened KvTransactions
  import opened Moves
  import opened Statements

  type Assignments = map<Bytes, Expression>

  /** Column i is the one its name resolves to. */
  predicate FirstNamed(t: Table, i: nat) {
    i < |t.columns| && forall j :: 0 <= j < i ==> t.columns[j].name != t.columns[i].name
  }

  /** Every assigned column exists and is assigned a constant. */
  ghost predicate Assignable(t: Table, a: Assignments) {
    forall name :: name in a ==> a[name].Literal? && exists i: nat :: FirstNamed(t, i) && t.columns[i].name == name
  }

  predicate Assigns(t: Table, a: Assignments, i: nat) {
    FirstNamed(t, i) && t.columns[i].name in a && a[t.columns[i].name].Literal?
  }

  /** The row with every assigned cell replaced. */
  function Assigned(t: Table, a: Assignments, row: Row): (r: Row)
    ensures |r| == |row|
  {
    seq(|row|, i requires 0 <= i < |row| => if Assigns(t, a, i) then a[t.columns[i].name].v else row[i])
  }

  /**
   r is the row with, for every assigned name, the literal in the cell of the first column of
   that name, and every other cell as it was.
   */
  ghost predicate IsAssigned(t: Table, a: Assignments, row: Row, r: Row) {
    && |r| == |row| == |t.columns|
    && (forall name, i: nat :: name in a && FirstOf(ColumnNames(t), name, i) ==> a[name] == Literal(r[i]))
    && forall i: nat :: i < |row| && (forall name :: name in a ==> !FirstOf(ColumnNames(t), name, i)) ==> r[i] == row[i]
  }

  lemma AssignedExact(t: Table, a: Assignments, row: Row, r: Row)
    requires Assignable(t, a) && |row| == |t.columns|
    ensures r == Assigned(t, a, row) <==> IsAssigned(t, a, row, r)
  {
    var names := ColumnNames(t);
    forall name, i: nat
      ensures FirstOf(names, name, i) <==> FirstNamed(t, i) && t.columns[i].name == name
    {
    }
    if IsAssigned(t, a, row, r) {
      forall i: nat | i < |row|
        ensures r[i] == Assigned(t, a, row)[i]
      {
        if Assigns(t, a, i) {
          assert FirstOf(names, t.columns[i].name, i);
        }
      }
    }
    forall name, i: nat | name in a && FirstOf(names, name, i)
      ensures a[name] == Literal(Assigned(t, a, row)[i])
    {
      assert Assigns(t, a, i);
    }
  }

  datatype Assignment = Assignment(column: nat, value: Value)

  /** The resolved assignments done so far are those of the names in done, in whatever order. */
  ghost predicate Resolves(t: Table, a: Assignments, done: set<Bytes>, list: seq<Assignment>) {
    && (forall p :: p in list ==>
       Assigns(t, a, p.column) && t.columns[p.column].name in done && p.value == a[t.columns[p.column].name].v)
    && (forall i: nat :: Assigns(t, a, i) && t.columns[i].name in done ==>
       Assignment(i, a[t.columns[i].name].v) in list)
  }

  /** Resolving the assignments, in the arbitrary order of a Go map. */
  method Resolve(t: Table, a: Assignments) returns (list: Option<seq<Assignment>>)
    ensures list.Some? <==> Assignable(t, a)
    ensures list.Some? ==> Resolves(t, a, a.Keys, list.value)
  {
    var out: seq<Assignment> := [];
    var rest := a.Keys;
    while rest != {}
      invariant rest <= a.Keys && Resolves(t, a, a.Keys - rest, out)
      invariant forall name :: name in a && name !in rest ==>
                  a[name].Literal? && exists i: nat :: FirstNamed(t, i) && t.columns[i].name == name
      decreases |rest|
    {
      var name :| name in rest;
      var i := ColumnIndex(t, name);
      if i.None? || !a[name].Literal? {
        return None;
      }
      assert FirstNamed(t, i.value);
      rest := rest - {name};
      out := out + [Assignment(i.value, a[name].v)];
    }
    list := Some(out);
  }

  /** Assigning in the order of the list gives the same row in every order. */
  method Assign(t: Table, a: Assignments, row: Row, list: seq<Assignment>) returns (r: Row)
    requires Resolves(t, a, a.Keys, list) && |row| == |t.columns|
    ensures r == Assigned(t, a, row) && (Assignable(t, a) ==> IsAssigned(t, a, row, r))
  {
    r := row;
    for n := 0 to |list|
      invariant |r| == |row|
      invariant forall i :: 0 <= i < |row| ==> r[i] == row[i] || (Assigns(t, a, i) && r[i] == a[t.columns[i].name].v)
      invariant forall p :: p in list[..n] ==> p.column < |row| && r[p.column] == p.value
    {
      assert list[n] in list;
      r := r[list[n].column := list[n].value];
    }
    assert list[..|list|] == list;
    forall i | 0 <= i < |row|
      ensures r[i] == Assigned(t, a, row)[i]
    {
      if Assigns(t, a, i) {
        assert Assignment(i, a[t.columns[i].name].v) in list;
      }
    }
    if Assignable(t, a) {
      AssignedExact(t, a, row, r);
    }
  }

  /** An assignment to the primary key sends every row to the same key; otherwise no row moves. */
  lemma KeysAfter(t: Table, a: Assignments, row: Row, other: Row)
    requires ValidTable(t) && |row| == |other| == |t.columns|
    ensures PrimaryKey(t, Assigned(t, a, row)).Some? && PrimaryKey(t, Assigned(t, a, other)).Some?
    ensures || PrimaryKey(t, Assigned(t, a, row)) == PrimaryKey(t, row)
            || PrimaryKey(t, Assigned(t, a, row)) == PrimaryKey(t, Assigned(t, a, other))
  {
    ValidHasPrimary(t);
  }

  ghost function MoveOf(c: Codec, t: Table, a: Assignments, row: Row): Move {
    Move(Some(KeyFor(t, row)), KeyFor(t, Assigned(t, a, row)), c.encodeRow(Assigned(t, a, row)))
  }

  ghost function MovesOf(c: Codec, t: Table, a: Assignments, rows: seq<Row>): (ms: seq<Move>)
    ensures |ms| == |rows|
  {
    seq(|rows|, i requires 0 <= i < |rows| => MoveOf(c, t, a, rows[i]))
  }

  /** The updated rows are valid and their keys distinct and not those of other rows. */
  ghost predicate Updatable(c: Codec, view: View, t: Table, a: Assignments, rows: seq<Row>) {
    AllValid(t, a, rows) && Clean(view, MovesOf(c, t, a, rows))
  }

  ghost predicate AllValid(t: Table, a: Assignments, rows: seq<Row>) {
    forall i :: 0 <= i < |rows| ==> ValidRow(t, Assigned(t, a, rows[i]))
  }

  lemma RowStillThere(c: Codec, view: View, t: Table, a: Assignments, rows: seq<Row>, i: nat)
    requires DistinctRows(c, view, t, rows) && i < |rows|
    ensures KeyFor(t, rows[i]) in view && KeyFor(t, rows[i]) !in Froms(MovesOf(c, t, a, rows[..i]))
  {
    assert RowAt(c, view, KeyFor(t, rows[i]), t, rows[i]);
  }

  /** A duplicate met on the way is a duplicate of the whole statement. */
  lemma DuplicateIsReal(c: Codec, view: View, t: Table, a: Assignments, rows: seq<Row>, i: nat)
    requires DistinctRows(c, view, t, rows) && i < |rows| && ValidTable(t)
    requires forall j :: 0 <= j < |rows| ==> |rows[j]| == |t.columns|
    requires Clean(view, MovesOf(c, t, a, rows[..i]))
    requires KeyFor(t, Assigned(t, a, rows[i])) in Moved(view, MovesOf(c, t, a, rows[..i]))
    requires PrimaryKey(t, Assigned(t, a, rows[i])) != PrimaryKey(t, rows[i])
    ensures !Clean(view, MovesOf(c, t, a, rows))
  {
    var ms := MovesOf(c, t, a, rows);
    assert ms[..i] == MovesOf(c, t, a, rows[..i]);
    forall j | 0 <= j < |ms|
      ensures ms[j].to == ms[i].to
    {
      KeysAfter(t, a, rows[i], rows[j]);
    }
    assert RowAt(c, view, KeyFor(t, rows[i]), t, rows[i]);
    KeysAfter(t, a, rows[i], rows[i]);
    if ms[i].from == Some(ms[i].to) {
      RowKeyInjective(t.name, PrimaryKey(t, rows[i]).value, t.name, PrimaryKey(t, Assigned(t, a, rows[i])).value);
      assert false;
    }
    TargetInUse(view, ms, i);
  }

  /** The check `UpdateRow` makes of one updated row. */
  ghost predicate Passes(view: View, t: Table, a: Assignments, row: Row) {
    var updated := Assigned(t, a, row);
    && ValidRow(t, updated) && PrimaryKey(t, updated).Some?
    && (PrimaryKey(t, updated) == PrimaryKey(t, row) || KeyFor(t, updated) !in view)
  }

  ghost predicate SoFar(c: Codec, view: View, t: Table, a: Assignments, rows: seq<Row>, i: nat, now: View) {
    i <= |rows| && Updatable(c, view, t, a, rows[..i]) && now == Moved(view, MovesOf(c, t, a, rows[..i]))
  }

  lemma PassesMoves(c: Codec, view: View, t: Table, a: Assignments, rows: seq<Row>, i: nat)
    requires DistinctRows(c, view, t, rows) && i < |rows|
             && Passes(Moved(view, MovesOf(c, t, a, rows[..i])), t, a, rows[i])
    ensures Movable(view, MovesOf(c, t, a, rows[..i]), MoveOf(c, t, a, rows[i]))
  {
    RowStillThere(c, view, t, a, rows, i);
  }

  lemma AllValidStep(t: Table, a: Assignments, rows: seq<Row>, i: nat)
    requires i < |rows| && AllValid(t, a, rows[..i]) && ValidRow(t, Assigned(t, a, rows[i]))
    ensures AllValid(t, a, rows[..i + 1])
  {
    assert forall j :: 0 <= j < i ==> rows[..i + 1][j] == rows[..i][j];
  }

  lemma NextRow(c: Codec, view: View, t: Table, a: Assignments, rows: seq<Row>, i: nat, now: View)
    requires DistinctRows(c, view, t, rows) && i < |rows| && SoFar(c, view, t, a, rows, i, now)
    requires Passes(now, t, a, rows[i])
    ensures var m := MoveOf(c, t, a, rows[i]);
            SoFar(c, view, t, a, rows, i + 1, (now - {KeyFor(t, rows[i])})[m.to := m.value])
  {
    AllValidStep(t, a, rows, i);
    PassesMoves(c, view, t, a, rows, i);
    MovesOfStep(c, t, a, rows, i);
    MoveStep(view, MovesOf(c, t, a, rows[..i]), MoveOf(c, t, a, rows[i]));
  }

  lemma MovesOfStep(c: Codec, t: Table, a: Assignments, rows: seq<Row>, i: nat)
    requires i < |rows|
    ensures MovesOf(c, t, a, rows[..i + 1]) == MovesOf(c, t, a, rows[..i]) + [MoveOf(c, t, a, rows[i])]
  {
  }

  lemma RefusedRow(c: Codec, view: View, t: Table, a: Assignments, rows: seq<Row>, i: nat, now: View)
    requires DistinctRows(c, view, t, rows) && i < |rows| && SoFar(c, view, t, a, rows, i, now)
    requires !Passes(now, t, a, rows[i])
    ensures !Updatable(c, view, t, a, rows)
  {
    assert forall j :: 0 <= j < |rows| ==> RowAt(c, view, KeyFor(t, rows[j]), t, rows[j]);
    if ValidRow(t, Assigned(t, a, rows[i])) {
      KeysAfter(t, a, rows[i], rows[i]);
      DuplicateIsReal(c, view, t, a, rows, i);
    }
  }

  method UpdateOne(txn: KvTransaction, t: Table, a: Assignments, list: seq<Assignment>, row: Row) returns (s: Status)
    requires txn.Valid() && TableAt(txn.codec, txn.view, t) && Resolves(t, a, a.Keys, list) && |row| == |t.columns|
    modifies txn.Repr()
    ensures txn.Valid() && TableAt(txn.codec, txn.view, t)
    ensures s.Refused? <==> !Passes(old(txn.view), t, a, row)
    ensures var m := MoveOf(txn.codec, t, a, row);
            s.Ok? ==> txn.view == (old(txn.view) - {KeyFor(t, row)})[m.to := m.value]
    ensures old(txn.writes).Keys <= txn.writes.Keys
    ensures s.Ok? ==> KeyFor(t, row) in txn.writes && MoveOf(txn.codec, t, a, row).to in txn.writes
    ensures s.Conflicted? ==> Clashed(txn.store.ops, txn.version, t.name)
    ensures s.TooLarge? ==> txn.store.OnDisk() && Oversized(MoveOf(txn.codec, t, a, row))
  {
    ValidHasPrimary(t);
    var oldPrimary := PrimaryKeyValue(t, row);
    var updated := Assign(t, a, row, list);
    txn.StillValid();
    s := txn.UpdateRow(t, oldPrimary.value, updated);
  }

  lemma MoreWritten(c: Codec, t: Table, a: Assignments, rows: seq<Row>, i: nat, writes: WriteSet, more: WriteSet)
    requires i < |rows| && AllWritten(writes, MovesOf(c, t, a, rows[..i])) && writes.Keys <= more.Keys
    requires KeyFor(t, rows[i]) in more && MoveOf(c, t, a, rows[i]).to in more
    ensures AllWritten(more, MovesOf(c, t, a, rows[..i + 1]))
  {
    MovesOfStep(c, t, a, rows, i);
    AllWrittenStep(writes, more, MovesOf(c, t, a, rows[..i]), MoveOf(c, t, a, rows[i]));
  }

  /** A log on disk has no room for the update of one of the rows. */
  ghost predicate UpdateOversized(c: Codec, t: Table, a: Assignments, rows: seq<Row>) {
    exists i :: 0 <= i < |rows| && Oversized(MoveOf(c, t, a, rows[i]))
  }

  method UpdateRows(txn: KvTransaction, t: Table, a: Assignments, list: seq<Assignment>, rows: seq<Row>)
    returns (s: Status, count: nat)
    requires txn.Valid() && TableAt(txn.codec, txn.view, t) && DistinctRows(txn.codec, txn.view, t, rows)
    requires Resolves(t, a, a.Keys, list)
    modifies txn.Repr()
    ensures txn.Valid()
    ensures s.Refused? ==> !Updatable(txn.codec, old(txn.view), t, a, rows)
    ensures s.Ok? ==> Updatable(txn.codec, old(txn.view), t, a, rows) && count == |rows|
    ensures s.Ok? ==> txn.view == Moved(old(txn.view), MovesOf(txn.codec, t, a, rows))
    ensures s.Ok? ==> AllWritten(txn.writes, MovesOf(txn.codec, t, a, rows))
    ensures s.Conflicted? ==> Clashed(txn.store.ops, txn.version, t.name)
    ensures s.TooLarge? ==> txn.store.OnDisk() && UpdateOversized(txn.codec, t, a, rows)
  {
    s, count := Ok, 0;
    ghost var view := txn.view;
    for i := 0 to |rows|
      invariant txn.Valid() && s.Ok? && count == i && TableAt(txn.codec, txn.view, t)
      invariant SoFar(txn.codec, view, t, a, rows, i, txn.view)
      invariant AllWritten(txn.writes, MovesOf(txn.codec, t, a, rows[..i]))
    {
      assert RowAt(txn.codec, view, KeyFor(t, rows[i]), t, rows[i]);
      ghost var now, before := txn.view, txn.writes;
      s := UpdateOne(txn, t, a, list, rows[i]);
      if !s.Ok? {
        if s.Refused? {
          RefusedRow(txn.codec, view, t, a, rows, i, now);
        }
        return;
      }
      NextRow(txn.codec, view, t, a, rows, i, now);
      MoreWritten(txn.codec, t, a, rows, i, before, txn.writes);
      count := count + 1;
    }
    assert rows[..|rows|] == rows;
  }

  /** The statement makes sense on the table t as one step. */
  ghost predicate CanUpdateTable(c: Codec, view: View, t: Table, a: Assignments, where: Option<Expression>)
    requires Sound(c, view) && TableAt(c, view, t)
  {
    && Assignable(t, a) && Answerable(c, view, t, where)
    && Updatable(c, view, t, a, Chosen(c, view, t, where))
  }

  ghost predicate CanUpdate(c: Codec, view: View, name: Bytes, a: Assignments, where: Option<Expression>)
    requires Sound(c, view)
  {
    exists t :: IsTable(c, view, name, t) && CanUpdateTable(c, view, t, a, where)
  }

  /** The chosen rows of t were updated, all at once. */
  ghost predicate Updated(
    c: Codec, view: View, t: Table, a: Assignments, where: Option<Expression>, now: View, writes: WriteSet, count: nat)
    requires Sound(c, view) && TableAt(c, view, t)
  {
    var rows := Chosen(c, view, t, where);
    var ms := MovesOf(c, t, a, rows);
    && Assignable(t, a) && Answerable(c, view, t, where) && Updatable(c, view, t, a, rows) && count == |rows|
    && now == Moved(view, ms) && AllWritten(writes, ms)
  }

  lemma CanUpdateOnly(c: Codec, view: View, name: Bytes, a: Assignments, where: Option<Expression>, t: Table)
    requires Sound(c, view) && IsTable(c, view, name, t)
    ensures CanUpdate(c, view, name, a, where) <==> CanUpdateTable(c, view, t, a, where)
  {
    OneTable(c, view, name, t);
  }

  lemma CannotUpdateMissing(c: Codec, view: View, name: Bytes, a: Assignments, where: Option<Expression>)
    requires Sound(c, view) && forall t :: TableAt(c, view, t) ==> t.name != name
    ensures !CanUpdate(c, view, name, a, where)
  {
  }

  method UpdateChosen(txn: KvTransaction, t: Table, a: Assignments, list: seq<Assignment>, where: Option<Expression>)
    returns (s: Status, count: nat)
    requires txn.Valid() && TableAt(txn.codec, txn.view, t) && Assignable(t, a) && Resolves(t, a, a.Keys, list)
    modifies txn.Repr()
    ensures txn.Valid()
    ensures s.Ok? ==> Updated(txn.codec, old(txn.view), t, a, where, txn.view, txn.writes, count)
    ensures s.Refused? ==>
              Answerable(txn.codec, old(txn.view), t, where) ==>
              !Updatable(txn.codec, old(txn.view), t, a, Chosen(txn.codec, old(txn.view), t, where))
    ensures s.Conflicted? ==> Clashed(txn.store.ops, txn.version, t.name)
    ensures s.TooLarge? ==>
              txn.store.OnDisk() && UpdateOversized(txn.codec, t, a, Chosen(txn.codec, old(txn.view), t, where))
  {
    var rows := Source(txn, t.name, where, t);
    if rows.None? {
      return Refused, 0;
    }
    ChosenDistinct(txn.codec, txn.view, t, where);
    s, count := UpdateRows(txn, t, a, list, rows.value);
  }

  method UpdateTable(txn: KvTransaction, t: Table, a: Assignments, where: Option<Expression>)
    returns (s: Status, count: nat)
    requires txn.Valid() && TableAt(txn.codec, txn.view, t)
    modifies txn.Repr()
    ensures txn.Valid()
    ensures s.Ok? ==> CanUpdateTable(txn.codec, old(txn.view), t, a, where)
    ensures s.Ok? ==> Updated(txn.codec, old(txn.view), t, a, where, txn.view, txn.writes, count)
    ensures s.Refused? ==> !CanUpdateTable(txn.codec, old(txn.view), t, a, where)
    ensures s.Conflicted? ==> Clashed(txn.store.ops, txn.version, t.name)
    ensures s.TooLarge? ==>
              txn.store.OnDisk() && UpdateOversized(txn.codec, t, a, Chosen(txn.codec, old(txn.view), t, where))
  {
    var list := Resolve(t, a);
    txn.StillValid();
    if list.None? {
      return Refused, 0;
    }
    s, count := UpdateChosen(txn, t, a, list.value, where);
  }

  /**
   Succeeds only if the whole statement makes sense as one step, and then has the effect of
   that step; refuses only if it does not.  Otherwise a write conflict stopped it.
   */
  method Update(txn: KvTransaction, name: Bytes, a: Assignments, where: Option<Expression>)
    returns (s: Status, count: nat, ghost t: Table)
    requires txn.Valid() && NoZero(name)
    modifies txn.Repr()
    ensures txn.Valid()
    ensures s.Ok? ==> IsTable(txn.codec, old(txn.view), name, t) && CanUpdate(txn.codec, old(txn.view), name, a, where)
    ensures s.Refused? ==> !CanUpdate(txn.codec, old(txn.view), name, a, where)
    ensures s.Ok? ==> Updated(txn.codec, old(txn.view), t, a, where, txn.view, txn.writes, count)
    ensures s.Conflicted? ==> Clashed(txn.store.ops, txn.version, name)
    ensures s.TooLarge? ==>
              && txn.store.OnDisk() && IsTable(txn.codec, old(txn.view), name, t)
              && UpdateOversized(txn.codec, t, a, Chosen(txn.codec, old(txn.view), t, where))
  {
    t := Table([], []);
    var ok, found := txn.GetTable(name);
    if !ok || found.None? {
      CannotUpdateMissing(txn.codec, txn.view, name, a, where);
      return Refused, 0, t;
    }
    t := found.value;
    CanUpdateOnly(txn.codec, txn.view, name, a, where, t);
    s, count := UpdateTable(txn, found.value, a, where);
  }
}
