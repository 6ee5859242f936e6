/** What the statements do, in terms of the rows of the tables. */
module RowMeanings {
  import opened ByteStrings
  import opened Ordering
  import opened SnapshotIsolation
  import opened SqlValues
  import opened RowKeys
  import opened Schemas
  import opened RowStores
  import opened Moves
  import opened Statements
  import opened Updates
  import opened Inserts

  lemma InTable(c: Codec, view: View, t: Table, row: Row)
    ensures RowIn(c, view, t, row) <==> RowAt(c, view, KeyFor(t, row), t, row)
  {
  }

  /** A change of the view that takes the rows olds of t away and puts the rows news of t. */
  datatype Change = Change(olds: seq<Row>, news: seq<Row>, taken: set<Bytes>, put: View) {
    ghost function Apply(view: View): View {
      (view - taken) + put
    }
  }

  ghost predicate Of(c: Codec, view: View, t: Table, x: Change) {
    && x.taken == KeySet(t, x.olds) && (forall k :: k in x.put && k in view ==> k in x.taken)
    && (forall i :: 0 <= i < |x.olds| ==> RowAt(c, view, KeyFor(t, x.olds[i]), t, x.olds[i]))
    && (forall i :: 0 <= i < |x.news| ==> Puts(c, t, x, x.news[i]))
    && (forall k :: k in x.put ==> exists i :: 0 <= i < |x.news| && KeyFor(t, x.news[i]) == k)
  }

  ghost predicate Puts(c: Codec, t: Table, x: Change, row: Row) {
    && ValidRow(t, row) && PrimaryKey(t, row).Some?
    && KeyFor(t, row) in x.put && x.put[KeyFor(t, row)] == c.encodeRow(row)
  }

  lemma OldRowsGone(c: Codec, view: View, t: Table, x: Change, row: Row)
    requires Lossless(c) && Of(c, view, t, x) && RowAt(c, x.Apply(view), KeyFor(t, row), t, row)
    ensures
      || row in x.news
      || (KeyFor(t, row) in view && row !in x.olds && c.decodeRow(view[KeyFor(t, row)]) == Some(row))
  {
    var key := KeyFor(t, row);
    if row in x.olds {
      var i :| 0 <= i < |x.olds| && x.olds[i] == row;
      assert key in KeySet(t, x.olds);
    }
    if key in x.put {
      var i :| 0 <= i < |x.news| && KeyFor(t, x.news[i]) == key;
      assert Puts(c, t, x, x.news[i]);
    }
  }

  lemma OtherRowsStay(c: Codec, view: View, t: Table, x: Change, row: Row)
    requires Of(c, view, t, x) && RowAt(c, view, KeyFor(t, row), t, row)
    ensures row in x.olds || (KeyFor(t, row) in x.Apply(view) && x.Apply(view)[KeyFor(t, row)] == view[KeyFor(t, row)])
  {
    var key := KeyFor(t, row);
    if key in x.taken {
      var i :| 0 <= i < |x.olds| && KeyFor(t, x.olds[i]) == key;
      assert RowAt(c, view, KeyFor(t, x.olds[i]), t, x.olds[i]);
    }
  }

  /** In the table itself: the old rows are gone, the new ones are there, and nothing else changed. */
  lemma RowsAfter(c: Codec, view: View, t: Table, x: Change, row: Row)
    requires Lossless(c) && TableAt(c, view, t) && Of(c, view, t, x) && TableAt(c, x.Apply(view), t)
    ensures RowAt(c, x.Apply(view), KeyFor(t, row), t, row) <==>
            (RowAt(c, view, KeyFor(t, row), t, row) && row !in x.olds) || row in x.news
  {
    if RowAt(c, x.Apply(view), KeyFor(t, row), t, row) {
      OldRowsGone(c, view, t, x, row);
    }
    if row in x.news {
      assert Puts(c, t, x, row);
    } else if RowAt(c, view, KeyFor(t, row), t, row) {
      OtherRowsStay(c, view, t, x, row);
    }
  }

  /** Keys of rows of another table, and of tables, are not touched. */
  lemma Untouched(c: Codec, view: View, t: Table, x: Change, key: Bytes)
    requires Of(c, view, t, x) && NoZero(t.name) && !(RowPrefix(t.name) <= key)
    ensures key !in x.taken && key !in x.put
  {
    if key in x.taken {
      var i :| 0 <= i < |x.olds| && KeyFor(t, x.olds[i]) == key;
      assert RowAt(c, view, KeyFor(t, x.olds[i]), t, x.olds[i]);
      RowPrefixSelects(t.name, t.name, PrimaryKey(t, x.olds[i]).value);
    }
    if key in x.put {
      var i :| 0 <= i < |x.news| && KeyFor(t, x.news[i]) == key;
      assert Puts(c, t, x, x.news[i]);
      RowPrefixSelects(t.name, t.name, PrimaryKey(t, x.news[i]).value);
    }
  }

  lemma TablesAfter(c: Codec, view: View, t: Table, x: Change)
    requires Of(c, view, t, x) && NoZero(t.name)
    ensures forall u :: TableAt(c, view, u) ==> TableAt(c, x.Apply(view), u)
  {
    forall u | TableAt(c, view, u)
      ensures TableAt(c, x.Apply(view), u)
    {
      RowPrefixSelects(t.name, u.name, Null);
      Untouched(c, view, t, x, TableKey(u.name));
    }
  }

  /** In another table nothing changed. */
  lemma OtherRowsAfter(c: Codec, view: View, t: Table, x: Change, u: Table, row: Row)
    requires Of(c, view, t, x) && NoZero(t.name) && u.name != t.name && TableAt(c, view, u)
    requires TableAt(c, x.Apply(view), u)
    ensures RowAt(c, x.Apply(view), KeyFor(u, row), u, row) <==> RowAt(c, view, KeyFor(u, row), u, row)
  {
    if PrimaryKey(u, row).Some? {
      RowPrefixSelects(t.name, u.name, PrimaryKey(u, row).value);
      Untouched(c, view, t, x, KeyFor(u, row));
    }
  }

  /** The rows after the change, of the table and of the others. */
  ghost predicate Replaced(c: Codec, view: View, after: View, t: Table, olds: seq<Row>, news: seq<Row>) {
    && (forall row :: RowIn(c, after, t, row) <==> (RowIn(c, view, t, row) && row !in olds) || row in news)
    && (forall u, row :: TableAt(c, view, u) && u.name != t.name ==>
          TableAt(c, after, u) && (RowIn(c, after, u, row) <==> RowIn(c, view, u, row)))
  }

  lemma ChangeReplaces(c: Codec, view: View, t: Table, x: Change)
    requires Lossless(c) && TableAt(c, view, t) && Of(c, view, t, x)
    ensures Replaced(c, view, x.Apply(view), t, x.olds, x.news)
  {
    var after := x.Apply(view);
    TablesAfter(c, view, t, x);
    forall row
      ensures RowIn(c, after, t, row) <==> (RowIn(c, view, t, row) && row !in x.olds) || row in x.news
    {
      InTable(c, view, t, row);
      InTable(c, after, t, row);
      RowsAfter(c, view, t, x, row);
    }
    forall u, row | TableAt(c, view, u) && u.name != t.name
      ensures RowIn(c, after, u, row) <==> RowIn(c, view, u, row)
    {
      InTable(c, view, u, row);
      InTable(c, after, u, row);
      OtherRowsAfter(c, view, t, x, u, row);
    }
  }

  // ---- Changes that meet later contents ----

  /** The writes make the change of the snapshot, and touch every key it touches. */
  ghost predicate Carries(c: Codec, snapshot: View, t: Table, x: Change, writes: WriteSet) {
    Of(c, snapshot, t, x) && x.Apply(snapshot) == Overlay(snapshot, writes) && x.taken + x.put.Keys <= writes.Keys
  }

  lemma RebasedApply(snapshot: View, now: View, x: Change, writes: WriteSet)
    requires x.Apply(snapshot) == Overlay(snapshot, writes) && x.taken + x.put.Keys <= writes.Keys
    requires forall k :: k in writes ==> Same(snapshot, now, k)
    ensures x.Apply(now) == Overlay(now, writes)
  {
    forall k
      ensures Same(x.Apply(now), Overlay(now, writes), k)
    {
      assert Same(x.Apply(snapshot), Overlay(snapshot, writes), k);
      if k in writes {
        assert Same(snapshot, now, k);
      }
    }
    SameEverywhere(x.Apply(now), Overlay(now, writes));
  }

  /** Where the written keys are as they were in the snapshot, the writes make the same change. */
  lemma RebasedChange(c: Codec, snapshot: View, now: View, t: Table, x: Change, writes: WriteSet)
    requires Carries(c, snapshot, t, x, writes) && TableAt(c, now, t)
    requires forall k :: k in writes ==> Same(snapshot, now, k)
    ensures Of(c, now, t, x) && x.Apply(now) == Overlay(now, writes)
  {
    RebasedApply(snapshot, now, x, writes);
    forall i | 0 <= i < |x.olds|
      ensures RowAt(c, now, KeyFor(t, x.olds[i]), t, x.olds[i])
    {
      assert RowAt(c, snapshot, KeyFor(t, x.olds[i]), t, x.olds[i]);
      assert KeyFor(t, x.olds[i]) in x.taken;
    }
  }

  // ---- Counts ----

  lemma RowCount(c: Codec, view: View, t: Table)
    ensures |RowsOf(c, view, t)| == |WithPrefix(view, RowPrefix(t.name))|
  {
    ListingFacts(WithPrefix(view, RowPrefix(t.name)));
  }

  lemma SizeAfter(all: set<Bytes>, taken: set<Bytes>, put: set<Bytes>)
    requires taken <= all && (all - taken) !! put
    ensures |(all - taken) + put| + |taken| == |all| + |put|
  {
    assert all == (all - taken) + taken;
  }

  lemma PartAfter(view: View, taken: set<Bytes>, put: View, p: Bytes)
    requires forall k :: k in put ==> p <= k
    ensures WithPrefix((view - taken) + put, p).Keys == (WithPrefix(view, p).Keys - taken) + put.Keys
  {
  }

  /** A change under a prefix, counted there. */
  lemma CountWithin(view: View, taken: set<Bytes>, put: View, p: Bytes)
    requires (forall k :: k in taken ==> k in view && p <= k) && (forall k :: k in put ==> p <= k)
    requires forall k :: k in put && k in view ==> k in taken
    ensures |WithPrefix((view - taken) + put, p)| + |taken| == |WithPrefix(view, p)| + |put|
  {
    PartAfter(view, taken, put, p);
    SizeAfter(WithPrefix(view, p).Keys, taken, put.Keys);
  }

  lemma CountAfter(c: Codec, view: View, t: Table, x: Change)
    requires Of(c, view, t, x) && NoZero(t.name)
    ensures |RowsOf(c, x.Apply(view), t)| + |x.taken| == |RowsOf(c, view, t)| + |x.put|
  {
    var p := RowPrefix(t.name);
    forall k | k in x.taken
      ensures k in view && p <= k
    {
      var i :| 0 <= i < |x.olds| && KeyFor(t, x.olds[i]) == k;
      assert RowAt(c, view, KeyFor(t, x.olds[i]), t, x.olds[i]);
      RowPrefixSelects(t.name, t.name, PrimaryKey(t, x.olds[i]).value);
    }
    forall k | k in x.put
      ensures p <= k
    {
      var i :| 0 <= i < |x.news| && KeyFor(t, x.news[i]) == k;
      assert Puts(c, t, x, x.news[i]);
      RowPrefixSelects(t.name, t.name, PrimaryKey(t, x.news[i]).value);
    }
    CountWithin(view, x.taken, x.put, p);
    RowCount(c, view, t);
    RowCount(c, x.Apply(view), t);
  }

  lemma {:induction false} KeySetSize(t: Table, rows: seq<Row>)
    requires forall i, j :: 0 <= i < j < |rows| ==> KeyFor(t, rows[i]) != KeyFor(t, rows[j])
    ensures |KeySet(t, rows)| == |rows|
  {
    if rows != [] {
      var last := |rows| - 1;
      KeySetSize(t, rows[..last]);
      KeySetStep(t, rows, last);
      assert rows[..last + 1] == rows;
    }
  }

  // ---- The statements ----

  ghost function AssignedRows(t: Table, a: Assignments, rows: seq<Row>): (news: seq<Row>)
    ensures |news| == |rows|
  {
    seq(|rows|, i requires 0 <= i < |rows| => Assigned(t, a, rows[i]))
  }

  /** Moves of rows are such a change. */
  lemma MovesChange(c: Codec, view: View, t: Table, olds: seq<Row>, news: seq<Row>, ms: seq<Move>)
    requires ValidTable(t) && Clean(view, ms) && Froms(ms) == KeySet(t, olds) && |ms| == |news|
    requires forall i :: 0 <= i < |olds| ==> RowAt(c, view, KeyFor(t, olds[i]), t, olds[i])
    requires forall i :: 0 <= i < |news| ==>
             ValidRow(t, news[i]) && ms[i].to == KeyFor(t, news[i]) && ms[i].value == c.encodeRow(news[i])
    ensures var x := Change(olds, news, Froms(ms), Placed(ms)); Of(c, view, t, x) && |x.put| == |news|
  {
    var x := Change(olds, news, Froms(ms), Placed(ms));
    PlacedKeys(ms);
    forall i | 0 <= i < |news|
      ensures Puts(c, t, x, news[i])
    {
      PrimaryKeysComparable(t, news[i], news[i]);
      PlacedAt(ms, i);
    }
    forall k | k in x.put
      ensures (k in view ==> k in x.taken) && exists i :: 0 <= i < |news| && KeyFor(t, news[i]) == k
    {
      var i :| 0 <= i < |ms| && ms[i].to == k;
      assert KeyFor(t, news[i]) == k;
      assert LandsFree(view, Froms(ms), ms);
    }
  }

  lemma UpdateFroms(c: Codec, t: Table, a: Assignments, rows: seq<Row>)
    ensures Froms(MovesOf(c, t, a, rows)) == KeySet(t, rows)
  {
    var ms := MovesOf(c, t, a, rows);
    forall k | k in KeySet(t, rows)
      ensures k in Froms(ms)
    {
      var i :| 0 <= i < |rows| && KeyFor(t, rows[i]) == k;
      assert ms[i].from == Some(k);
    }
  }

  ghost function UpdateChange(c: Codec, t: Table, a: Assignments, rows: seq<Row>): Change {
    var ms := MovesOf(c, t, a, rows);
    Change(rows, AssignedRows(t, a, rows), Froms(ms), Placed(ms))
  }

  lemma UpdateChanges(c: Codec, view: View, t: Table, a: Assignments, rows: seq<Row>)
    requires TableAt(c, view, t) && DistinctRows(c, view, t, rows) && Updatable(c, view, t, a, rows)
    ensures var x := UpdateChange(c, t, a, rows); Of(c, view, t, x) && |x.taken| == |x.put|
  {
    UpdateFroms(c, t, a, rows);
    MovesChange(c, view, t, rows, AssignedRows(t, a, rows), MovesOf(c, t, a, rows));
    KeySetSize(t, rows);
  }

  ghost function InsertChange(c: Codec, t: Table, rows: seq<Row>): Change {
    Change([], rows, {}, Placed(CreateMoves(c, t, rows)))
  }

  lemma InsertChanges(c: Codec, view: View, t: Table, rows: seq<Row>)
    requires TableAt(c, view, t) && Creatable(c, view, t, rows)
    ensures var x := InsertChange(c, t, rows);
            Of(c, view, t, x) && |x.put| == |rows| && x.Apply(view) == Moved(view, CreateMoves(c, t, rows))
  {
    var ms := CreateMoves(c, t, rows);
    CreateMovesFroms(c, t, rows);
    MovesChange(c, view, t, [], rows, ms);
  }

  ghost function DeleteChange(t: Table, rows: seq<Row>): Change {
    Change(rows, [], KeySet(t, rows), map[])
  }

  lemma DeleteChanges(c: Codec, view: View, t: Table, rows: seq<Row>)
    requires TableAt(c, view, t) && DistinctRows(c, view, t, rows)
    ensures var x := DeleteChange(t, rows);
            Of(c, view, t, x) && |x.taken| == |rows| && x.Apply(view) == view - KeySet(t, rows)
  {
    KeySetSize(t, rows);
  }

  lemma MovesCarry(c: Codec, view: View, t: Table, x: Change, ms: seq<Move>, writes: WriteSet)
    requires Of(c, view, t, x) && x.taken == Froms(ms) && x.put == Placed(ms)
    requires AllWritten(writes, ms) && Overlay(view, writes) == Moved(view, ms)
    ensures Carries(c, view, t, x, writes)
  {
    PlacedKeys(ms);
    assert Froms(ms) <= writes.Keys && Tos(ms) <= writes.Keys;
  }

  lemma UpdateCarried(c: Codec, view: View, t: Table, a: Assignments, rows: seq<Row>, writes: WriteSet)
    requires TableAt(c, view, t) && DistinctRows(c, view, t, rows) && Updatable(c, view, t, a, rows)
    requires var ms := MovesOf(c, t, a, rows); AllWritten(writes, ms) && Overlay(view, writes) == Moved(view, ms)
    ensures var x := UpdateChange(c, t, a, rows); Carries(c, view, t, x, writes) && |x.taken| == |x.put|
  {
    UpdateChanges(c, view, t, a, rows);
    MovesCarry(c, view, t, UpdateChange(c, t, a, rows), MovesOf(c, t, a, rows), writes);
  }

  lemma CreateMovesFroms(c: Codec, t: Table, rows: seq<Row>)
    ensures Froms(CreateMoves(c, t, rows)) == {}
  {
  }

  lemma InsertCarried(c: Codec, view: View, t: Table, rows: seq<Row>, writes: WriteSet)
    requires TableAt(c, view, t) && Creatable(c, view, t, rows)
    requires var ms := CreateMoves(c, t, rows); AllWritten(writes, ms) && Overlay(view, writes) == Moved(view, ms)
    ensures var x := InsertChange(c, t, rows); Carries(c, view, t, x, writes) && |x.put| == |rows|
  {
    InsertChanges(c, view, t, rows);
    CreateMovesFroms(c, t, rows);
    MovesCarry(c, view, t, InsertChange(c, t, rows), CreateMoves(c, t, rows), writes);
  }

  /** A change of sound contents into sound contents, in terms of the rows of the tables. */
  lemma ChangeMeaning(c: Codec, view: View, t: Table, x: Change)
    requires Lossless(c) && TableAt(c, view, t) && Of(c, view, t, x)
    ensures Replaced(c, view, x.Apply(view), t, x.olds, x.news)
    ensures |RowsOf(c, x.Apply(view), t)| + |x.taken| == |RowsOf(c, view, t)| + |x.put|
  {
    ChangeReplaces(c, view, t, x);
    CountAfter(c, view, t, x);
  }
}
