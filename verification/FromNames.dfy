/** Which column an ON operand names, once a RIGHT JOIN has changed the order of the columns. */
module FromNames {
  import opened ByteStrings
  import opened SqlValues
  import opened Expressions
  import opened Bags
  import opened Joins
  import opened FromClauses
  import opened FromMeanings

  /** The cell a column reference means. */
  function CellOf(s: Scope, name: Bytes): Option<Value>
    requires s.Fits()
  {
    Evaluate(ColumnReference(name), s, s)
  }

  /** e looks name up in its first input, or in its second. */
  predicate Reads(e: Expression, name: Bytes, first: bool) {
    match e
    case ColumnReference(n) => first && n == name
    case Operation(_, l, r) => Reads(l, name, first) || Reads(r, name, !first)
    case _ => false
  }

  lemma {:induction false} SameReads(e: Expression, a: Scope, a': Scope, b: Scope, first: bool)
    requires a.Fits() && a'.Fits() && b.Fits()
    requires forall name :: Reads(e, name, first) ==> CellOf(a, name) == CellOf(a', name)
    ensures if first then Evaluate(e, a, b) == Evaluate(e, a', b) else Evaluate(e, b, a) == Evaluate(e, b, a')
  {
    match e
    case ColumnReference(name) =>
      if first {
        assert Reads(e, name, first);
      }
    case Operation(_, l, r) =>
      assert forall name :: Reads(l, name, first) || Reads(r, name, !first) ==> Reads(e, name, first);
      SameReads(l, a, a', b, first);
      SameReads(r, a, a', b, !first);
    case _ =>
  }

  // ---- One clause ----

  /** The first column of that name, as the engine holds the columns, is the first in the order of the text. */
  predicate SamePlace(order: seq<nat>, columns: seq<Bytes>, name: Bytes)
    requires forall i :: 0 <= i < |order| ==> order[i] < |columns|
  {
    var k := IndexOf(Rearranged(order, columns), name);
    k.Some? ==> IndexOf(columns, name) == Some(order[k.value])
  }

  lemma HeldIsThere(order: seq<nat>, columns: seq<Bytes>, name: Bytes)
    requires Positions(order, |columns|)
    ensures IndexOf(Rearranged(order, columns), name).Some? <==> IndexOf(columns, name).Some?
  {
    var names := Rearranged(order, columns);
    var i, k := IndexOf(columns, name), IndexOf(names, name);
    assert k.Some? ==> columns[order[k.value]] == name;
    if i.Some? {
      assert i.value in order;
      var j :| 0 <= j < |order| && order[j] == i.value;
      assert names[j] == name;
    }
  }

  lemma CellHeld(order: seq<nat>, columns: seq<Bytes>, name: Bytes, row: Row)
    requires Positions(order, |columns|) && |row| == |columns|
    ensures var k := IndexOf(Rearranged(order, columns), name);
            CellOf(Scope(Rearranged(order, columns), Rearranged(order, row)), name) ==
            if k.Some? then Some(row[order[k.value]]) else None
  {
  }

  lemma CellWritten(columns: seq<Bytes>, name: Bytes, row: Row)
    requires |row| == |columns|
    ensures var i := IndexOf(columns, name);
            CellOf(Scope(columns, row), name) == if i.Some? then Some(row[i.value]) else None
  {
  }

  ghost predicate SameCell(order: seq<nat>, columns: seq<Bytes>, name: Bytes, row: Row)
    requires Positions(order, |columns|) && |row| == |columns|
  {
    CellOf(Scope(Rearranged(order, columns), Rearranged(order, row)), name) == CellOf(Scope(columns, row), name)
  }

  /** The two readings of a name give the same cell of every row exactly if it is in the same place. */
  lemma SamePlaceExact(order: seq<nat>, columns: seq<Bytes>, name: Bytes)
    requires Positions(order, |columns|)
    ensures SamePlace(order, columns, name) <==>
            forall row: Row :: |row| == |columns| ==> SameCell(order, columns, name, row)
  {
    if SamePlace(order, columns, name) {
      forall row: Row | |row| == |columns|
        ensures SameCell(order, columns, name, row)
      {
        SamePlaceSameCell(order, columns, name, row);
      }
    } else {
      var row := OtherPlaceOtherCell(order, columns, name);
    }
  }

  lemma SamePlaceSameCell(order: seq<nat>, columns: seq<Bytes>, name: Bytes, row: Row)
    requires Positions(order, |columns|) && |row| == |columns| && SamePlace(order, columns, name)
    ensures SameCell(order, columns, name, row)
  {
    HeldIsThere(order, columns, name);
    CellHeld(order, columns, name, row);
    CellWritten(columns, name, row);
  }

  lemma OtherPlaceOtherCell(order: seq<nat>, columns: seq<Bytes>, name: Bytes) returns (row: Row)
    requires Positions(order, |columns|) && !SamePlace(order, columns, name)
    ensures |row| == |columns| && !SameCell(order, columns, name, row)
  {
    HeldIsThere(order, columns, name);
    var i := IndexOf(columns, name).value;
    row := seq(|columns|, j => Boolean(j == i));
    CellHeld(order, columns, name, row);
    CellWritten(columns, name, row);
  }

  /** Every name the condition looks up to its left is in the same place. */
  ghost predicate PlacedAsWritten(order: seq<nat>, columns: seq<Bytes>, c: Clause)
    requires Positions(order, |columns|)
  {
    Written(c).Some? ==> forall name :: Reads(Written(c).value, name, true) ==> SamePlace(order, columns, name)
  }

  lemma JudgedSame(d: Denoted, t: Relation, c: Clause, a: Row, b: Row)
    requires d.Good() && |a| == |d.columns| && |b| == |t.columns| && PlacedAsWritten(d.order, d.columns, c)
    ensures Judge(Written(c), Scope(Names(d, AsHeld), See(d, AsHeld)(a)), Scope(t.columns, b)) ==
            Judge(Written(c), Scope(Names(d, AsWritten), See(d, AsWritten)(a)), Scope(t.columns, b))
  {
    InBounds(d.order, a);
    if Written(c).Some? {
      var held, text := Scope(Rearranged(d.order, d.columns), Rearranged(d.order, a)), Scope(d.columns, a);
      forall name | Reads(Written(c).value, name, true)
        ensures CellOf(held, name) == CellOf(text, name)
      {
        SamePlaceExact(d.order, d.columns, name);
        assert SameCell(d.order, d.columns, name, a);
      }
      SameReads(Written(c).value, held, text, Scope(t.columns, b), true);
    }
  }

  lemma MatchesSame(on: Condition, on': Condition, a: Row, bs: seq<Row>)
    requires forall b :: b in bs ==> on(a, b) == on'(a, b)
    ensures Matches(on, a, bs) == Matches(on', a, bs) && (Matched(on, a, bs) <==> Matched(on', a, bs))
  {
    SameResults(bs, Pairing(on, a), Pairing(on', a));
  }

  lemma JoinSame(kind: JoinType, on: Condition, on': Condition, rows: seq<Row>, n: nat, bs: seq<Row>, m: nat)
    requires forall a, b :: a in rows && b in bs ==> on(a, b) == on'(a, b)
    ensures SqlJoin(kind, on, rows, n, bs, m) == SqlJoin(kind, on', rows, n, bs, m)
  {
    forall a | a in rows
      ensures MatchesIn(on, bs)(a) == MatchesIn(on', bs)(a)
      ensures LeftPad(true, on, m, bs)(a) == LeftPad(true, on', m, bs)(a)
    {
      MatchesSame(on, on', a, bs);
    }
    SameResults(rows, MatchesIn(on, bs), MatchesIn(on', bs));
    SameResults(rows, LeftPad(true, on, m, bs), LeftPad(true, on', m, bs));
    SameResults(bs, RightPad(on, n, rows), RightPad(on', n, rows));
  }

  lemma FailsSame(
    p: Option<Expression>, left: seq<Bytes>, left': seq<Bytes>, right: seq<Bytes>, rows: seq<Row>, rows': seq<Row>,
    bs: seq<Row>)
    requires |rows| == |rows'|
    requires forall i, b :: 0 <= i < |rows| && b in bs ==>
             (PairFails(p, left, right, rows[i], b) <==> PairFails(p, left', right, rows'[i], b))
    ensures SomePairFails(p, left, right, rows, bs) ==> SomePairFails(p, left', right, rows', bs)
  {
    if SomePairFails(p, left, right, rows, bs) {
      var a :| a in rows && RowFails(p, left, right, a, bs);
      var i :| 0 <= i < |rows| && rows[i] == a;
      var b :| b in bs && PairFails(p, left, right, a, b);
      assert PairFails(p, left', right, rows'[i], b);
      assert RowFails(p, left', right, rows'[i], bs);
    }
  }

  lemma SeenWidth(d: Denoted, how: Lookup, a: Row)
    requires d.Good() && |a| == |d.columns|
    ensures |See(d, how)(a)| == |Names(d, how)|
  {
    InBounds(d.order, a);
  }

  /** A clause whose names are in the same places means the same in both readings. */
  lemma ClauseSame(d: Denoted, t: Relation, c: Clause)
    requires d.Good() && t.Shaped() && PlacedAsWritten(d.order, d.columns, c)
    ensures JoinClause(d, t, c, AsHeld) == JoinClause(d, t, c, AsWritten)
  {
    var p, x, y := Written(c), Names(d, AsHeld), Names(d, AsWritten);
    var see, see' := See(d, AsHeld), See(d, AsWritten);
    forall a, b | a in d.rows && b in t.rows
      ensures When(p, x, t.columns)(see(a), b) == When(p, y, t.columns)(see'(a), b)
      ensures PairFails(p, x, t.columns, see(a), b) <==> PairFails(p, y, t.columns, see'(a), b)
    {
      SeenWidth(d, AsHeld, a);
      SeenWidth(d, AsWritten, a);
      JudgedSame(d, t, c, a, b);
    }
    FailsSame(p, x, y, t.columns, Mapped(d.rows, see), Mapped(d.rows, see'), t.rows);
    FailsSame(p, y, x, t.columns, Mapped(d.rows, see'), Mapped(d.rows, see), t.rows);
    JoinSame(c.kind, Seen(When(p, x, t.columns), see), Seen(When(p, y, t.columns), see'),
             d.rows, |d.columns|, t.rows, |t.columns|);
  }

  lemma OneRow(x: Row, f: Row -> seq<Row>)
    ensures FlatMap([x], f) == f(x)
  {
    Snoc([], x, f);
    assert [] + [x] == [x];
  }

  lemma JoinOne(kind: JoinType, on: Condition, a: Row, n: nat, b: Row, m: nat)
    ensures SqlJoin(kind, on, [a], n, [b], m) ==
            if on(a, b) then [a + b]
            else match kind case LeftJoin => [a + Nulls(m)] case RightJoin => [Nulls(n) + b] case _ => []
  {
    OneRow(b, Pairing(on, a));
    OneRow(a, MatchesIn(on, [b]));
    OneRow(a, LeftPad(true, on, m, [b]));
    OneRow(b, RightPad(on, n, [a]));
    assert Matched(on, a, [b]) <==> on(a, b);
    assert Matching(on, [a], b) <==> on(a, b);
  }

  /** The two rows match, or do not, in this reading. */
  ghost predicate OneMatch(d: Denoted, t: Relation, c: Clause, how: Lookup, a: Row, b: Row, matches: bool)
    requires d.Good()
  {
    && d.rows == [a] && t.rows == [b] && |t.columns| == |b| && |See(d, how)(a)| == |Names(d, how)|
    && Judge(Written(c), Scope(Names(d, how), See(d, how)(a)), Scope(t.columns, b)) == Some(matches)
  }

  /** What a clause makes of one row and one row. */
  function OneRowResult(kind: JoinType, a: Row, b: Row, matches: bool): seq<Row> {
    if matches then [a + b]
    else match kind
      case LeftJoin => [a + Nulls(|b|)]
      case RightJoin => [Nulls(|a|) + b]
      case _ => []
  }

  lemma OneNeverFails(d: Denoted, t: Relation, c: Clause, how: Lookup, a: Row, b: Row, matches: bool)
    requires d.Good() && OneMatch(d, t, c, how, a, b, matches)
    ensures !SomePairFails(Written(c), Names(d, how), t.columns, Mapped(d.rows, See(d, how)), t.rows)
  {
    var names, see := Names(d, how), See(d, how);
    assert Mapped(d.rows, see) == [see(a)];
    assert !PairFails(Written(c), names, t.columns, see(a), b);
    assert !RowFails(Written(c), names, t.columns, see(a), [b]);
  }

  lemma OneRowClause(d: Denoted, t: Relation, c: Clause, how: Lookup, a: Row, b: Row, matches: bool)
    requires d.Good() && OneMatch(d, t, c, how, a, b, matches)
    ensures JoinClause(d, t, c, how).Some?
    ensures JoinClause(d, t, c, how).value.rows == OneRowResult(c.kind, a, b, matches)
  {
    var names, see := Names(d, how), See(d, how);
    OneNeverFails(d, t, c, how, a, b, matches);
    JoinOne(c.kind, Seen(When(Written(c), names, t.columns), see), a, |d.columns|, b, |t.columns|);
  }

  /** The clause compares a column before it with a column of its table. */
  predicate ComparesColumns(c: Clause, x: Bytes, y: Bytes) {
    !c.kind.CrossJoin? && c.left == ColumnReference(x) && c.right == ColumnReference(y)
  }

  lemma JudgeColumns(c: Clause, a: Scope, b: Scope, x: Bytes, y: Bytes, v: Value, w: Value)
    requires a.Fits() && b.Fits() && ComparesColumns(c, x, y) && (v.Integer? || v.Null?) && w.Integer?
    requires CellOf(a, x) == Some(v) && CellOf(b, y) == Some(w)
    ensures Judge(Written(c), a, b) == Some(v == w)
  {
    assert Evaluate(c.left, a, b) == Some(v) && Evaluate(c.right, b, a) == Some(w);
    assert Evaluate(Operation(EqualTo, c.left, c.right), a, b) == EvaluateComparison(EqualTo, v, w);
  }

  function Ones(n: nat): (row: Row)
    ensures |row| == n && forall i :: 0 <= i < n ==> row[i] == Integer(1)
  {
    seq(n, _ => Integer(1))
  }

  lemma OnesCell(columns: seq<Bytes>, y: Bytes)
    requires y in columns
    ensures CellOf(Scope(columns, Ones(|columns|)), y) == Some(Integer(1))
  {
  }

  /** A row that holds 1 where the engine looks x up, and something else where the text does. */
  ghost predicate TellsApart(d: Denoted, row: Row, x: Bytes)
    requires d.Good()
  {
    && d.rows == [row] && |row| == |d.columns|
    && CellOf(Scope(Rearranged(d.order, d.columns), Rearranged(d.order, row)), x) == Some(Integer(1))
    && CellOf(Scope(d.columns, row), x) in {Some(Null), Some(Integer(0))}
  }

  /** On such a row the two readings of a clause differ: the engine finds a match and the text means none. */
  lemma ApartDiffers(d: Denoted, row: Row, columns: seq<Bytes>, c: Clause, x: Bytes, y: Bytes)
    requires d.Good() && TellsApart(d, row, x) && ComparesColumns(c, x, y) && y in columns
    ensures var t, b := Relation(columns, [Ones(|columns|)]), Ones(|columns|);
            && JoinClause(d, t, c, AsHeld).Some? && JoinClause(d, t, c, AsWritten).Some?
            && JoinClause(d, t, c, AsHeld).value.rows == [row + b]
            && JoinClause(d, t, c, AsWritten).value.rows == OneRowResult(c.kind, row, b, false)
  {
    var b := Ones(|columns|);
    var t := Relation(columns, [b]);
    InBounds(d.order, row);
    OnesCell(columns, y);
    var held, text := Scope(Rearranged(d.order, d.columns), Rearranged(d.order, row)), Scope(d.columns, row);
    var v := CellOf(text, x).value;
    JudgeColumns(c, held, Scope(columns, b), x, y, Integer(1), Integer(1));
    JudgeColumns(c, text, Scope(columns, b), x, y, v, Integer(1));
    OneRowClause(d, t, c, AsHeld, row, b, true);
    OneRowClause(d, t, c, AsWritten, row, b, false);
  }

  /** A match and no match never look alike. */
  lemma ResultsDiffer(kind: JoinType, a: Row, n: nat, i: nat)
    requires n > 0 && i < |a| && !a[i].Null?
    ensures [a + Ones(n)] != OneRowResult(kind, a, Ones(n), false)
  {
    var b := Ones(n);
    assert (a + b)[|a|] == Integer(1) && (a + Nulls(n))[|a|] == Null;
    assert (a + b)[i] == a[i] && (Nulls(|a|) + b)[i] == Null;
  }

  /**
   A clause that compares a misplaced name with a column of its table: for any columns before
   it, in any order, there are contents on which the two readings differ.
   */
  lemma MisplacedDiffers(order: seq<nat>, columns: seq<Bytes>, right: seq<Bytes>, c: Clause, x: Bytes, y: Bytes)
    returns (row: Row)
    requires Positions(order, |columns|) && !SamePlace(order, columns, x) && ComparesColumns(c, x, y) && y in right
    ensures |row| == |columns|
    ensures var d, t := Denoted(columns, order, [row]), Relation(right, [Ones(|right|)]);
            && d.Good() && JoinClause(d, t, c, AsHeld).Some? && JoinClause(d, t, c, AsWritten).Some?
            && JoinClause(d, t, c, AsHeld).value.rows != JoinClause(d, t, c, AsWritten).value.rows
  {
    HeldIsThere(order, columns, x);
    var i := IndexOf(columns, x).value;
    var k := order[IndexOf(Rearranged(order, columns), x).value];
    row := seq(|columns|, j => Integer(if j == i then 0 else 1));
    var d := Denoted(columns, order, [row]);
    assert TellsApart(d, row, x);
    ApartDiffers(d, row, right, c, x, y);
    ResultsDiffer(c.kind, row, |right|, k);
  }

  // ---- Whole FROM clauses ----

  function ColumnsIn(db: Catalog, name: Bytes): seq<Bytes> {
    if db(name).Some? then db(name).value.columns else []
  }

  /** The columns in the order of the text. */
  function TextColumns(first: Bytes, clauses: seq<Clause>, db: Catalog): seq<Bytes> {
    if clauses == [] then ColumnsIn(db, first)
    else TextColumns(first, clauses[..|clauses| - 1], db) + ColumnsIn(db, clauses[|clauses| - 1].table)
  }

  /** Their positions in the order the engine holds them: it follows from the kinds of the joins. */
  ghost function HeldOrder(first: Bytes, clauses: seq<Clause>, db: Catalog): (order: seq<nat>)
    ensures Positions(order, |TextColumns(first, clauses, db)|)
  {
    if clauses == [] then
      StartPositions(|ColumnsIn(db, first)|);
      From(0, |ColumnsIn(db, first)|)
    else
      var init, c := clauses[..|clauses| - 1], clauses[|clauses| - 1];
      var n, m := |TextColumns(first, init, db)|, |ColumnsIn(db, c.table)|;
      PositionsAfter(c.kind, HeldOrder(first, init, db), n, m);
      OrderAfter(c.kind, HeldOrder(first, init, db), n, m)
  }

  lemma StartPositions(n: nat)
    ensures Positions(From(0, n), n)
  {
    forall p: nat | p < n
      ensures p in From(0, n)
    {
      assert From(0, n)[p] == p;
    }
  }

  /** Every name an ON condition looks up among the tables before it is in the same place in both orders. */
  ghost predicate InPlace(first: Bytes, clauses: seq<Clause>, db: Catalog) {
    clauses == [] ||
    var init, c := clauses[..|clauses| - 1], clauses[|clauses| - 1];
    && InPlace(first, init, db)
    && PlacedAsWritten(HeldOrder(first, init, db), TextColumns(first, init, db), c)
  }

  lemma {:induction false} DenotedShape(first: Bytes, clauses: seq<Clause>, db: Catalog, how: Lookup)
    requires FromClauses.Shaped(db) && Denote(first, clauses, db, how).Some?
    ensures var d := Denote(first, clauses, db, how).value;
            d.columns == TextColumns(first, clauses, db) && d.order == HeldOrder(first, clauses, db)
  {
    if clauses != [] {
      DenotedShape(first, clauses[..|clauses| - 1], db, how);
    }
  }

  /** With every name in its place, looking columns up in the engine's order gives what the text means. */
  lemma {:induction false} InPlaceAgrees(first: Bytes, clauses: seq<Clause>, db: Catalog)
    requires FromClauses.Shaped(db) && InPlace(first, clauses, db)
    ensures Denote(first, clauses, db, AsHeld) == Denote(first, clauses, db, AsWritten)
  {
    if clauses != [] {
      var init, c := clauses[..|clauses| - 1], clauses[|clauses| - 1];
      InPlaceAgrees(first, init, db);
      var d := Denote(first, init, db, AsHeld);
      if d.Some? && db(c.table).Some? {
        DenotedShape(first, init, db, AsHeld);
        ClauseSame(d.value, db(c.table).value, c);
      }
    }
  }

  /** Without a RIGHT JOIN every name is in its place. */
  lemma {:induction false} NoRightJoinInPlace(first: Bytes, clauses: seq<Clause>, db: Catalog)
    requires forall c :: c in clauses ==> !c.kind.RightJoin?
    ensures InPlace(first, clauses, db)
  {
    if clauses != [] {
      var init := clauses[..|clauses| - 1];
      NoRightJoinInPlace(first, init, db);
      NoRightJoinOrder(first, init, db);
      IdentityInPlace(TextColumns(first, init, db));
    }
  }

  lemma {:induction false} NoRightJoinOrder(first: Bytes, clauses: seq<Clause>, db: Catalog)
    requires forall c :: c in clauses ==> !c.kind.RightJoin?
    ensures HeldOrder(first, clauses, db) == From(0, |TextColumns(first, clauses, db)|)
  {
    if clauses != [] {
      var init, c := clauses[..|clauses| - 1], clauses[|clauses| - 1];
      NoRightJoinOrder(first, init, db);
      assert c in clauses;
      FromFrom(|TextColumns(first, init, db)|, |ColumnsIn(db, c.table)|);
    }
  }

  lemma FromFrom(n: nat, m: nat)
    ensures From(0, n) + From(n, m) == From(0, n + m)
  {
  }

  lemma IdentityInPlace(columns: seq<Bytes>)
    ensures forall name :: SamePlace(From(0, |columns|), columns, name)
  {
    assert Rearranged(From(0, |columns|), columns) == columns;
  }

  // ---- A name in the table of a RIGHT JOIN and in one before it ----

  function TablesOf(first: Bytes, clauses: seq<Clause>): seq<Bytes> {
    if clauses == [] then [first] else TablesOf(first, clauses[..|clauses| - 1]) + [clauses[|clauses| - 1].table]
  }

  /** The tables with the columns they have, a row of ones in these and no rows in the others. */
  function Filled(db: Catalog, full: set<Bytes>): Catalog {
    name =>
      if db(name).None? then None
      else
        var columns := db(name).value.columns;
        Some(Relation(columns, if name in full then [Ones(|columns|)] else []))
  }

  lemma FilledShaped(db: Catalog, full: set<Bytes>)
    ensures FromClauses.Shaped(Filled(db, full))
  {
    forall name | Filled(db, full)(name).Some?
      ensures Filled(db, full)(name).value.Shaped()
    {
      var t := Filled(db, full)(name).value;
      assert t.rows == [] || t.rows == [Ones(|t.columns|)];
    }
  }

  lemma {:induction false} EmptyBefore(first: Bytes, clauses: seq<Clause>, db: Catalog, how: Lookup)
    requires FromClauses.Shaped(db)
    requires forall name :: name in TablesOf(first, clauses) ==> db(name).Some? && db(name).value.rows == []
    ensures Denote(first, clauses, db, how).Some? && Denote(first, clauses, db, how).value.rows == []
  {
    if clauses != [] {
      var init, c := clauses[..|clauses| - 1], clauses[|clauses| - 1];
      assert c.table in TablesOf(first, clauses);
      EmptyBefore(first, init, db, how);
      EmptyJoin(Denote(first, init, db, how).value, db(c.table).value, c, how);
    }
  }

  lemma EmptyJoin(d: Denoted, t: Relation, c: Clause, how: Lookup)
    requires d.Good() && d.rows == []
    ensures JoinClause(d, t, c, how).Some?
    ensures t.rows == [] ==> JoinClause(d, t, c, how).value.rows == []
    ensures |t.rows| == 1 && c.kind.RightJoin? ==>
              JoinClause(d, t, c, how).value.rows == [Nulls(|d.columns|) + t.rows[0]]
  {
    if |t.rows| == 1 && c.kind.RightJoin? {
      var on := Seen(When(Written(c), Names(d, how), t.columns), See(d, how));
      assert t.rows == [t.rows[0]];
      OneRow(t.rows[0], RightPad(on, |d.columns|, []));
    }
  }

  /** Directly after a RIGHT JOIN, a name of its table is in its place exactly if no table before it has the name. */
  lemma PlaceAfterRightJoin(order: seq<nat>, columns: seq<Bytes>, right: seq<Bytes>, x: Bytes)
    requires Positions(order, |columns|) && x in right
    ensures Positions(OrderAfter(RightJoin, order, |columns|, |right|), |columns + right|)
    ensures SamePlace(OrderAfter(RightJoin, order, |columns|, |right|), columns + right, x) <==> x !in columns
  {
    PositionsAfter(RightJoin, order, |columns|, |right|);
    var held, k := OrderAfter(RightJoin, order, |columns|, |right|), IndexOf(right, x).value;
    FirstAtExact(right, x, k);
    PlaceAfter(order, held, columns, right, x, k);
  }

  /** x stands at i, and not before. */
  predicate FirstAt(names: seq<Bytes>, x: Bytes, i: nat) {
    i < |names| && names[i] == x && x !in names[..i]
  }

  lemma {:induction false} FirstIs(names: seq<Bytes>, x: Bytes, i: nat)
    requires FirstAt(names, x, i)
    ensures IndexOf(names, x) == Some(i)
  {
    if i > 0 {
      assert names[0] in names[..i];
      assert names[1..][..i - 1] == names[..i][1..];
      FirstIs(names[1..], x, i - 1);
    }
  }

  lemma FirstAtExact(names: seq<Bytes>, x: Bytes, i: nat)
    ensures FirstAt(names, x, i) <==> IndexOf(names, x) == Some(i)
  {
    if FirstAt(names, x, i) {
      FirstIs(names, x, i);
    }
  }

  lemma FirstOfPair(a: seq<Bytes>, b: seq<Bytes>, x: Bytes, k: nat)
    requires FirstAt(b, x, k)
    ensures FirstAt(b + a, x, k) && (FirstAt(a + b, x, |a| + k) <==> x !in a)
  {
    assert (b + a)[..k] == b[..k];
    assert (a + b)[..|a| + k] == a + b[..k];
  }

  lemma PlaceGiven(held: seq<nat>, columns: seq<Bytes>, x: Bytes, k: nat, p: nat)
    requires (forall i :: 0 <= i < |held| ==> held[i] < |columns|) && FirstAt(Rearranged(held, columns), x, k)
    requires held[k] == p
    ensures SamePlace(held, columns, x) <==> FirstAt(columns, x, p)
  {
    FirstAtExact(Rearranged(held, columns), x, k);
    FirstAtExact(columns, x, p);
  }

  lemma PlaceAfter(order: seq<nat>, held: seq<nat>, columns: seq<Bytes>, right: seq<Bytes>, x: Bytes, k: nat)
    requires (forall i :: 0 <= i < |order| ==> order[i] < |columns|) && FirstAt(right, x, k)
    requires held == From(|columns|, |right|) + order && forall i :: 0 <= i < |held| ==> held[i] < |columns + right|
    ensures SamePlace(held, columns + right, x) <==> x !in columns
  {
    RearrangePair(order, columns, right);
    FirstOfPair(Rearranged(order, columns), right, x, k);
    FirstOfPair(columns, right, x, k);
    PlaceGiven(held, columns + right, x, k, |columns| + k);
  }

  lemma IndexFirst(a: seq<Bytes>, b: seq<Bytes>, x: Bytes)
    requires x in a
    ensures IndexOf(a + b, x) == IndexOf(a, x)
  {
    var i := IndexOf(a, x).value;
    assert (a + b)[..i] == a[..i];
    FirstIs(a + b, x, i);
  }

  lemma LastClause(first: Bytes, clauses: seq<Clause>, c: Clause, db: Catalog, how: Lookup, d: Denoted, t: Relation)
    requires FromClauses.Shaped(db) && Denote(first, clauses, db, how) == Some(d) && db(c.table) == Some(t)
    ensures Denote(first, clauses + [c], db, how) == JoinClause(d, t, c, how)
  {
    assert (clauses + [c])[..|clauses|] == clauses;
  }

  /** What the tables of a FROM clause hold after a RIGHT JOIN with no rows before it. */
  lemma RightJoinOfNothing(first: Bytes, init: seq<Clause>, r: Clause, db: Catalog, how: Lookup)
    requires FromClauses.Shaped(db) && r.kind.RightJoin? && db(r.table).Some? && |db(r.table).value.rows| == 1
    requires forall name :: name in TablesOf(first, init) ==> db(name).Some? && db(name).value.rows == []
    ensures Denote(first, init + [r], db, how) ==
            Some(Denoted(TextColumns(first, init + [r], db), HeldOrder(first, init + [r], db),
                         [Nulls(|TextColumns(first, init, db)|) + db(r.table).value.rows[0]]))
  {
    EmptyBefore(first, init, db, how);
    DenotedShape(first, init, db, how);
    var d, t := Denote(first, init, db, how).value, db(r.table).value;
    EmptyJoin(d, t, r, how);
    LastClause(first, init, r, db, how, d, t);
    DenotedShape(first, init + [r], db, how);
  }

  /** The row that is left tells the two readings of a shared name apart. */
  lemma LeftoverTellsApart(order: seq<nat>, columns: seq<Bytes>, right: seq<Bytes>, x: Bytes)
    requires Positions(order, |columns|) && x in columns && x in right
    ensures var rows := [Nulls(|columns|) + Ones(|right|)];
            var d := Denoted(columns + right, OrderAfter(RightJoin, order, |columns|, |right|), rows);
            d.Good() && TellsApart(d, Nulls(|columns|) + Ones(|right|), x)
  {
    var n, m := |columns|, |right|;
    var order', row := OrderAfter(RightJoin, order, n, m), Nulls(n) + Ones(m);
    PositionsAfter(RightJoin, order, n, m);
    RearrangePair(order, columns, right);
    IndexFirst(right, Rearranged(order, columns), x);
    IndexFirst(columns, right, x);
    CellHeld(order', columns + right, x, row);
    CellWritten(columns + right, x, row);
  }

  lemma ShuffleInjective(order: seq<nat>, a: Row, b: Row)
    requires Positions(order, |a|) && |a| == |b| && Shuffle(order)(a) == Shuffle(order)(b)
    ensures a == b
  {
    InBounds(order, a);
    InBounds(order, b);
    forall p: nat | p < |a|
      ensures a[p] == b[p]
    {
      assert p in order;
      var i :| 0 <= i < |order| && order[i] == p;
      assert Rearranged(order, a)[i] == Rearranged(order, b)[i];
    }
  }

  /** Contents that differ differ in the engine's order of columns as well. */
  lemma ShuffledDiffer(order: seq<nat>, a: Row, others: seq<Row>)
    requires Positions(order, |a|) && |others| <= 1 && others != [a] && forall b :: b in others ==> |b| == |a|
    ensures multiset(Mapped([a], Shuffle(order))) != multiset(Mapped(others, Shuffle(order)))
  {
    var g := Shuffle(order);
    if others != [] {
      assert others == [others[0]] && others[0] in others;
      if g(a) == g(others[0]) {
        ShuffleInjective(order, a, others[0]);
      }
    }
    OneOrNone(a, others, g);
  }

  lemma OneOrNone(a: Row, others: seq<Row>, g: Row -> Row)
    requires |others| <= 1 && (others != [] ==> g(others[0]) != g(a))
    ensures multiset(Mapped([a], g)) != multiset(Mapped(others, g))
  {
    assert Mapped([a], g) == [g(a)];
    assert Mapped(others, g) == if others == [] then [] else [g(others[0])];
    assert g(a) in multiset([g(a)]);
  }

  /** A join that keeps every row there is, if the table of a CROSS JOIN holds one. */
  predicate KeepsRows(c: Clause) {
    c.kind.LeftJoin? || c.kind.CrossJoin?
  }

  /** The tables that get a row of ones. */
  function ToFill(r: Clause, onward: seq<Clause>, c: Clause): set<Bytes> {
    {r.table, c.table} + set m | m in onward && m.kind.CrossJoin? :: m.table
  }

  /** The tables all exist, and those that stay empty are others than those that are filled. */
  ghost predicate Fillable(first: Bytes, init: seq<Clause>, r: Clause, onward: seq<Clause>, c: Clause, db: Catalog) {
    && (forall name :: name in TablesOf(first, init) ==> db(name).Some? && name !in ToFill(r, onward, c))
    && (forall m :: m in onward ==> db(m.table).Some? && KeepsRows(m))
    && (forall m :: m in onward && m.kind.LeftJoin? ==> m.table !in ToFill(r, onward, c))
    && db(r.table).Some? && db(c.table).Some?
  }

  lemma {:induction false} FilledColumns(first: Bytes, clauses: seq<Clause>, db: Catalog, full: set<Bytes>)
    ensures TextColumns(first, clauses, Filled(db, full)) == TextColumns(first, clauses, db)
    ensures HeldOrder(first, clauses, Filled(db, full)) == HeldOrder(first, clauses, db)
  {
    if clauses != [] {
      FilledColumns(first, clauses[..|clauses| - 1], db, full);
    }
  }

  /** Both readings give this one row, and looking x up in it tells them apart. */
  ghost predicate ApartAfter(first: Bytes, clauses: seq<Clause>, db: Catalog, x: Bytes, d: Denoted)
    requires FromClauses.Shaped(db)
  {
    && Denote(first, clauses, db, AsHeld) == Some(d) && Denote(first, clauses, db, AsWritten) == Some(d)
    && d.Good() && |d.rows| == 1 && TellsApart(d, d.rows[0], x)
  }

  /** The RIGHT JOIN with a row of ones and no rows before it leaves such a row. */
  lemma ApartAfterRightJoin(first: Bytes, init: seq<Clause>, r: Clause, db: Catalog, x: Bytes) returns (d: Denoted)
    requires FromClauses.Shaped(db) && r.kind.RightJoin?
    requires db(r.table) == Some(Relation(ColumnsIn(db, r.table), [Ones(|ColumnsIn(db, r.table)|)]))
    requires forall name :: name in TablesOf(first, init) ==> db(name).Some? && db(name).value.rows == []
    requires x in ColumnsIn(db, r.table) && x in TextColumns(first, init, db)
    ensures ApartAfter(first, init + [r], db, x, d)
  {
    var columns, right := TextColumns(first, init, db), ColumnsIn(db, r.table);
    RightJoinOfNothing(first, init, r, db, AsHeld);
    RightJoinOfNothing(first, init, r, db, AsWritten);
    LeftoverTellsApart(HeldOrder(first, init, db), columns, right, x);
    assert (init + [r])[..|init|] == init;
    d := Denote(first, init + [r], db, AsHeld).value;
  }

  /** What a join that keeps its rows makes of one row, on the filled tables. */
  lemma KeptRow(d: Denoted, row: Row, t: Relation, c: Clause, how: Lookup)
    requires d.Good() && d.rows == [row] && |row| == |d.columns|
    requires (c.kind.LeftJoin? && t.rows == []) || (c.kind.CrossJoin? && t.rows == [Ones(|t.columns|)])
    ensures var more := if c.kind.LeftJoin? then Nulls(|t.columns|) else Ones(|t.columns|);
            JoinClause(d, t, c, how) ==
            Some(Denoted(d.columns + t.columns, d.order + From(|d.columns|, |t.columns|), [row + more]))
  {
    if c.kind.LeftJoin? {
      KeptByLeftJoin(d, row, t, c, how);
    } else {
      SeenWidth(d, how, row);
      OneRowClause(d, t, c, how, row, Ones(|t.columns|), true);
    }
  }

  lemma KeptByLeftJoin(d: Denoted, row: Row, t: Relation, c: Clause, how: Lookup)
    requires d.Good() && d.rows == [row] && c.kind.LeftJoin? && t.rows == []
    ensures JoinClause(d, t, c, how) ==
            Some(Denoted(d.columns + t.columns, d.order + From(|d.columns|, |t.columns|), [row + Nulls(|t.columns|)]))
  {
    var on := Seen(When(Written(c), Names(d, how), t.columns), See(d, how));
    OneRow(row, MatchesIn(on, []));
    OneRow(row, LeftPad(true, on, |t.columns|, []));
  }

  /** More columns at the end change nothing about a name that is there already. */
  lemma StillApart(d: Denoted, row: Row, x: Bytes, columns: seq<Bytes>, more: Row)
    requires d.Good() && TellsApart(d, row, x) && |more| == |columns|
    ensures var d' := Denoted(d.columns + columns, d.order + From(|d.columns|, |columns|), [row + more]);
            d'.Good() && TellsApart(d', row + more, x)
  {
    StillGood(d, row, columns, more);
    StillHeld(d.order, d.columns, columns, x, row, more);
    StillWritten(d.columns, columns, x, row, more);
  }

  lemma StillGood(d: Denoted, row: Row, columns: seq<Bytes>, more: Row)
    requires d.Good() && |row| == |d.columns| && |more| == |columns|
    ensures Positions(d.order + From(|d.columns|, |columns|), |d.columns + columns|)
    ensures Denoted(d.columns + columns, d.order + From(|d.columns|, |columns|), [row + more]).Good()
  {
    PositionsAfter(CrossJoin, d.order, |d.columns|, |columns|);
  }

  lemma StillHeld(order: seq<nat>, columns: seq<Bytes>, others: seq<Bytes>, x: Bytes, row: Row, more: Row)
    requires Positions(order, |columns|) && |row| == |columns| && |more| == |others|
    requires Positions(order + From(|columns|, |others|), |columns + others|)
    requires CellOf(Scope(Rearranged(order, columns), Rearranged(order, row)), x).Some?
    ensures var order' := order + From(|columns|, |others|);
            CellOf(Scope(Rearranged(order', columns + others), Rearranged(order', row + more)), x) ==
            CellOf(Scope(Rearranged(order, columns), Rearranged(order, row)), x)
  {
    RearrangePair(order, columns, others);
    RearrangePair(order, row, more);
    StillWritten(Rearranged(order, columns), others, x, Rearranged(order, row), more);
  }

  lemma StillWritten(columns: seq<Bytes>, others: seq<Bytes>, x: Bytes, row: Row, more: Row)
    requires |row| == |columns| && |more| == |others| && CellOf(Scope(columns, row), x).Some?
    ensures CellOf(Scope(columns + others, row + more), x) == CellOf(Scope(columns, row), x)
  {
    CellWritten(columns, x, row);
    CellWritten(columns + others, x, row + more);
    IndexFirst(columns, others, x);
  }

  /** A join that keeps its rows, with a table that holds what it should. */
  ghost predicate Ready(db: Catalog, c: Clause) {
    && KeepsRows(c) && db(c.table).Some?
    && var t := db(c.table).value; t.rows == if c.kind.LeftJoin? then [] else [Ones(|t.columns|)]
  }

  lemma ApartAfterKept(first: Bytes, clauses: seq<Clause>, c: Clause, db: Catalog, x: Bytes, d: Denoted)
    returns (d': Denoted)
    requires FromClauses.Shaped(db) && ApartAfter(first, clauses, db, x, d) && Ready(db, c)
    ensures ApartAfter(first, clauses + [c], db, x, d')
  {
    var t, row := db(c.table).value, d.rows[0];
    KeptRow(d, row, t, c, AsHeld);
    KeptRow(d, row, t, c, AsWritten);
    LastClause(first, clauses, c, db, AsHeld, d, t);
    LastClause(first, clauses, c, db, AsWritten, d, t);
    StillApart(d, row, x, t.columns, if c.kind.LeftJoin? then Nulls(|t.columns|) else Ones(|t.columns|));
    d' := JoinClause(d, t, c, AsHeld).value;
  }

  lemma FirstAcross<T>(a: seq<T>, b: seq<T>)
    requires b != []
    ensures a + b == a + [b[0]] + b[1..]
  {
  }

  lemma {:induction false} ApartOnward(
    first: Bytes, clauses: seq<Clause>, onward: seq<Clause>, all: seq<Clause>, db: Catalog, x: Bytes, d: Denoted)
    returns (d': Denoted)
    requires FromClauses.Shaped(db) && ApartAfter(first, clauses, db, x, d) && all == clauses + onward
    requires forall m :: m in onward ==> Ready(db, m)
    ensures ApartAfter(first, all, db, x, d')
    decreases |onward|
  {
    if onward == [] {
      assert all == clauses;
      d' := d;
    } else {
      var e := ApartAfterKept(first, clauses, onward[0], db, x, d);
      FirstAcross(clauses, onward);
      d' := ApartOnward(first, clauses + [onward[0]], onward[1..], all, db, x, e);
    }
  }

  /** The parsed and built plan gives what the text means, up to the order of rows and of the columns. */
  ghost predicate PlanMeansText(first: Bytes, clauses: seq<Clause>, db: Catalog)
    requires FromClauses.Shaped(db)
  {
    var node, text := Build(Tree(first, clauses)), Denote(first, clauses, db, AsWritten);
    node.Some? && (Result(node.value, db).Some? <==> text.Some?)
    && (text.Some? ==> Holds(Result(node.value, db).value, text.value))
  }

  /** With every name in its place, the plan means the text, on all contents. */
  lemma InPlacePlan(first: Bytes, clauses: seq<Clause>, db: Catalog)
    requires FromClauses.Shaped(db) && InPlace(first, clauses, db)
    ensures PlanMeansText(first, clauses, db)
  {
    FromMeansJoins(first, clauses, db);
    InPlaceAgrees(first, clauses, db);
  }

  /** The columns of the clauses that compare: x in the table of r and before it, y in that of c. */
  ghost predicate SharesName(first: Bytes, init: seq<Clause>, r: Clause, c: Clause, db: Catalog, x: Bytes, y: Bytes) {
    && r.kind.RightJoin? && ComparesColumns(c, x, y)
    && x in ColumnsIn(db, r.table) && x in TextColumns(first, init, db) && y in ColumnsIn(db, c.table)
  }

  lemma FilledApart(
    first: Bytes, init: seq<Clause>, r: Clause, onward: seq<Clause>, c: Clause, db: Catalog, x: Bytes, y: Bytes)
    returns (d: Denoted)
    requires Fillable(first, init, r, onward, c, db) && SharesName(first, init, r, c, db, x, y)
    requires FromClauses.Shaped(Filled(db, ToFill(r, onward, c)))
    ensures ApartAfter(first, init + [r] + onward, Filled(db, ToFill(r, onward, c)), x, d)
  {
    var db' := Filled(db, ToFill(r, onward, c));
    FilledColumns(first, init, db, ToFill(r, onward, c));
    d := ApartAfterRightJoin(first, init, r, db', x);
    d := ApartOnward(first, init + [r], onward, init + [r] + onward, db', x, d);
  }

  /** The two readings of the last clause, on such a row and a row of ones. */
  lemma ApartReadings(first: Bytes, clauses: seq<Clause>, c: Clause, db: Catalog, x: Bytes, y: Bytes, d: Denoted)
    requires FromClauses.Shaped(db) && ApartAfter(first, clauses, db, x, d) && ComparesColumns(c, x, y)
    requires db(c.table) == Some(Relation(ColumnsIn(db, c.table), [Ones(|ColumnsIn(db, c.table)|)]))
    requires y in ColumnsIn(db, c.table)
    ensures !PlanMeansText(first, clauses + [c], db)
  {
    var t, row := db(c.table).value, d.rows[0];
    LastClause(first, clauses, c, db, AsHeld, d, t);
    LastClause(first, clauses, c, db, AsWritten, d, t);
    ApartDiffers(d, row, t.columns, c, x, y);
    FromMeansJoins(first, clauses + [c], db);
    DenotedShape(first, clauses + [c], db, AsHeld);
    DenotedShape(first, clauses + [c], db, AsWritten);
    var held := Denote(first, clauses + [c], db, AsHeld).value;
    var text := Denote(first, clauses + [c], db, AsWritten).value;
    var i := HoldsOne(d, row, x);
    HeldIsNotText(held, text, c.kind, row, |t.columns|, i);
  }

  lemma HoldsOne(d: Denoted, row: Row, x: Bytes) returns (i: nat)
    requires d.Good() && TellsApart(d, row, x)
    ensures i < |row| && row[i] == Integer(1)
  {
    CellHeld(d.order, d.columns, x, row);
    i := d.order[IndexOf(Rearranged(d.order, d.columns), x).value];
  }

  /**
   A name shared by the table of a RIGHT JOIN and a table before it, compared with a column of
   its table in a clause that only LEFT and CROSS JOINs separate from the RIGHT JOIN: whatever
   precedes, there are contents of the same tables on which the plan does not mean the text.
   */
  lemma SharedNameDiffers(
    first: Bytes, init: seq<Clause>, r: Clause, onward: seq<Clause>, c: Clause, db: Catalog, x: Bytes, y: Bytes)
    requires Fillable(first, init, r, onward, c, db) && SharesName(first, init, r, c, db, x, y)
    ensures FromClauses.Shaped(Filled(db, ToFill(r, onward, c)))
    ensures !PlanMeansText(first, init + [r] + onward + [c], Filled(db, ToFill(r, onward, c)))
  {
    FilledShaped(db, ToFill(r, onward, c));
    var d := FilledApart(first, init, r, onward, c, db, x, y);
    ApartReadings(first, init + [r] + onward, c, Filled(db, ToFill(r, onward, c)), x, y, d);
  }

  /** A result that holds what the engine finds does not hold what the text means. */
  lemma HeldIsNotText(held: Denoted, text: Denoted, kind: JoinType, row: Row, n: nat, i: nat)
    requires held.Good() && text.Good() && held.columns == text.columns && held.order == text.order
    requires n > 0 && i < |row| && !row[i].Null?
    requires held.rows == [row + Ones(n)] && text.rows == OneRowResult(kind, row, Ones(n), false)
    ensures forall r: Relation :: Holds(r, held) ==> !Holds(r, text)
  {
    ResultsDiffer(kind, row, n, i);
    assert row + Ones(n) in held.rows;
    ShuffledDiffer(text.order, row + Ones(n), text.rows);
  }

  /** The same tables with the same columns, whatever they hold. */
  ghost predicate SameColumns(db: Catalog, db': Catalog) {
    forall name :: (db(name).Some? <==> db'(name).Some?) && ColumnsIn(db, name) == ColumnsIn(db', name)
  }

  lemma {:induction false} InPlaceByColumns(first: Bytes, clauses: seq<Clause>, db: Catalog, db': Catalog)
    requires SameColumns(db, db')
    ensures TextColumns(first, clauses, db) == TextColumns(first, clauses, db')
    ensures HeldOrder(first, clauses, db) == HeldOrder(first, clauses, db')
    ensures InPlace(first, clauses, db) <==> InPlace(first, clauses, db')
  {
    if clauses != [] {
      InPlaceByColumns(first, clauses[..|clauses| - 1], db, db');
    }
  }

  /** More columns at the end leave a name that is there already in its place, or out of it. */
  lemma PlaceKept(order: seq<nat>, columns: seq<Bytes>, more: seq<Bytes>, x: Bytes)
    requires Positions(order, |columns|) && x in columns
    ensures Positions(order + From(|columns|, |more|), |columns + more|)
    ensures SamePlace(order + From(|columns|, |more|), columns + more, x) <==> SamePlace(order, columns, x)
  {
    PositionsAfter(CrossJoin, order, |columns|, |more|);
    RearrangePair(order, columns, more);
    HeldIsThere(order, columns, x);
    IndexFirst(Rearranged(order, columns), more, x);
    IndexFirst(columns, more, x);
  }

  /** x is among the columns so far, and in its place. */
  ghost predicate Placed(first: Bytes, clauses: seq<Clause>, db: Catalog, x: Bytes) {
    x in TextColumns(first, clauses, db) && SamePlace(HeldOrder(first, clauses, db), TextColumns(first, clauses, db), x)
  }

  lemma PlacedKept(first: Bytes, clauses: seq<Clause>, c: Clause, db: Catalog, x: Bytes)
    requires Placed(first, clauses, db, x) && KeepsRows(c)
    ensures Placed(first, clauses + [c], db, x)
  {
    assert (clauses + [c])[..|clauses|] == clauses;
    PlaceKept(HeldOrder(first, clauses, db), TextColumns(first, clauses, db), ColumnsIn(db, c.table), x);
  }

  lemma {:induction false} PlacedOnward(
    first: Bytes, clauses: seq<Clause>, onward: seq<Clause>, all: seq<Clause>, db: Catalog, x: Bytes)
    requires Placed(first, clauses, db, x) && all == clauses + onward && forall m :: m in onward ==> KeepsRows(m)
    ensures Placed(first, all, db, x)
    decreases |onward|
  {
    if onward == [] {
      assert all == clauses;
    } else {
      PlacedKept(first, clauses, onward[0], db, x);
      FirstAcross(clauses, onward);
      PlacedOnward(first, clauses + [onward[0]], onward[1..], all, db, x);
    }
  }

  lemma NextInPlace(first: Bytes, clauses: seq<Clause>, c: Clause, db: Catalog, x: Bytes, y: Bytes)
    requires InPlace(first, clauses, db) && Placed(first, clauses, db, x) && ComparesColumns(c, x, y)
    ensures InPlace(first, clauses + [c], db)
  {
    assert (clauses + [c])[..|clauses|] == clauses;
    assert forall name :: Reads(Written(c).value, name, true) ==> name == x;
  }

  lemma PlacedByRightJoin(first: Bytes, init: seq<Clause>, r: Clause, db: Catalog, x: Bytes)
    requires r.kind.RightJoin? && x in ColumnsIn(db, r.table) && x !in TextColumns(first, init, db)
    ensures Placed(first, init + [r], db, x)
  {
    assert (init + [r])[..|init|] == init;
    PlaceAfterRightJoin(HeldOrder(first, init, db), TextColumns(first, init, db), ColumnsIn(db, r.table), x);
  }

  /** Whether the plan means the text on all contents of the tables. */
  ghost predicate AlwaysMeansText(first: Bytes, clauses: seq<Clause>, db: Catalog) {
    forall db': Catalog :: FromClauses.Shaped(db') && SameColumns(db, db') ==> PlanMeansText(first, clauses, db')
  }

  /**
   A clause that compares a column of the last RIGHT JOIN's table with one of its own, with only
   LEFT and CROSS JOINs in between: the plan means the text, on all contents, exactly if no table
   before the RIGHT JOIN has that name.
   */
  lemma AfterRightJoinExact(
    first: Bytes, init: seq<Clause>, r: Clause, onward: seq<Clause>, c: Clause, db: Catalog, x: Bytes, y: Bytes)
    requires InPlace(first, init + [r] + onward, db) && r.kind.RightJoin? && ComparesColumns(c, x, y)
    requires Fillable(first, init, r, onward, c, db) && x in ColumnsIn(db, r.table) && y in ColumnsIn(db, c.table)
    ensures AlwaysMeansText(first, init + [r] + onward + [c], db) <==> x !in TextColumns(first, init, db)
  {
    if x in TextColumns(first, init, db) {
      SharedNameDiffers(first, init, r, onward, c, db, x, y);
      FilledSameColumns(db, ToFill(r, onward, c));
    } else {
      PlacedByRightJoin(first, init, r, db, x);
      PlacedOnward(first, init + [r], onward, init + [r] + onward, db, x);
      NextInPlace(first, init + [r] + onward, c, db, x, y);
      InPlaceAlways(first, init + [r] + onward + [c], db);
    }
  }

  lemma InPlaceAlways(first: Bytes, clauses: seq<Clause>, db: Catalog)
    requires InPlace(first, clauses, db)
    ensures AlwaysMeansText(first, clauses, db)
  {
    forall db': Catalog | FromClauses.Shaped(db') && SameColumns(db, db')
      ensures PlanMeansText(first, clauses, db')
    {
      InPlaceByColumns(first, clauses, db, db');
      InPlacePlan(first, clauses, db');
    }
  }

  lemma FilledSameColumns(db: Catalog, full: set<Bytes>)
    ensures SameColumns(db, Filled(db, full))
  {
  }

  /** Tables a(x), b(x) and c(y). */
  function ExampleTables(): Catalog {
    name =>
      if name == [97] || name == [98] then Some(Relation([[120]], []))
      else if name == [99] then Some(Relation([[121]], []))
      else None
  }

  /** `FROM a RIGHT JOIN b ON x = x JOIN c ON x = y`, with a row of 1 in b and in c and none in a. */
  lemma SharedNameExample()
    ensures var r := Clause(RightJoin, [98], ColumnReference([120]), ColumnReference([120]));
            var c := Clause(InnerJoin, [99], ColumnReference([120]), ColumnReference([121]));
            var db := Filled(ExampleTables(), {[98], [99]});
            FromClauses.Shaped(db) && !PlanMeansText([97], [r, c], db)
  {
    var r := Clause(RightJoin, [98], ColumnReference([120]), ColumnReference([120]));
    var c := Clause(InnerJoin, [99], ColumnReference([120]), ColumnReference([121]));
    SharedNameDiffers([97], [], r, [], c, ExampleTables(), [120], [121]);
    assert [] + [r] + [] + [c] == [r, c] && ToFill(r, [], c) == {[98], [99]};
  }
}
