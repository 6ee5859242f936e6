/** A FROM clause means the joins of SQL, one after another, whatever the parser and the planner exchange. */
module FromMeanings {
  import opened ByteStrings
  import opened SqlValues
  import opened Expressions
  import opened Bags
  import opened Joins
  import opened FromClauses

  /** Columns and rows in the order of the query's text; `order` lists the positions as the engine holds them. */
  datatype Denoted = Denoted(columns: seq<Bytes>, order: seq<nat>, rows: seq<Row>) {
    ghost predicate Good() {
      Positions(order, |columns|) && forall row :: row in rows ==> |row| == |columns|
    }
  }

  /** In which order an ON operand looks a column up: that of the engine, or that of the text. */
  datatype Lookup = AsHeld | AsWritten

  function Names(d: Denoted, how: Lookup): seq<Bytes>
    requires forall i :: 0 <= i < |d.order| ==> d.order[i] < |d.columns|
  {
    if how.AsHeld? then Rearranged(d.order, d.columns) else d.columns
  }

  function See(d: Denoted, how: Lookup): Row -> Row {
    if how.AsHeld? then Shuffle(d.order) else (row => row)
  }

  function Seen(on: Condition, see: Row -> Row): Condition {
    (a, b) => on(see(a), b)
  }

  function OrderAfter(kind: JoinType, order: seq<nat>, n: nat, m: nat): seq<nat> {
    if kind.RightJoin? then From(n, m) + order else order + From(n, m)
  }

  /** One clause: the SQL join of what is there with the next table, on the condition as written. */
  ghost function JoinClause(d: Denoted, t: Relation, c: Clause, how: Lookup): Option<Denoted>
    requires d.Good()
  {
    var names, see := Names(d, how), See(d, how);
    if SomePairFails(Written(c), names, t.columns, Mapped(d.rows, see), t.rows) then None
    else
      var on := Seen(When(Written(c), names, t.columns), see);
      Some(Denoted(d.columns + t.columns, OrderAfter(c.kind, d.order, |d.columns|, |t.columns|),
                   SqlJoin(c.kind, on, d.rows, |d.columns|, t.rows, |t.columns|)))
  }

  lemma {:induction false} Widths(s: seq<Row>, f: Row -> seq<Row>, w: nat)
    requires forall x, r :: x in s && r in f(x) ==> |r| == w
    ensures forall r :: r in FlatMap(s, f) ==> |r| == w
  {
    if s != [] {
      Widths(s[..|s| - 1], f, w);
    }
  }

  lemma SqlJoinWidth(kind: JoinType, on: Condition, rows: seq<Row>, v: nat, bs: seq<Row>, w: nat)
    requires (forall a :: a in rows ==> |a| == v) && (forall b :: b in bs ==> |b| == w)
    ensures forall r :: r in SqlJoin(kind, on, rows, v, bs, w) ==> |r| == v + w
  {
    forall a | a in rows
      ensures forall r :: r in MatchesIn(on, bs)(a) ==> |r| == v + w
    {
      MatchWidth(on, a, bs, w);
    }
    Widths(rows, MatchesIn(on, bs), v + w);
    Widths(rows, LeftPad(true, on, w, bs), v + w);
    Widths(bs, RightPad(on, v, rows), v + w);
  }

  lemma JoinClauseGood(d: Denoted, t: Relation, c: Clause, how: Lookup)
    requires d.Good() && t.Shaped() && JoinClause(d, t, c, how).Some?
    ensures JoinClause(d, t, c, how).value.Good()
  {
    var on := Seen(When(Written(c), Names(d, how), t.columns), See(d, how));
    var n, m := |d.columns|, |t.columns|;
    var r := JoinClause(d, t, c, how).value;
    assert r.rows == SqlJoin(c.kind, on, d.rows, n, t.rows, m) && |r.columns| == n + m;
    assert forall b :: b in t.rows ==> |b| == m;
    SqlJoinWidth(c.kind, on, d.rows, n, t.rows, m);
    PositionsAfter(c.kind, d.order, n, m);
  }

  lemma PositionsAfter(kind: JoinType, order: seq<nat>, n: nat, m: nat)
    requires Positions(order, n)
    ensures Positions(OrderAfter(kind, order, n, m), n + m)
  {
    var after := OrderAfter(kind, order, n, m);
    forall p: nat | p < n + m
      ensures p in after
    {
      assert n <= p ==> From(n, m)[p - n] == p;
    }
  }

  ghost function Denote(first: Bytes, clauses: seq<Clause>, db: Catalog, how: Lookup): (r: Option<Denoted>)
    requires FromClauses.Shaped(db)
    ensures r.Some? ==> r.value.Good()
  {
    if clauses == [] then
      match db(first)
      case None => None
      case Some(t) => Identity(t); Some(Denoted(t.columns, From(0, |t.columns|), t.rows))
    else
      var c := clauses[|clauses| - 1];
      match (Denote(first, clauses[..|clauses| - 1], db, how), db(c.table))
      case (Some(d), Some(t)) =>
        var r := JoinClause(d, t, c, how);
        assert r.Some? ==> r.value.Good() by { if r.Some? { JoinClauseGood(d, t, c, how); } }
        r
      case _ => None
  }

  /** The relation is the denoted one: its columns in the held order, its rows in any order. */
  ghost predicate Holds(r: Relation, d: Denoted)
    requires d.Good()
  {
    r.columns == Rearranged(d.order, d.columns) && multiset(r.rows) == multiset(Mapped(d.rows, Shuffle(d.order)))
  }

  lemma SameMembers(r: Relation, d: Denoted)
    requires d.Good() && Holds(r, d)
    ensures forall x :: x in r.rows <==> x in Mapped(d.rows, Shuffle(d.order))
  {
    assert forall x :: x in r.rows <==> x in multiset(r.rows);
  }

  /** CROSS, INNER and LEFT JOIN clauses. */
  lemma LeftwardClause(l: Relation, d: Denoted, t: Relation, c: Clause)
    requires d.Good() && Holds(l, d) && t.Shaped() && !c.kind.RightJoin?
    ensures SomePairFails(Written(c), l.columns, t.columns, l.rows, t.rows) <==> JoinClause(d, t, c, AsHeld).None?
    ensures JoinClause(d, t, c, AsHeld).Some? ==>
              JoinClause(d, t, c, AsHeld).value.Good() &&
              Holds(Relation(l.columns + t.columns,
                JoinRows(When(Written(c), l.columns, t.columns), c.kind.LeftJoin?, |t.columns|, l.rows, t.rows)),
                    JoinClause(d, t, c, AsHeld).value)
  {
    SameMembers(l, d);
    if JoinClause(d, t, c, AsHeld).Some? {
      JoinClauseGood(d, t, c, AsHeld);
      var n, m := |d.columns|, |t.columns|;
      var h, g := Shuffle(d.order), Shuffle(OrderAfter(c.kind, d.order, n, m));
      var held := When(Written(c), l.columns, t.columns);
      ShuffleLifts(d, t, c.kind);
      LeftwardJoin(h, g, d.rows, l.rows, t.rows, m, Seen(held, h), held, c.kind.LeftJoin?);
      RearrangePair(d.order, d.columns, t.columns);
      LeftwardParts(c.kind, Seen(held, h), d.rows, n, t.rows, m, g);
    }
  }

  lemma ShuffleLifts(d: Denoted, t: Relation, kind: JoinType)
    requires d.Good() && t.Shaped() && !kind.RightJoin?
    ensures var n, m := |d.columns|, |t.columns|;
            Lifts(Shuffle(d.order), Shuffle(OrderAfter(kind, d.order, n, m)), d.rows, t.rows, m)
  {
    var n, m := |d.columns|, |t.columns|;
    var h, g := Shuffle(d.order), Shuffle(OrderAfter(kind, d.order, n, m));
    forall a, b | a in d.rows && (b in t.rows || b == Nulls(m))
      ensures g(a + b) == h(a) + b
    {
      ShufflePair(d.order, a, b);
    }
  }

  lemma LeftwardParts(kind: JoinType, on: Condition, rows: seq<Row>, n: nat, bs: seq<Row>, m: nat, g: Row -> Row)
    requires !kind.RightJoin?
    ensures multiset(Mapped(SqlJoin(kind, on, rows, n, bs, m), g)) ==
            multiset(Mapped(FlatMap(rows, MatchesIn(on, bs)), g)) +
              multiset(Mapped(FlatMap(rows, LeftPad(kind.LeftJoin?, on, m, bs)), g))
  {
    if !kind.LeftJoin? {
      NoResults(rows, LeftPad(false, on, m, bs));
    }
    MappedConcat(FlatMap(rows, MatchesIn(on, bs)), FlatMap(rows, LeftPad(kind.LeftJoin?, on, m, bs)), g);
  }

  /** Exchanging the operands and the inputs changes neither the outcome of a pair nor its failing. */
  lemma JudgeExchanged(c: Clause, a: Scope, b: Scope)
    requires a.Fits() && b.Fits() && c.kind.RightJoin?
    ensures Judge(Parsed(c), b, a) == Judge(Written(c), a, b)
  {
    ExchangeSides(EqualTo, c.left, c.right, a, b);
  }

  lemma FailsExchanged(c: Clause, left: seq<Bytes>, right: seq<Bytes>, rows: seq<Row>, bs: seq<Row>)
    requires c.kind.RightJoin?
    ensures SomePairFails(Parsed(c), right, left, bs, rows) <==> SomePairFails(Written(c), left, right, rows, bs)
  {
    forall a, b
      ensures PairFails(Parsed(c), right, left, b, a) <==> PairFails(Written(c), left, right, a, b)
    {
      if |left| == |a| && |right| == |b| {
        JudgeExchanged(c, Scope(left, a), Scope(right, b));
      }
    }
    if SomePairFails(Parsed(c), right, left, bs, rows) {
      var b :| b in bs && RowFails(Parsed(c), right, left, b, rows);
      var a :| a in rows && PairFails(Parsed(c), right, left, b, a);
      assert RowFails(Written(c), left, right, a, bs);
    }
    if SomePairFails(Written(c), left, right, rows, bs) {
      var a :| a in rows && RowFails(Written(c), left, right, a, bs);
      var b :| b in bs && PairFails(Written(c), left, right, a, b);
      assert PairFails(Parsed(c), right, left, b, a);
      assert RowFails(Parsed(c), right, left, b, rows);
    }
  }

  lemma WhenExchanged(c: Clause, left: seq<Bytes>, right: seq<Bytes>, a: Row, b: Row)
    requires c.kind.RightJoin?
    ensures When(Parsed(c), right, left)(b, a) == When(Written(c), left, right)(a, b)
  {
    if |left| == |a| && |right| == |b| {
      JudgeExchanged(c, Scope(left, a), Scope(right, b));
    }
  }

  /** Permuting the rows of one side does not change whether some pair fails. */
  lemma FailsByMembers(
    p: Option<Expression>, left: seq<Bytes>, right: seq<Bytes>, rows: seq<Row>, others: seq<Row>, bs: seq<Row>)
    requires forall x :: x in rows <==> x in others
    ensures SomePairFails(p, left, right, rows, bs) <==> SomePairFails(p, left, right, others, bs)
  {
  }

  /** RIGHT JOIN clauses: parsed with exchanged operands and run with exchanged inputs. */
  lemma RightwardClause(l: Relation, d: Denoted, t: Relation, c: Clause)
    requires d.Good() && Holds(l, d) && t.Shaped() && c.kind.RightJoin?
    ensures SomePairFails(Parsed(c), t.columns, l.columns, t.rows, l.rows) <==> JoinClause(d, t, c, AsHeld).None?
    ensures JoinClause(d, t, c, AsHeld).Some? ==>
              JoinClause(d, t, c, AsHeld).value.Good() &&
              Holds(Relation(t.columns + l.columns,
                JoinRows(When(Parsed(c), t.columns, l.columns), true, |l.columns|, t.rows, l.rows)),
                    JoinClause(d, t, c, AsHeld).value)
  {
    SameMembers(l, d);
    FailsExchanged(c, l.columns, t.columns, l.rows, t.rows);
    FailsByMembers(Written(c), l.columns, t.columns, l.rows, Mapped(d.rows, Shuffle(d.order)), t.rows);
    if JoinClause(d, t, c, AsHeld).Some? {
      JoinClauseGood(d, t, c, AsHeld);
      RightwardRows(l, d, t, c);
      RearrangePair(d.order, d.columns, t.columns);
    }
  }

  lemma RightwardRows(l: Relation, d: Denoted, t: Relation, c: Clause)
    requires d.Good() && Holds(l, d) && t.Shaped() && c.kind.RightJoin?
    ensures var on := Seen(When(Written(c), l.columns, t.columns), Shuffle(d.order));
            var g := Shuffle(OrderAfter(c.kind, d.order, |d.columns|, |t.columns|));
            multiset(JoinRows(When(Parsed(c), t.columns, l.columns), true, |l.columns|, t.rows, l.rows)) ==
            multiset(Mapped(SqlJoin(c.kind, on, d.rows, |d.columns|, t.rows, |t.columns|), g))
  {
    var n, m := |d.columns|, |t.columns|;
    assert |l.columns| == n && c.kind == RightJoin;
    var h, g := Shuffle(d.order), Shuffle(OrderAfter(RightJoin, d.order, n, m));
    var held, on := When(Parsed(c), t.columns, l.columns), Seen(When(Written(c), l.columns, t.columns), h);
    FlipsColumns(d, t);
    FlipsCondition(h, d.rows, t.rows, c, l.columns, t.columns);
    RightwardParts(on, d.rows, n, t.rows, m, g);
    RightwardJoin(h, g, d.rows, n, l.rows, t.rows, on, held);
  }

  lemma RightwardParts(on: Condition, rows: seq<Row>, n: nat, bs: seq<Row>, m: nat, g: Row -> Row)
    ensures multiset(Mapped(SqlJoin(RightJoin, on, rows, n, bs, m), g)) ==
            multiset(Mapped(FlatMap(rows, MatchesIn(on, bs)), g)) +
              multiset(Mapped(FlatMap(bs, RightPad(on, n, rows)), g))
  {
    MappedConcat(FlatMap(rows, MatchesIn(on, bs)), FlatMap(bs, RightPad(on, n, rows)), g);
  }

  lemma FlipsColumns(d: Denoted, t: Relation)
    requires d.Good() && t.Shaped()
    ensures var after := OrderAfter(RightJoin, d.order, |d.columns|, |t.columns|);
            Flips(Shuffle(d.order), Shuffle(after), d.rows, |d.columns|, t.rows)
  {
    var n, m := |d.columns|, |t.columns|;
    var h, g := Shuffle(d.order), Shuffle(From(n, m) + d.order);
    forall a, b | a in d.rows && b in t.rows
      ensures g(a + b) == b + h(a)
    {
      ShufflePair(d.order, a, b);
    }
    ShuffleNulls(d.order, n);
    forall b | b in t.rows
      ensures g(Nulls(n) + b) == b + Nulls(n)
    {
      ShufflePair(d.order, Nulls(n), b);
    }
  }

  lemma FlipsCondition(h: Row -> Row, rows: seq<Row>, bs: seq<Row>, c: Clause, left: seq<Bytes>, right: seq<Bytes>)
    requires c.kind.RightJoin?
    ensures FlippedOn(h, rows, bs, Seen(When(Written(c), left, right), h), When(Parsed(c), right, left))
  {
    forall a, b | a in rows && b in bs
      ensures When(Parsed(c), right, left)(b, h(a)) == Seen(When(Written(c), left, right), h)(a, b)
    {
      WhenExchanged(c, left, right, h(a), b);
    }
  }

  /** Every parsed FROM clause can be planned. */
  lemma {:induction false} TreeBuilds(first: Bytes, clauses: seq<Clause>)
    ensures Build(Tree(first, clauses)).Some?
  {
    if clauses != [] {
      TreeBuilds(first, clauses[..|clauses| - 1]);
    }
  }

  /**
   For every FROM clause and every contents: the plan fails exactly when a table is missing
   or some ON condition cannot be evaluated; otherwise its rows are those of the SQL joins
   as written, in the engine's order of columns.
   */
  lemma {:induction false} FromMeansJoins(first: Bytes, clauses: seq<Clause>, db: Catalog)
    requires FromClauses.Shaped(db)
    ensures Build(Tree(first, clauses)).Some?
    ensures var r, d := Result(Build(Tree(first, clauses)).value, db), Denote(first, clauses, db, AsHeld);
            (r.Some? <==> d.Some?) && (r.Some? ==> Holds(r.value, d.value))
  {
    TreeBuilds(first, clauses);
    if clauses == [] {
      if db(first).Some? {
        Identity(db(first).value);
      }
    } else {
      var init, c := clauses[..|clauses| - 1], clauses[|clauses| - 1];
      TreeBuilds(first, init);
      FromMeansJoins(first, init, db);
      var l, d := Result(Build(Tree(first, init)).value, db), Denote(first, init, db, AsHeld);
      if l.Some? && db(c.table).Some? {
        if c.kind.RightJoin? {
          RightwardClause(l.value, d.value, db(c.table).value, c);
        } else {
          LeftwardClause(l.value, d.value, db(c.table).value, c);
        }
      }
    }
  }

  lemma Identity(t: Relation)
    requires t.Shaped()
    ensures var d := Denoted(t.columns, From(0, |t.columns|), t.rows); d.Good() && Holds(t, d)
  {
    var order := From(0, |t.columns|);
    forall p: nat | p < |order|
      ensures p in order
    {
      assert order[p] == p;
    }
    assert Rearranged(order, t.columns) == t.columns;
    forall i | 0 <= i < |t.rows|
      ensures Shuffle(order)(t.rows[i]) == t.rows[i]
    {
      InBounds(order, t.rows[i]);
    }
    assert Mapped(t.rows, Shuffle(order)) == t.rows;
  }
}
