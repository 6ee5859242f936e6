/** Predicates over rows (executor/expression.go) and the filter that applies them (executor/filter.go). */
module Expressions {
  import opened ByteStrings
  import opened SqlValues

  datatype Comparison = EqualTo | GreaterThan | LessThan

  datatype Expression =
    | Literal(v: Value)
    | ColumnReference(name: Bytes)
    | Operation(kind: Comparison, left: Expression, right: Expression)
    | FunctionCall(callee: Bytes, argument: Bytes)

  /** `slices.Index` */
  function IndexOf(names: seq<Bytes>, name: Bytes): (r: Option<nat>)
    ensures r.None? <==> name !in names
    ensures r.Some? ==> r.value < |names| && names[r.value] == name && name !in names[..r.value]
  {
    if names == [] then None
    else if names[0] == name then Some(0)
    else match IndexOf(names[1..], name)
      case None => None
      case Some(i) => assert names[..i + 1] == [names[0]] + names[1..][..i]; Some(i + 1)
  }

  /** A row under its column names. */
  datatype Scope = Scope(columns: seq<Bytes>, row: Row) {
    predicate Fits() {
      |columns| == |row|
    }
  }

  /** `evaluateComparison`; None is its error. */
  function EvaluateComparison(kind: Comparison, left: Value, right: Value): Option<Value> {
    if left.Null? || right.Null? then Some(Null)
    else match Compare(left, right)
      case None => None
      case Some(c) =>
        Some(Boolean(match kind case EqualTo => c == 0 case GreaterThan => c > 0 case LessThan => c < 0))
  }

  /** `evaluateExpression`: the right operand is evaluated with the two inputs exchanged. */
  function Evaluate(e: Expression, left: Scope, right: Scope): Option<Value>
    requires left.Fits() && right.Fits()
  {
    match e
    case Literal(v) => Some(v)
    case ColumnReference(name) =>
      (match IndexOf(left.columns, name)
       case None => None
       case Some(i) => Some(left.row[i]))
    case Operation(kind, l, r) =>
      (match (Evaluate(l, left, right), Evaluate(r, right, left))
       case (Some(a), Some(b)) => EvaluateComparison(kind, a, b)
       case _ => None)
    case FunctionCall(_, _) => None
  }

  // ---- What an expression means ----

  /** Place i is the first of that name. */
  predicate FirstOf(columns: seq<Bytes>, name: Bytes, i: nat) {
    i < |columns| && columns[i] == name && forall j :: 0 <= j < i ==> columns[j] != name
  }

  /** The values, of one kind, stand in the relation. */
  predicate Stand(kind: Comparison, v: Value, w: Value) {
    match kind
    case EqualTo => Alike(v, w)
    case GreaterThan => Below(w, v)
    case LessThan => Below(v, w)
  }

  /** The outcome of comparing v with w: unknown with a NULL, and none at all between different kinds. */
  ghost predicate Outcome(kind: Comparison, v: Value, w: Value, r: Value) {
    if v.Null? || w.Null? then r == Null else Kindred(v, w) && r == Boolean(Stand(kind, v, w))
  }

  /** The expression has the value v: a literal its own, a column the cell under the first of its name. */
  ghost predicate Denotes(e: Expression, left: Scope, right: Scope, v: Value)
    requires left.Fits() && right.Fits()
    decreases e
  {
    match e
    case Literal(u) => v == u
    case ColumnReference(name) => exists i: nat :: FirstOf(left.columns, name, i) && v == left.row[i]
    case Operation(kind, l, r) =>
      exists x, y :: Denotes(l, left, right, x) && Denotes(r, right, left, y) && Outcome(kind, x, y, v)
    case FunctionCall(_, _) => false
  }

  lemma ComparisonExact(kind: Comparison, v: Value, w: Value, r: Value)
    ensures EvaluateComparison(kind, v, w) == Some(r) <==> Outcome(kind, v, w, r)
  {
    if !v.Null? && !w.Null? {
      CompareExact(v, w);
    }
  }

  lemma ColumnExact(name: Bytes, left: Scope, right: Scope, v: Value)
    requires left.Fits() && right.Fits()
    ensures Evaluate(ColumnReference(name), left, right) == Some(v) <==> Denotes(ColumnReference(name), left, right, v)
  {
    var i := IndexOf(left.columns, name);
    if i.Some? {
      assert forall j :: 0 <= j < i.value ==> left.columns[..i.value][j] == left.columns[j];
      assert FirstOf(left.columns, name, i.value);
    }
  }

  /** Evaluating an expression gives exactly the value it has, and fails exactly if it has none. */
  lemma {:induction false} EvaluateExact(e: Expression, left: Scope, right: Scope, v: Value)
    requires left.Fits() && right.Fits()
    ensures Evaluate(e, left, right) == Some(v) <==> Denotes(e, left, right, v)
    decreases e
  {
    match e
    case Literal(_) =>
    case ColumnReference(name) => ColumnExact(name, left, right, v);
    case Operation(kind, l, r) =>
      forall x, y
        ensures Evaluate(l, left, right) == Some(x) <==> Denotes(l, left, right, x)
        ensures Evaluate(r, right, left) == Some(y) <==> Denotes(r, right, left, y)
        ensures EvaluateComparison(kind, x, y) == Some(v) <==> Outcome(kind, x, y, v)
      {
        EvaluateExact(l, left, right, x);
        EvaluateExact(r, right, left, y);
        ComparisonExact(kind, x, y, v);
      }
      if Evaluate(e, left, right) == Some(v) {
        var x, y := Evaluate(l, left, right).value, Evaluate(r, right, left).value;
        assert Denotes(l, left, right, x) && Denotes(r, right, left, y) && Outcome(kind, x, y, v);
      }
    case FunctionCall(_, _) =>
  }

  /** True is what the relation holds between, whatever the operands are. */
  lemma TrueComparison(kind: Comparison, l: Expression, r: Expression, a: Scope, b: Scope)
    requires a.Fits() && b.Fits()
    ensures Evaluate(Operation(kind, l, r), a, b) == Some(Boolean(true)) <==>
            exists x, y :: Denotes(l, a, b, x) && Denotes(r, b, a, y) && Kindred(x, y) && Stand(kind, x, y)
  {
    EvaluateExact(Operation(kind, l, r), a, b, Boolean(true));
    forall x, y
      ensures Outcome(kind, x, y, Boolean(true)) <==> Kindred(x, y) && Stand(kind, x, y)
    {
      OutcomeTrue(kind, x, y);
    }
  }

  lemma OutcomeTrue(kind: Comparison, v: Value, w: Value)
    ensures Outcome(kind, v, w, Boolean(true)) <==> Kindred(v, w) && Stand(kind, v, w)
  {
  }

  /** NULL makes every comparison unknown; otherwise exactly one of <, = and > is true, or all three fail. */
  lemma ThreeValued(l: Value, r: Value)
    ensures l.Null? || r.Null? <==> forall kind :: EvaluateComparison(kind, l, r) == Some(Null)
    ensures var eq := EvaluateComparison(EqualTo, l, r);
            var gt, lt := EvaluateComparison(GreaterThan, l, r), EvaluateComparison(LessThan, l, r);
            !l.Null? && !r.Null? ==>
              || (eq == gt == lt == None)
              || (eq == Some(Boolean(true)) && gt == lt == Some(Boolean(false)))
              || (gt == Some(Boolean(true)) && eq == lt == Some(Boolean(false)))
              || (lt == Some(Boolean(true)) && eq == gt == Some(Boolean(false)))
  {
    if !l.Null? && !r.Null? {
      assert EvaluateComparison(EqualTo, l, r) != Some(Null);
    }
  }

  function Mirrored(kind: Comparison): Comparison {
    match kind
    case EqualTo => EqualTo
    case GreaterThan => LessThan
    case LessThan => GreaterThan
  }

  /** Exchanging the operands and the inputs, and mirroring the comparison, changes nothing, errors included. */
  lemma ExchangeSides(kind: Comparison, l: Expression, r: Expression, a: Scope, b: Scope)
    requires a.Fits() && b.Fits()
    ensures Evaluate(Operation(kind, l, r), a, b) == Evaluate(Operation(Mirrored(kind), r, l), b, a)
  {
    var x, y := Evaluate(l, a, b), Evaluate(r, b, a);
    if x.Some? && y.Some? {
      CompareSwaps(x.value, y.value);
    }
  }

  /** The predicate is true of the row; unknown and error are not true. */
  predicate Satisfies(e: Expression, s: Scope)
    requires s.Fits()
  {
    Evaluate(e, s, s) == Some(Boolean(true))
  }

  predicate AllFit(columns: seq<Bytes>, rows: seq<Row>) {
    forall i :: 0 <= i < |rows| ==> |rows[i]| == |columns|
  }

  /** The rows that satisfy the predicate, in order. */
  function Selected(e: Expression, columns: seq<Bytes>, rows: seq<Row>): seq<Row>
    requires AllFit(columns, rows)
  {
    if rows == [] then []
    else
      var last := |rows| - 1;
      Selected(e, columns, rows[..last]) + if Satisfies(e, Scope(columns, rows[last])) then [rows[last]] else []
  }

  ghost predicate Fails(e: Expression, columns: seq<Bytes>, rows: seq<Row>)
    requires AllFit(columns, rows)
  {
    exists i :: 0 <= i < |rows| && Evaluate(e, Scope(columns, rows[i]), Scope(columns, rows[i])).None?
  }

  /** The marked rows, in order. */
  ghost function Picked(rows: seq<Row>, marks: seq<bool>): seq<Row>
    requires |rows| == |marks|
  {
    if rows == [] then []
    else
      var last := |rows| - 1;
      Picked(rows[..last], marks[..last]) + if marks[last] then [rows[last]] else []
  }

  /** from lists the marked positions, in order. */
  ghost predicate Marked(marks: seq<bool>, from: seq<nat>) {
    && (forall j :: 0 <= j < |from| ==> from[j] < |marks|)
    && (forall j, k :: 0 <= j < k < |from| ==> from[j] < from[k])
    && (forall i: nat :: i < |marks| ==> (i in from <==> marks[i]))
  }

  lemma MarkedStep(marks: seq<bool>, from: seq<nat>, mark: bool)
    requires Marked(marks, from)
    ensures Marked(marks + [mark], if mark then from + [|marks|] else from)
  {
    assert forall i :: i in from ==> i < |marks|;
  }

  /** The marked positions. */
  ghost function Places(marks: seq<bool>): seq<nat> {
    if marks == [] then []
    else
      var last := |marks| - 1;
      if marks[last] then Places(marks[..last]) + [last] else Places(marks[..last])
  }

  lemma {:induction false} PlacesMarked(marks: seq<bool>)
    ensures Marked(marks, Places(marks))
  {
    if marks != [] {
      var last := |marks| - 1;
      PlacesMarked(marks[..last]);
      MarkedStep(marks[..last], Places(marks[..last]), marks[last]);
      assert marks == marks[..last] + [marks[last]];
    }
  }

  lemma {:induction false} PickedAt(rows: seq<Row>, marks: seq<bool>)
    requires |rows| == |marks|
    ensures |Picked(rows, marks)| == |Places(marks)|
    ensures forall j :: 0 <= j < |Places(marks)| ==>
            Places(marks)[j] < |rows| && Picked(rows, marks)[j] == rows[Places(marks)[j]]
  {
    if rows != [] {
      PickedAt(rows[..|rows| - 1], marks[..|rows| - 1]);
    }
  }

  /** Which rows satisfy the predicate. */
  ghost function Marks(e: Expression, columns: seq<Bytes>, rows: seq<Row>): (marks: seq<bool>)
    requires AllFit(columns, rows)
    ensures |marks| == |rows| && forall i :: 0 <= i < |rows| ==> marks[i] == Satisfies(e, Scope(columns, rows[i]))
  {
    seq(|rows|, i requires 0 <= i < |rows| => Satisfies(e, Scope(columns, rows[i])))
  }

  lemma {:induction false} SelectedIsPicked(e: Expression, columns: seq<Bytes>, rows: seq<Row>)
    requires AllFit(columns, rows)
    ensures Selected(e, columns, rows) == Picked(rows, Marks(e, columns, rows))
  {
    if rows != [] {
      var last := |rows| - 1;
      SelectedIsPicked(e, columns, rows[..last]);
      assert Marks(e, columns, rows)[..last] == Marks(e, columns, rows[..last]);
    }
  }

  /** The selection is a subsequence: `from` says where each of its rows came from, in order. */
  lemma SelectedFrom(e: Expression, columns: seq<Bytes>, rows: seq<Row>) returns (from: seq<nat>)
    requires AllFit(columns, rows)
    ensures Marked(Marks(e, columns, rows), from) && |from| == |Selected(e, columns, rows)|
    ensures forall j :: 0 <= j < |from| ==> from[j] < |rows| && Selected(e, columns, rows)[j] == rows[from[j]]
  {
    SelectedIsPicked(e, columns, rows);
    PickedAt(rows, Marks(e, columns, rows));
    PlacesMarked(Marks(e, columns, rows));
    from := Places(Marks(e, columns, rows));
  }

  // ---- What the filter keeps ----

  /** The predicate is true of the row. */
  ghost predicate True(e: Expression, columns: seq<Bytes>, row: Row) {
    |columns| == |row| && Denotes(e, Scope(columns, row), Scope(columns, row), Boolean(true))
  }

  /** The predicate has no value on the row. */
  ghost predicate Meaningless(e: Expression, columns: seq<Bytes>, row: Row) {
    |columns| == |row| && forall v :: !Denotes(e, Scope(columns, row), Scope(columns, row), v)
  }

  /** kept are the rows of the places in `from`, which are in order and all the wanted ones. */
  ghost predicate KeptFrom(rows: seq<Row>, wanted: seq<bool>, kept: seq<Row>, from: seq<nat>) {
    && |wanted| == |rows| && Marked(wanted, from) && |from| == |kept|
    && forall j :: 0 <= j < |from| ==> from[j] < |rows| && kept[j] == rows[from[j]]
  }

  /** The wanted rows, in order. */
  ghost predicate Keeps(rows: seq<Row>, wanted: seq<bool>, kept: seq<Row>) {
    exists from :: KeptFrom(rows, wanted, kept, from)
  }

  ghost predicate TrueOf(e: Expression, columns: seq<Bytes>, rows: seq<Row>, wanted: seq<bool>) {
    |wanted| == |rows| && forall i :: 0 <= i < |rows| ==> (wanted[i] <==> True(e, columns, rows[i]))
  }

  lemma SelectedKeeps(e: Expression, columns: seq<Bytes>, rows: seq<Row>, wanted: seq<bool>)
    requires AllFit(columns, rows) && TrueOf(e, columns, rows, wanted)
    ensures Keeps(rows, wanted, Selected(e, columns, rows))
  {
    var marks := Marks(e, columns, rows);
    forall i | 0 <= i < |rows|
      ensures marks[i] == wanted[i]
    {
      EvaluateExact(e, Scope(columns, rows[i]), Scope(columns, rows[i]), Boolean(true));
    }
    assert marks == wanted;
    var from := SelectedFrom(e, columns, rows);
    assert KeptFrom(rows, wanted, Selected(e, columns, rows), from);
  }

  lemma EvaluateFails(e: Expression, columns: seq<Bytes>, row: Row)
    requires |columns| == |row|
    ensures Evaluate(e, Scope(columns, row), Scope(columns, row)).None? <==> Meaningless(e, columns, row)
  {
    var s := Scope(columns, row);
    forall v
      ensures Evaluate(e, s, s) == Some(v) <==> Denotes(e, s, s, v)
    {
      EvaluateExact(e, s, s, v);
    }
    if Evaluate(e, s, s).Some? {
      assert Denotes(e, s, s, Evaluate(e, s, s).value);
    }
  }

  lemma FailsExact(e: Expression, columns: seq<Bytes>, rows: seq<Row>)
    requires AllFit(columns, rows)
    ensures Fails(e, columns, rows) <==> exists i :: 0 <= i < |rows| && Meaningless(e, columns, rows[i])
  {
    forall i | 0 <= i < |rows|
      ensures Evaluate(e, Scope(columns, rows[i]), Scope(columns, rows[i])).None? <==> Meaningless(e, columns, rows[i])
    {
      EvaluateFails(e, columns, rows[i]);
    }
  }

  /** `column = literal`, or with another comparison. */
  predicate ComparesWithLiteral(e: Expression) {
    e.Operation? && e.left.ColumnReference? && e.right.Literal?
  }

  /** Neither the cell nor the literal is NULL, and they stand in the relation. */
  predicate CellStands(kind: Comparison, cell: Value, v: Value) {
    !cell.Null? && !v.Null? && Kindred(cell, v) && Stand(kind, cell, v)
  }

  ghost predicate StandsOf(rows: seq<Row>, kind: Comparison, c: nat, v: Value, wanted: seq<bool>) {
    && |wanted| == |rows|
    && forall i :: 0 <= i < |rows| ==> c < |rows[i]| && (wanted[i] <==> CellStands(kind, rows[i][c], v))
  }

  lemma CellDecides(e: Expression, columns: seq<Bytes>, row: Row, c: nat)
    requires ComparesWithLiteral(e) && |columns| == |row| && FirstOf(columns, e.left.name, c)
    ensures True(e, columns, row) <==> CellStands(e.kind, row[c], e.right.v)
  {
    var s := Scope(columns, row);
    TrueComparison(e.kind, e.left, e.right, s, s);
    EvaluateExact(e, s, s, Boolean(true));
    assert Denotes(e.left, s, s, row[c]) && Denotes(e.right, s, s, e.right.v);
    assert forall i :: FirstOf(columns, e.left.name, i) ==> i == c;
  }

  lemma CellsDecide(e: Expression, columns: seq<Bytes>, rows: seq<Row>, c: nat, wanted: seq<bool>)
    requires ComparesWithLiteral(e) && AllFit(columns, rows) && FirstOf(columns, e.left.name, c)
    requires StandsOf(rows, e.kind, c, e.right.v, wanted)
    ensures TrueOf(e, columns, rows, wanted)
  {
    forall i | 0 <= i < |rows|
      ensures wanted[i] <==> True(e, columns, rows[i])
    {
      CellDecides(e, columns, rows[i], c);
    }
  }

  /** It calls a function, or names a column that does not exist. */
  predicate Unanswerable(e: Expression, columns: seq<Bytes>) {
    match e
    case Literal(_) => false
    case ColumnReference(name) => name !in columns
    case Operation(_, l, r) => Unanswerable(l, columns) || Unanswerable(r, columns)
    case FunctionCall(_, _) => true
  }

  lemma {:induction false} UnanswerableHasNone(e: Expression, s: Scope, v: Value)
    requires s.Fits() && Unanswerable(e, s.columns)
    ensures !Denotes(e, s, s, v)
    decreases e
  {
    if e.Operation? {
      forall x, y
        ensures !(Denotes(e.left, s, s, x) && Denotes(e.right, s, s, y))
      {
        if Unanswerable(e.left, s.columns) {
          UnanswerableHasNone(e.left, s, x);
        } else {
          UnanswerableHasNone(e.right, s, y);
        }
      }
    }
  }

  lemma UnanswerableFails(e: Expression, columns: seq<Bytes>, rows: seq<Row>)
    requires AllFit(columns, rows) && rows != [] && Unanswerable(e, columns)
    ensures Fails(e, columns, rows)
  {
    FailsExact(e, columns, rows);
    forall v
      ensures !Denotes(e, Scope(columns, rows[0]), Scope(columns, rows[0]), v)
    {
      UnanswerableHasNone(e, Scope(columns, rows[0]), v);
    }
    assert Meaningless(e, columns, rows[0]);
  }

  /** What the filter's outcome is, in terms of what the predicate means. */
  lemma FilterMeans(e: Expression, columns: seq<Bytes>, rows: seq<Row>)
    requires AllFit(columns, rows)
    ensures Fails(e, columns, rows) <==> exists i :: 0 <= i < |rows| && Meaningless(e, columns, rows[i])
    ensures rows != [] && Unanswerable(e, columns) ==> Fails(e, columns, rows)
    ensures forall wanted :: TrueOf(e, columns, rows, wanted) ==> Keeps(rows, wanted, Selected(e, columns, rows))
    ensures forall c: nat, wanted ::
              ComparesWithLiteral(e) && FirstOf(columns, e.left.name, c)
              && StandsOf(rows, e.kind, c, e.right.v, wanted) ==>
                Keeps(rows, wanted, Selected(e, columns, rows))
  {
    FailsExact(e, columns, rows);
    if rows != [] && Unanswerable(e, columns) {
      UnanswerableFails(e, columns, rows);
    }
    forall wanted | TrueOf(e, columns, rows, wanted)
      ensures Keeps(rows, wanted, Selected(e, columns, rows))
    {
      SelectedKeeps(e, columns, rows, wanted);
    }
    forall c: nat, wanted | ComparesWithLiteral(e) && FirstOf(columns, e.left.name, c)
                            && StandsOf(rows, e.kind, c, e.right.v, wanted)
      ensures Keeps(rows, wanted, Selected(e, columns, rows))
    {
      CellsDecide(e, columns, rows, c, wanted);
    }
  }

  /**
   `FilterExecutor.Execute`; None is an error.  It keeps, in order, exactly the rows of which the
   predicate is true: of `column = literal`, those whose cell stands in that relation.
   */
  method Filter(e: Expression, columns: seq<Bytes>, rows: seq<Row>) returns (kept: Option<seq<Row>>)
    requires AllFit(columns, rows)
    ensures kept.None? <==> Fails(e, columns, rows)
    ensures kept.None? <==> exists i :: 0 <= i < |rows| && Meaningless(e, columns, rows[i])
    ensures rows != [] && Unanswerable(e, columns) ==> kept.None?
    ensures kept.Some? ==> kept.value == Selected(e, columns, rows)
    ensures forall wanted :: kept.Some? && TrueOf(e, columns, rows, wanted) ==> Keeps(rows, wanted, kept.value)
    ensures forall c: nat, wanted ::
              kept.Some? && ComparesWithLiteral(e) && FirstOf(columns, e.left.name, c)
              && StandsOf(rows, e.kind, c, e.right.v, wanted) ==>
                Keeps(rows, wanted, kept.value)
  {
    FilterMeans(e, columns, rows);
    var out: seq<Row> := [];
    for i := 0 to |rows|
      invariant out == Selected(e, columns, rows[..i])
      invariant forall j :: 0 <= j < i ==> Evaluate(e, Scope(columns, rows[j]), Scope(columns, rows[j])).Some?
    {
      var s := Scope(columns, rows[i]);
      var value := Evaluate(e, s, s);
      if value.None? {
        return None;
      }
      assert rows[..i + 1][..i] == rows[..i];
      if value == Some(Boolean(true)) {
        out := out + [rows[i]];
      }
    }
    assert rows[..|rows|] == rows;
    kept := Some(out);
  }
}
