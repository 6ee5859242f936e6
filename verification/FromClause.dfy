/** FROM clauses: parsed with RIGHT JOIN operands exchanged, planned with its inputs exchanged, run as nested loops. */
module FromClauses {
  import opened ByteStrings
  import opened SqlValues
  import opened Expressions
  import opened Joins

  /** `[kind] JOIN table ON left = right`; a CROSS JOIN has no ON, and its operands play no part. */
  datatype Clause = Clause(kind: JoinType, table: Bytes, left: Expression, right: Expression)

  datatype FromItem =
    | TableItem(name: Bytes)
    | JoinItem(left: FromItem, right: FromItem, kind: JoinType, on: Option<Expression>)

  datatype Node =
    | ScanNode(name: Bytes)
    | JoinNode(left: Node, right: Node, on: Option<Expression>, outer: bool)

  // ---- Parsing and planning ----

  /** The condition as written. */
  function Written(c: Clause): Option<Expression> {
    if c.kind.CrossJoin? then None else Some(Operation(EqualTo, c.left, c.right))
  }

  /** The condition as parsed: a RIGHT JOIN has its operands exchanged. */
  function Parsed(c: Clause): Option<Expression> {
    if c.kind.RightJoin? then Some(Operation(EqualTo, c.right, c.left)) else Written(c)
  }

  function Tree(first: Bytes, clauses: seq<Clause>): FromItem {
    if clauses == [] then TableItem(first)
    else
      var c := clauses[|clauses| - 1];
      JoinItem(Tree(first, clauses[..|clauses| - 1]), TableItem(c.table), c.kind, Parsed(c))
  }

  /** The loop of `parseFromClause`. */
  method ParseFrom(first: Bytes, clauses: seq<Clause>) returns (item: FromItem)
    ensures item == Tree(first, clauses)
  {
    item := TableItem(first);
    for i := 0 to |clauses|
      invariant item == Tree(first, clauses[..i])
    {
      var c := clauses[i];
      var on: Option<Expression> := None;
      if !c.kind.CrossJoin? {
        var left, right := c.left, c.right;
        if c.kind.RightJoin? {
          left, right := right, left;
        }
        on := Some(Operation(EqualTo, left, right));
      }
      item := JoinItem(item, TableItem(c.table), c.kind, on);
      assert clauses[..i + 1][..i] == clauses[..i];
    }
    assert clauses[..|clauses|] == clauses;
  }

  /** `validateJoinItem` */
  predicate ValidJoin(kind: JoinType, on: Option<Expression>) {
    kind.CrossJoin? <==> on.None?
  }

  /** `buildFromItem`: the inputs of a RIGHT JOIN change places. */
  function Build(item: FromItem): Option<Node> {
    match item
    case TableItem(name) => Some(ScanNode(name))
    case JoinItem(l, r, kind, p) =>
      if !ValidJoin(kind, p) then None
      else match (Build(l), Build(r))
        case (Some(a), Some(b)) =>
          if kind.RightJoin? then Some(JoinNode(b, a, p, true)) else Some(JoinNode(a, b, p, kind.LeftJoin?))
        case _ => None
  }

  // ---- Running ----

  type Catalog = Bytes -> Option<Relation>

  ghost predicate Shaped(db: Catalog) {
    forall name :: db(name).Some? ==> db(name).value.Shaped()
  }

  /** What a plan yields. */
  ghost function Result(node: Node, db: Catalog): (r: Option<Relation>) {
    match node
    case ScanNode(name) => db(name)
    case JoinNode(left, right, p, outer) =>
      (match (Result(left, db), Result(right, db))
       case (Some(l), Some(r)) =>
         if SomePairFails(p, l.columns, r.columns, l.rows, r.rows) then None
         else Some(Relation(l.columns + r.columns,
           JoinRows(When(p, l.columns, r.columns), outer, |r.columns|, l.rows, r.rows)))
       case _ => None)
  }

  lemma {:induction false} MatchWidth(on: Condition, a: Row, bs: seq<Row>, w: nat)
    requires forall b :: b in bs ==> |b| == w
    ensures forall r :: r in Matches(on, a, bs) ==> |r| == |a| + w
  {
    if bs != [] {
      MatchWidth(on, a, bs[..|bs| - 1], w);
    }
  }

  lemma {:induction false} JoinWidth(on: Condition, outer: bool, rows: seq<Row>, bs: seq<Row>, v: nat, w: nat)
    requires (forall a :: a in rows ==> |a| == v) && (forall b :: b in bs ==> |b| == w)
    ensures forall r :: r in JoinRows(on, outer, w, rows, bs) ==> |r| == v + w
  {
    if rows != [] {
      var last := |rows| - 1;
      JoinWidth(on, outer, rows[..last], bs, v, w);
      MatchWidth(on, rows[last], bs, w);
    }
  }

  lemma ResultShaped(node: Node, db: Catalog)
    requires Shaped(db) && Result(node, db).Some?
    ensures Result(node, db).value.Shaped()
  {
    match node
    case ScanNode(name) =>
    case JoinNode(left, right, p, outer) =>
      ResultShaped(left, db);
      ResultShaped(right, db);
      var l, r := Result(left, db).value, Result(right, db).value;
      JoinWidth(When(p, l.columns, r.columns), outer, l.rows, r.rows, |l.columns|, |r.columns|);
  }

  method Execute(node: Node, db: Catalog) returns (r: Option<Relation>)
    requires Shaped(db)
    ensures r == Result(node, db)
  {
    match node
    case ScanNode(name) => r := db(name);
    case JoinNode(left, right, p, outer) =>
      var l := Execute(left, db);
      if l.None? {
        return None;
      }
      var b := Execute(right, db);
      if b.None? {
        return None;
      }
      ResultShaped(left, db);
      ResultShaped(right, db);
      r := NestedLoopJoin(l.value, b.value, p, outer);
  }
}
