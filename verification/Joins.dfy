/** The nested-loop join (executor/join.go) and the SQL joins it computes. */
module Joins {
  import opened ByteStrings
  import opened SqlValues
  import opened Expressions
  import opened Bags

  type Condition = (Row, Row) -> bool

  function Nulls(n: nat): (row: Row)
    ensures |row| == n && forall i :: 0 <= i < n ==> row[i] == Null
  {
    seq(n, _ => Null)
  }

  // ---- What the loops compute ----

  function Pairing(on: Condition, a: Row): Row -> seq<Row> {
    b => if on(a, b) then [a + b] else []
  }

  function Matches(on: Condition, a: Row, bs: seq<Row>): seq<Row> {
    FlatMap(bs, Pairing(on, a))
  }

  function OrPadded(outer: bool, width: nat, a: Row, matches: seq<Row>): seq<Row> {
    if outer && matches == [] then [a + Nulls(width)] else matches
  }

  /** The result rows of one outer row: its matches, or itself with NULLs. */
  function Block(on: Condition, outer: bool, width: nat, bs: seq<Row>): Row -> seq<Row> {
    a => OrPadded(outer, width, a, Matches(on, a, bs))
  }

  function JoinRows(on: Condition, outer: bool, width: nat, rows: seq<Row>, bs: seq<Row>): seq<Row> {
    FlatMap(rows, Block(on, outer, width, bs))
  }

  datatype Relation = Relation(columns: seq<Bytes>, rows: seq<Row>) {
    predicate Shaped() {
      AllFit(columns, rows)
    }
  }

  /** Whether a pair matches, None if that cannot be evaluated; without a predicate every pair does. */
  function Judge(p: Option<Expression>, a: Scope, b: Scope): Option<bool>
    requires a.Fits() && b.Fits()
  {
    if p.None? then Some(true)
    else match Evaluate(p.value, a, b)
      case None => None
      case Some(v) => Some(v == Boolean(true))
  }

  function When(p: Option<Expression>, a: seq<Bytes>, b: seq<Bytes>): Condition {
    (x, y) => |a| == |x| && |b| == |y| && Judge(p, Scope(a, x), Scope(b, y)) == Some(true)
  }

  ghost predicate PairFails(p: Option<Expression>, a: seq<Bytes>, b: seq<Bytes>, x: Row, y: Row) {
    |a| == |x| && |b| == |y| && Judge(p, Scope(a, x), Scope(b, y)).None?
  }

  ghost predicate RowFails(p: Option<Expression>, a: seq<Bytes>, b: seq<Bytes>, x: Row, bs: seq<Row>) {
    exists y :: y in bs && PairFails(p, a, b, x, y)
  }

  ghost predicate SomePairFails(p: Option<Expression>, a: seq<Bytes>, b: seq<Bytes>, rows: seq<Row>, bs: seq<Row>) {
    exists x :: x in rows && RowFails(p, a, b, x, bs)
  }

  /** A pair matches if there is no condition or it is true, and fails if the condition has no value. */
  lemma WhenExact(p: Option<Expression>, a: seq<Bytes>, b: seq<Bytes>, x: Row, y: Row)
    requires |a| == |x| && |b| == |y|
    ensures When(p, a, b)(x, y) <==> p.None? || Denotes(p.value, Scope(a, x), Scope(b, y), Boolean(true))
    ensures PairFails(p, a, b, x, y) <==> p.Some? && forall v :: !Denotes(p.value, Scope(a, x), Scope(b, y), v)
  {
    if p.Some? {
      forall v
        ensures Evaluate(p.value, Scope(a, x), Scope(b, y)) == Some(v) <==>
                Denotes(p.value, Scope(a, x), Scope(b, y), v)
      {
        EvaluateExact(p.value, Scope(a, x), Scope(b, y), v);
      }
      var r := Evaluate(p.value, Scope(a, x), Scope(b, y));
      if r.Some? {
        assert Denotes(p.value, Scope(a, x), Scope(b, y), r.value);
      }
    }
  }

  /** `ON c = d`: the cells are not NULL and alike, each under the first column of its name on its side. */
  lemma EqualCellsMatch(c: Bytes, d: Bytes, a: seq<Bytes>, b: seq<Bytes>, x: Row, y: Row, i: nat, j: nat)
    requires |a| == |x| && |b| == |y| && FirstOf(a, c, i) && FirstOf(b, d, j)
    ensures When(Some(Operation(EqualTo, ColumnReference(c), ColumnReference(d))), a, b)(x, y) <==>
            CellStands(EqualTo, x[i], y[j])
  {
    var l, r := ColumnReference(c), ColumnReference(d);
    WhenExact(Some(Operation(EqualTo, l, r)), a, b, x, y);
    TrueComparison(EqualTo, l, r, Scope(a, x), Scope(b, y));
    EvaluateExact(Operation(EqualTo, l, r), Scope(a, x), Scope(b, y), Boolean(true));
    assert Denotes(l, Scope(a, x), Scope(b, y), x[i]) && Denotes(r, Scope(b, y), Scope(a, x), y[j]);
    assert (forall k :: FirstOf(a, c, k) ==> k == i) && (forall k :: FirstOf(b, d, k) ==> k == j);
  }

  lemma MatchStep(on: Condition, a: Row, bs: seq<Row>, j: nat)
    requires j < |bs|
    ensures Matches(on, a, bs[..j + 1]) == Matches(on, a, bs[..j]) + if on(a, bs[j]) then [a + bs[j]] else []
  {
    assert bs[..j + 1] == bs[..j] + [bs[j]];
    Snoc(bs[..j], bs[j], Pairing(on, a));
  }

  lemma FailStep(p: Option<Expression>, left: seq<Bytes>, right: seq<Bytes>, a: Row, bs: seq<Row>, j: nat)
    requires j < |bs|
    ensures RowFails(p, left, right, a, bs[..j + 1]) <==>
            RowFails(p, left, right, a, bs[..j]) || PairFails(p, left, right, a, bs[j])
    ensures PairFails(p, left, right, a, bs[j]) ==> RowFails(p, left, right, a, bs)
  {
    assert forall y :: y in bs[..j + 1] <==> y in bs[..j] || y == bs[j];
  }

  /** The inner loop: the matches of one outer row, after what is there already. */
  method MatchRow(p: Option<Expression>, left: seq<Bytes>, a: Row, right: Relation, rows: seq<Row>)
    returns (r: Option<seq<Row>>, matched: bool)
    requires |a| == |left| && right.Shaped()
    ensures r.None? <==> RowFails(p, left, right.columns, a, right.rows)
    ensures var ms := Matches(When(p, left, right.columns), a, right.rows);
            r.Some? ==> r.value == rows + ms && (matched <==> ms != [])
  {
    ghost var on := When(p, left, right.columns);
    var out := rows;
    matched := false;
    for j := 0 to |right.rows|
      invariant out == rows + Matches(on, a, right.rows[..j])
      invariant matched <==> Matches(on, a, right.rows[..j]) != []
      invariant !RowFails(p, left, right.columns, a, right.rows[..j])
    {
      var b := right.rows[j];
      MatchStep(on, a, right.rows, j);
      FailStep(p, left, right.columns, a, right.rows, j);
      var isMatch := Judge(p, Scope(left, a), Scope(right.columns, b));
      if isMatch.None? {
        return None, false;
      }
      if isMatch.value {
        out := out + [a + b];
        matched := true;
      }
    }
    assert right.rows[..|right.rows|] == right.rows;
    r := Some(out);
  }

  lemma JoinStep(on: Condition, outer: bool, width: nat, rows: seq<Row>, bs: seq<Row>, i: nat)
    requires i < |rows|
    ensures JoinRows(on, outer, width, rows[..i + 1], bs) ==
            JoinRows(on, outer, width, rows[..i], bs) + OrPadded(outer, width, rows[i], Matches(on, rows[i], bs))
  {
    assert rows[..i + 1] == rows[..i] + [rows[i]];
    Snoc(rows[..i], rows[i], Block(on, outer, width, bs));
  }

  lemma RowFailStep(p: Option<Expression>, left: Relation, right: Relation, i: nat)
    requires i < |left.rows|
    ensures SomePairFails(p, left.columns, right.columns, left.rows[..i + 1], right.rows) <==>
              SomePairFails(p, left.columns, right.columns, left.rows[..i], right.rows)
              || RowFails(p, left.columns, right.columns, left.rows[i], right.rows)
    ensures RowFails(p, left.columns, right.columns, left.rows[i], right.rows) ==>
              SomePairFails(p, left.columns, right.columns, left.rows, right.rows)
  {
    assert forall x :: x in left.rows[..i + 1] <==> x in left.rows[..i] || x == left.rows[i];
  }

  /** `NestedLoopJoinExecutor.Execute`, on the results of its two inputs. */
  method NestedLoopJoin(left: Relation, right: Relation, p: Option<Expression>, outer: bool)
    returns (r: Option<Relation>)
    requires left.Shaped() && right.Shaped()
    ensures r.None? <==> SomePairFails(p, left.columns, right.columns, left.rows, right.rows)
    ensures r.Some? ==> r.value.columns == left.columns + right.columns
    ensures var on := When(p, left.columns, right.columns);
            r.Some? ==> r.value.rows == JoinRows(on, outer, |right.columns|, left.rows, right.rows)
  {
    ghost var on := When(p, left.columns, right.columns);
    var rows: seq<Row> := [];
    for i := 0 to |left.rows|
      invariant rows == JoinRows(on, outer, |right.columns|, left.rows[..i], right.rows)
      invariant !SomePairFails(p, left.columns, right.columns, left.rows[..i], right.rows)
    {
      var a := left.rows[i];
      JoinStep(on, outer, |right.columns|, left.rows, right.rows, i);
      RowFailStep(p, left, right, i);
      var next, matched := MatchRow(p, left.columns, a, right, rows);
      if next.None? {
        return None;
      }
      rows := next.value;
      if outer && !matched {
        rows := rows + [a + Nulls(|right.columns|)];
      }
    }
    assert left.rows[..|left.rows|] == left.rows;
    r := Some(Relation(left.columns + right.columns, rows));
  }

  // ---- The joins of SQL ----

  datatype JoinType = CrossJoin | InnerJoin | LeftJoin | RightJoin

  /** All matching pairs. */
  function PairsOf(on: Condition, rows: seq<Row>, bs: seq<Row>): seq<Row> {
    FlatMap(rows, MatchesIn(on, bs))
  }

  function MatchesIn(on: Condition, bs: seq<Row>): Row -> seq<Row> {
    a => Matches(on, a, bs)
  }

  predicate Matched(on: Condition, a: Row, bs: seq<Row>) {
    exists b :: b in bs && on(a, b)
  }

  predicate Matching(on: Condition, rows: seq<Row>, b: Row) {
    exists a :: a in rows && on(a, b)
  }

  function Padded(needed: bool, row: Row): seq<Row> {
    if needed then [row] else []
  }

  function LeftPad(outer: bool, on: Condition, width: nat, bs: seq<Row>): Row -> seq<Row> {
    a => Padded(outer && !Matched(on, a, bs), a + Nulls(width))
  }

  function RightPad(on: Condition, width: nat, rows: seq<Row>): Row -> seq<Row> {
    b => Padded(!Matching(on, rows, b), Nulls(width) + b)
  }

  /** The matching pairs, and the rows of the preserved side that match nothing, with NULLs. */
  function SqlJoin(kind: JoinType, on: Condition, rows: seq<Row>, width: nat, bs: seq<Row>, widthB: nat): seq<Row> {
    match kind
    case LeftJoin => PairsOf(on, rows, bs) + FlatMap(rows, LeftPad(true, on, widthB, bs))
    case RightJoin => PairsOf(on, rows, bs) + FlatMap(bs, RightPad(on, width, rows))
    case _ => PairsOf(on, rows, bs)
  }

  lemma {:induction false} NoMatches(on: Condition, a: Row, bs: seq<Row>)
    ensures Matches(on, a, bs) == [] <==> !Matched(on, a, bs)
  {
    if bs != [] {
      var last := |bs| - 1;
      NoMatches(on, a, bs[..last]);
      assert forall b :: b in bs <==> b in bs[..last] || b == bs[last];
    }
  }

  // ---- Which rows these are ----

  /** out[k] is the one result of f for the element at from[k]. */
  ghost predicate ResultsFrom<A, B>(s: seq<A>, f: A -> seq<B>, out: seq<B>, from: seq<nat>) {
    |from| == |out| && forall k :: 0 <= k < |from| ==> from[k] < |s| && f(s[from[k]]) == [out[k]]
  }

  lemma ResultsStep<A, B>(s: seq<A>, x: A, f: A -> seq<B>, out: seq<B>, from: seq<nat>)
    requires ResultsFrom(s, f, out, from)
    ensures |f(x)| == 1 ==> ResultsFrom(s + [x], f, out + f(x), from + [|s|])
    ensures f(x) == [] ==> ResultsFrom(s + [x], f, out + f(x), from)
  {
    if |f(x)| == 1 {
      assert f(x) == [f(x)[0]];
    }
  }

  /** A function that gives one result for the marked elements and none for the others. */
  ghost predicate GivesMarked<A, B>(s: seq<A>, f: A -> seq<B>, marks: seq<bool>) {
    |marks| == |s| && forall i :: 0 <= i < |s| ==> |f(s[i])| == if marks[i] then 1 else 0
  }

  lemma {:induction false} MarkedResults<A, B>(s: seq<A>, f: A -> seq<B>, marks: seq<bool>)
    requires GivesMarked(s, f, marks)
    ensures ResultsFrom(s, f, FlatMap(s, f), Places(marks))
  {
    if s != [] {
      var init, x := s[..|s| - 1], s[|s| - 1];
      MarkedResults(init, f, marks[..|s| - 1]);
      ResultsStep(init, x, f, FlatMap(init, f), Places(marks[..|s| - 1]));
      assert s == init + [x];
    }
  }

  /** The rows of bs that a matches, in order, each after a. */
  ghost predicate MatchesFrom(on: Condition, a: Row, bs: seq<Row>, out: seq<Row>, js: seq<nat>) {
    && |out| == |js| && (forall k :: 0 <= k < |js| ==> js[k] < |bs| && on(a, bs[js[k]]) && out[k] == a + bs[js[k]])
    && (forall k, l :: 0 <= k < l < |js| ==> js[k] < js[l]) && forall j: nat :: j < |bs| && on(a, bs[j]) ==> j in js
  }

  lemma MatchesExact(on: Condition, a: Row, bs: seq<Row>) returns (js: seq<nat>)
    ensures MatchesFrom(on, a, bs, Matches(on, a, bs), js)
  {
    var marks := seq(|bs|, j requires 0 <= j < |bs| => on(a, bs[j]));
    js := Places(marks);
    PlacesMarked(marks);
    MarkedResults(bs, Pairing(on, a), marks);
    assert forall k :: 0 <= k < |js| ==> js[k] in js;
  }

  predicate Before(p: (nat, nat), q: (nat, nat)) {
    p.0 < q.0 || (p.0 == q.0 && p.1 < q.1)
  }

  ghost predicate PairAt(on: Condition, rows: seq<Row>, bs: seq<Row>, row: Row, p: (nat, nat)) {
    p.0 < |rows| && p.1 < |bs| && on(rows[p.0], bs[p.1]) && row == rows[p.0] + bs[p.1]
  }

  ghost predicate PairsAt(on: Condition, rows: seq<Row>, bs: seq<Row>, out: seq<Row>, from: seq<(nat, nat)>) {
    |out| == |from| && forall k :: 0 <= k < |from| ==> PairAt(on, rows, bs, out[k], from[k])
  }

  ghost predicate InOrder(from: seq<(nat, nat)>) {
    forall k, l :: 0 <= k < l < |from| ==> Before(from[k], from[l])
  }

  /** out are the matching pairs, each once, in the order of the places in `from`. */
  ghost predicate PairsFrom(on: Condition, rows: seq<Row>, bs: seq<Row>, out: seq<Row>, from: seq<(nat, nat)>) {
    && PairsAt(on, rows, bs, out, from) && InOrder(from)
    && forall i: nat, j: nat :: i < |rows| && j < |bs| && on(rows[i], bs[j]) ==> (i, j) in from
  }

  /** The places (n, j), for each j of js. */
  function Beside(n: nat, js: seq<nat>): (from: seq<(nat, nat)>)
    ensures |from| == |js| && forall k :: 0 <= k < |js| ==> from[k] == (n, js[k])
  {
    seq(|js|, k requires 0 <= k < |js| => (n, js[k]))
  }

  lemma BesideHas(n: nat, js: seq<nat>, j: nat)
    requires j in js
    ensures (n, j) in Beside(n, js)
  {
    var k :| 0 <= k < |js| && js[k] == j;
    assert Beside(n, js)[k] == (n, j);
  }

  lemma InOrderBeside(from: seq<(nat, nat)>, n: nat, js: seq<nat>)
    requires InOrder(from) && forall k :: 0 <= k < |from| ==> from[k].0 < n
    requires forall k, l :: 0 <= k < l < |js| ==> js[k] < js[l]
    ensures InOrder(from + Beside(n, js))
  {
  }

  lemma PairsAtBeside(
    on: Condition, rows: seq<Row>, bs: seq<Row>, out: seq<Row>, from: seq<(nat, nat)>, a: Row, more: seq<Row>,
    js: seq<nat>)
    requires PairsAt(on, rows, bs, out, from) && MatchesFrom(on, a, bs, more, js)
    ensures PairsAt(on, rows + [a], bs, out + more, from + Beside(|rows|, js))
  {
    var next := from + Beside(|rows|, js);
    forall k | 0 <= k < |next|
      ensures PairAt(on, rows + [a], bs, (out + more)[k], next[k])
    {
      if k < |from| {
        assert PairAt(on, rows, bs, out[k], from[k]);
      } else {
        assert next[k] == (|rows|, js[k - |from|]);
      }
    }
  }

  lemma PairsStep(
    on: Condition, rows: seq<Row>, bs: seq<Row>, out: seq<Row>, from: seq<(nat, nat)>, a: Row, more: seq<Row>,
    js: seq<nat>)
    requires PairsFrom(on, rows, bs, out, from) && MatchesFrom(on, a, bs, more, js)
    ensures PairsFrom(on, rows + [a], bs, out + more, from + Beside(|rows|, js))
  {
    assert forall k :: 0 <= k < |from| ==> PairAt(on, rows, bs, out[k], from[k]);
    PairsAtBeside(on, rows, bs, out, from, a, more, js);
    InOrderBeside(from, |rows|, js);
    forall i: nat, j: nat | i < |rows + [a]| && j < |bs| && on((rows + [a])[i], bs[j])
      ensures (i, j) in from + Beside(|rows|, js)
    {
      if i == |rows| {
        BesideHas(i, js, j);
      } else {
        assert (i, j) in from;
      }
    }
  }

  lemma {:induction false} PairsExact(on: Condition, rows: seq<Row>, bs: seq<Row>) returns (from: seq<(nat, nat)>)
    ensures PairsFrom(on, rows, bs, PairsOf(on, rows, bs), from)
  {
    if rows == [] {
      from := [];
    } else {
      var last := |rows| - 1;
      from := PairsExact(on, rows[..last], bs);
      var js := MatchesExact(on, rows[last], bs);
      assert rows == rows[..last] + [rows[last]];
      PairsStep(on, rows[..last], bs, PairsOf(on, rows[..last], bs), from, rows[last],
                Matches(on, rows[last], bs), js);
      from := from + Beside(last, js);
    }
  }

  /** The rows of s that match nothing, in order. */
  ghost predicate LoneFrom(s: seq<Row>, matched: Row -> bool, lone: seq<nat>) {
    && (forall k :: 0 <= k < |lone| ==> lone[k] < |s| && !matched(s[lone[k]]))
    && (forall k, l :: 0 <= k < l < |lone| ==> lone[k] < lone[l])
    && forall i: nat :: i < |s| && !matched(s[i]) ==> i in lone
  }

  /** pads are those rows, with NULLs after or before them. */
  ghost predicate PadsFrom(s: seq<Row>, lone: seq<nat>, pads: seq<Row>, before: Row, after: Row) {
    && |pads| == |lone|
    && forall k :: 0 <= k < |lone| ==> lone[k] < |s| && pads[k] == before + s[lone[k]] + after
  }

  lemma PadsExact(s: seq<Row>, matched: Row -> bool, f: Row -> seq<Row>, before: Row, after: Row)
    returns (lone: seq<nat>)
    requires forall a :: f(a) == Padded(!matched(a), before + a + after)
    ensures LoneFrom(s, matched, lone) && PadsFrom(s, lone, FlatMap(s, f), before, after)
  {
    var marks := seq(|s|, i requires 0 <= i < |s| => !matched(s[i]));
    lone := Places(marks);
    PlacesMarked(marks);
    MarkedResults(s, f, marks);
    assert forall k :: 0 <= k < |lone| ==> lone[k] in lone;
  }

  function MatchedBy(on: Condition, bs: seq<Row>): Row -> bool {
    a => Matched(on, a, bs)
  }

  function MatchingBy(on: Condition, rows: seq<Row>): Row -> bool {
    b => Matching(on, rows, b)
  }

  lemma LeftPadsExact(on: Condition, rows: seq<Row>, bs: seq<Row>, widthB: nat) returns (lone: seq<nat>)
    ensures LoneFrom(rows, MatchedBy(on, bs), lone)
    ensures PadsFrom(rows, lone, FlatMap(rows, LeftPad(true, on, widthB, bs)), [], Nulls(widthB))
  {
    assert forall a: Row :: [] + a == a;
    lone := PadsExact(rows, MatchedBy(on, bs), LeftPad(true, on, widthB, bs), [], Nulls(widthB));
  }

  lemma RightPadsExact(on: Condition, rows: seq<Row>, width: nat, bs: seq<Row>) returns (lone: seq<nat>)
    ensures LoneFrom(bs, MatchingBy(on, rows), lone)
    ensures PadsFrom(bs, lone, FlatMap(bs, RightPad(on, width, rows)), Nulls(width), [])
  {
    assert forall b: Row :: Nulls(width) + b + [] == Nulls(width) + b;
    lone := PadsExact(bs, MatchingBy(on, rows), RightPad(on, width, rows), Nulls(width), []);
  }

  /**
   The rows of a join: every matching pair of places once; then, for an outer join, every row of
   the preserved side that matches nothing once, with NULLs in the place of the other side.
   */
  lemma SqlJoinExact(kind: JoinType, on: Condition, rows: seq<Row>, width: nat, bs: seq<Row>, widthB: nat)
    returns (pairs: seq<Row>, pads: seq<Row>, from: seq<(nat, nat)>, lone: seq<nat>)
    ensures SqlJoin(kind, on, rows, width, bs, widthB) == pairs + pads && PairsFrom(on, rows, bs, pairs, from)
    ensures kind.LeftJoin? ==>
              LoneFrom(rows, MatchedBy(on, bs), lone) && PadsFrom(rows, lone, pads, [], Nulls(widthB))
    ensures kind.RightJoin? ==>
              LoneFrom(bs, MatchingBy(on, rows), lone) && PadsFrom(bs, lone, pads, Nulls(width), [])
    ensures kind.CrossJoin? || kind.InnerJoin? ==> pads == []
  {
    pairs, pads, lone := PairsOf(on, rows, bs), [], [];
    from := PairsExact(on, rows, bs);
    if kind.LeftJoin? {
      pads := FlatMap(rows, LeftPad(true, on, widthB, bs));
      lone := LeftPadsExact(on, rows, bs, widthB);
    } else if kind.RightJoin? {
      pads := FlatMap(bs, RightPad(on, width, rows));
      lone := RightPadsExact(on, rows, width, bs);
    }
  }

  // ---- Columns in another order ----

  /** The row with its cells in the given order of positions. */
  function Rearranged<T>(order: seq<nat>, row: seq<T>): (r: seq<T>)
    requires forall i :: 0 <= i < |order| ==> order[i] < |row|
    ensures |r| == |order| && forall i :: 0 <= i < |order| ==> r[i] == row[order[i]]
  {
    seq(|order|, i requires 0 <= i < |order| => row[order[i]])
  }

  ghost predicate Positions(order: seq<nat>, n: nat) {
    && |order| == n && (forall i :: 0 <= i < n ==> order[i] < n)
    && (forall i, j :: 0 <= i < j < n ==> order[i] != order[j])
    && forall p: nat :: p < n ==> p in order
  }

  function Shuffle(order: seq<nat>): Row -> Row {
    row => if forall i :: 0 <= i < |order| ==> order[i] < |row| then Rearranged(order, row) else row
  }

  function From(start: nat, n: nat): (order: seq<nat>)
    ensures |order| == n && forall i :: 0 <= i < n ==> order[i] == start + i
  {
    seq(n, i requires 0 <= i < n => start + i)
  }

  lemma RearrangePair<T>(order: seq<nat>, a: seq<T>, b: seq<T>)
    requires forall i :: 0 <= i < |order| ==> order[i] < |a|
    ensures Rearranged(order + From(|a|, |b|), a + b) == Rearranged(order, a) + b
    ensures Rearranged(From(|a|, |b|) + order, a + b) == b + Rearranged(order, a)
  {
    var n := |a|;
    forall i | 0 <= i < |b|
      ensures (a + b)[From(n, |b|)[i]] == b[i]
    {
    }
  }

  lemma ShufflePair(order: seq<nat>, a: Row, b: Row)
    requires Positions(order, |a|)
    ensures Shuffle(order + From(|a|, |b|))(a + b) == Shuffle(order)(a) + b
    ensures Shuffle(From(|a|, |b|) + order)(a + b) == b + Shuffle(order)(a)
  {
    RearrangePair(order, a, b);
    InBounds(order + From(|a|, |b|), a + b);
    InBounds(From(|a|, |b|) + order, a + b);
    InBounds(order, a);
  }

  lemma InBounds(order: seq<nat>, row: Row)
    requires forall i :: 0 <= i < |order| ==> order[i] < |row|
    ensures Shuffle(order)(row) == Rearranged(order, row)
  {
  }

  lemma ShuffleNulls(order: seq<nat>, n: nat)
    requires Positions(order, n)
    ensures Shuffle(order)(Nulls(n)) == Nulls(n)
  {
  }

  // ---- The engine's joins are the joins of SQL ----

  /**
   h takes the left rows of the query to those the engine holds, g the result rows: the same
   h, then the right row.
   */
  ghost predicate Lifts(h: Row -> Row, g: Row -> Row, rows: seq<Row>, bs: seq<Row>, widthB: nat) {
    forall a, b :: a in rows && (b in bs || b == Nulls(widthB)) ==> g(a + b) == h(a) + b
  }

  ghost predicate SameOn(h: Row -> Row, rows: seq<Row>, bs: seq<Row>, on: Condition, held: Condition) {
    forall a, b :: a in rows && b in bs ==> held(h(a), b) == on(a, b)
  }

  function Through(f: Row -> seq<Row>, g: Row -> Row): Row -> seq<Row> {
    x => Mapped(f(x), g)
  }

  function After(h: Row -> Row, f: Row -> seq<Row>): Row -> seq<Row> {
    x => f(h(x))
  }

  lemma MatchesAgree(
    h: Row -> Row, g: Row -> Row, rows: seq<Row>, bs: seq<Row>, widthB: nat, on: Condition, held: Condition, a: Row)
    requires Lifts(h, g, rows, bs, widthB) && SameOn(h, rows, bs, on, held) && a in rows
    ensures Matches(held, h(a), bs) == Mapped(Matches(on, a, bs), g)
  {
    forall b | b in bs
      ensures Through(Pairing(on, a), g)(b) == Pairing(held, h(a))(b)
    {
    }
    BeforeMap(bs, Pairing(on, a), g, Through(Pairing(on, a), g));
    SameResults(bs, Through(Pairing(on, a), g), Pairing(held, h(a)));
  }

  lemma PaddingAgrees(g: Row -> Row, outer: bool, width: nat, a: Row, a': Row, matches: seq<Row>)
    requires g(a + Nulls(width)) == a' + Nulls(width)
    ensures OrPadded(outer, width, a', Mapped(matches, g)) ==
            Mapped(matches, g) + Mapped(Padded(outer && matches == [], a + Nulls(width)), g)
  {
    assert Mapped([a + Nulls(width)], g) == [a' + Nulls(width)];
  }

  lemma BlockAgrees(
    h: Row -> Row, g: Row -> Row, rows: seq<Row>, bs: seq<Row>, widthB: nat, on: Condition, held: Condition,
    outer: bool, a: Row)
    requires Lifts(h, g, rows, bs, widthB) && SameOn(h, rows, bs, on, held) && a in rows
    ensures Block(held, outer, widthB, bs)(h(a)) ==
            Mapped(MatchesIn(on, bs)(a), g) + Mapped(LeftPad(outer, on, widthB, bs)(a), g)
  {
    MatchesAgree(h, g, rows, bs, widthB, on, held, a);
    NoMatches(on, a, bs);
    PaddingAgrees(g, outer, widthB, a, h(a), Matches(on, a, bs));
  }

  /**
   CROSS, INNER and LEFT JOIN: any order of the left rows, and any way h of holding them,
   gives the same result through g.
   */
  lemma LeftwardJoin(
    h: Row -> Row, g: Row -> Row, rows: seq<Row>, heldRows: seq<Row>, bs: seq<Row>, widthB: nat, on: Condition,
    held: Condition, outer: bool)
    requires Lifts(h, g, rows, bs, widthB) && SameOn(h, rows, bs, on, held)
    requires multiset(heldRows) == multiset(Mapped(rows, h))
    ensures multiset(JoinRows(held, outer, widthB, heldRows, bs)) ==
            multiset(Mapped(FlatMap(rows, MatchesIn(on, bs)), g)) +
              multiset(Mapped(FlatMap(rows, LeftPad(outer, on, widthB, bs)), g))
  {
    var block, matches, pad := Block(held, outer, widthB, bs), MatchesIn(on, bs), LeftPad(outer, on, widthB, bs);
    var here := After(h, block);
    Reordered(heldRows, Mapped(rows, h), block);
    AfterMap(rows, h, block, here);
    forall a | a in rows
      ensures here(a) == Through(matches, g)(a) + Through(pad, g)(a)
    {
      BlockAgrees(h, g, rows, bs, widthB, on, held, outer, a);
    }
    Plus(rows, Through(matches, g), Through(pad, g), here);
    BeforeMap(rows, matches, g, Through(matches, g));
    BeforeMap(rows, pad, g, Through(pad, g));
  }

  /** g takes a pair of the query to the pair the engine forms: the right row, then h of the left one. */
  ghost predicate Flips(h: Row -> Row, g: Row -> Row, rows: seq<Row>, width: nat, bs: seq<Row>) {
    && (forall a, b :: a in rows && b in bs ==> g(a + b) == b + h(a))
    && (forall b :: b in bs ==> g(Nulls(width) + b) == b + Nulls(width))
  }

  ghost predicate FlippedOn(h: Row -> Row, rows: seq<Row>, bs: seq<Row>, on: Condition, held: Condition) {
    forall a, b :: a in rows && b in bs ==> held(b, h(a)) == on(a, b)
  }

  function Cell(on: Condition, g: Row -> Row): (Row, Row) -> seq<Row> {
    (a, b) => if on(a, b) then [g(a + b)] else []
  }

  function ColumnOf(on: Condition, g: Row -> Row, rows: seq<Row>): Row -> seq<Row> {
    b => FlatMap(rows, Down(Cell(on, g), b))
  }

  lemma ColumnAgrees(
    h: Row -> Row, g: Row -> Row, rows: seq<Row>, width: nat, heldRows: seq<Row>, bs: seq<Row>, on: Condition,
    held: Condition, b: Row)
    requires Flips(h, g, rows, width, bs) && FlippedOn(h, rows, bs, on, held)
    requires multiset(heldRows) == multiset(Mapped(rows, h)) && b in bs
    ensures multiset(Matches(held, b, heldRows)) == multiset(ColumnOf(on, g, rows)(b))
  {
    Reordered(heldRows, Mapped(rows, h), Pairing(held, b));
    AfterMap(rows, h, Pairing(held, b), After(h, Pairing(held, b)));
    SameResults(rows, After(h, Pairing(held, b)), Down(Cell(on, g), b));
  }

  lemma {:induction false} ColumnEmpty(on: Condition, g: Row -> Row, rows: seq<Row>, b: Row)
    ensures ColumnOf(on, g, rows)(b) == [] <==> !Matching(on, rows, b)
  {
    if rows != [] {
      var last := |rows| - 1;
      ColumnEmpty(on, g, rows[..last], b);
      assert forall a :: a in rows <==> a in rows[..last] || a == rows[last];
    }
  }

  lemma FlippedBlock(
    h: Row -> Row, g: Row -> Row, rows: seq<Row>, width: nat, heldRows: seq<Row>, bs: seq<Row>, on: Condition,
    held: Condition, b: Row)
    requires Flips(h, g, rows, width, bs) && FlippedOn(h, rows, bs, on, held)
    requires multiset(heldRows) == multiset(Mapped(rows, h)) && b in bs
    ensures multiset(Block(held, true, width, heldRows)(b)) ==
            multiset(ColumnOf(on, g, rows)(b)) + multiset(Through(RightPad(on, width, rows), g)(b))
  {
    ColumnAgrees(h, g, rows, width, heldRows, bs, on, held, b);
    ColumnEmpty(on, g, rows, b);
    var ms := Matches(held, b, heldRows);
    assert |multiset(ms)| == |multiset(ColumnOf(on, g, rows)(b))|;
    assert ms == [] <==> ColumnOf(on, g, rows)(b) == [];
    assert Mapped([Nulls(width) + b], g) == [b + Nulls(width)];
  }

  lemma RowAgrees(on: Condition, g: Row -> Row, bs: seq<Row>, a: Row)
    ensures Through(MatchesIn(on, bs), g)(a) == FlatMap(bs, Across(Cell(on, g), a))
  {
    BeforeMap(bs, Pairing(on, a), g, Across(Cell(on, g), a));
  }

  /** RIGHT JOIN, run with its inputs exchanged and the right one as the outer loop. */
  lemma RightwardJoin(
    h: Row -> Row, g: Row -> Row, rows: seq<Row>, width: nat, heldRows: seq<Row>, bs: seq<Row>, on: Condition,
    held: Condition)
    requires Flips(h, g, rows, width, bs) && FlippedOn(h, rows, bs, on, held)
    requires multiset(heldRows) == multiset(Mapped(rows, h))
    ensures multiset(JoinRows(held, true, width, bs, heldRows)) ==
            multiset(Mapped(FlatMap(rows, MatchesIn(on, bs)), g)) +
              multiset(Mapped(FlatMap(bs, RightPad(on, width, rows)), g))
  {
    var block, column, pad := Block(held, true, width, heldRows), ColumnOf(on, g, rows), RightPad(on, width, rows);
    forall b | b in bs
      ensures multiset(block(b)) == multiset(column(b)) + multiset(Through(pad, g)(b))
    {
      FlippedBlock(h, g, rows, width, heldRows, bs, on, held, b);
    }
    Plus(bs, column, Through(pad, g), block);
    BeforeMap(bs, pad, g, Through(pad, g));
    var matches := MatchesIn(on, bs);
    forall a | a in rows
      ensures Through(matches, g)(a) == FlatMap(bs, Across(Cell(on, g), a))
    {
      RowAgrees(on, g, bs, a);
    }
    Exchange(rows, bs, Through(matches, g), column, Cell(on, g));
    BeforeMap(rows, matches, g, Through(matches, g));
  }

  // ---- How often a preserved row appears ----

  function MatchCount(on: Condition, a: Row, bs: seq<Row>): nat {
    if bs == [] then 0 else MatchCount(on, a, bs[..|bs| - 1]) + if on(a, bs[|bs| - 1]) then 1 else 0
  }

  lemma {:induction false} MatchesCounted(on: Condition, a: Row, bs: seq<Row>)
    ensures |Matches(on, a, bs)| == MatchCount(on, a, bs) && forall r :: r in Matches(on, a, bs) ==> a <= r
  {
    if bs != [] {
      MatchesCounted(on, a, bs[..|bs| - 1]);
    }
  }

  function Times(on: Condition, a: Row, bs: seq<Row>): nat {
    if MatchCount(on, a, bs) == 0 then 1 else MatchCount(on, a, bs)
  }

  /** Block i of the result, from starts[i] on, holds row i of the preserved side max(1, matches) times. */
  ghost predicate Blocked(on: Condition, rows: seq<Row>, bs: seq<Row>, result: seq<Row>, starts: seq<nat>) {
    && |starts| == |rows| + 1 && starts[0] == 0 && starts[|rows|] == |result|
    && forall i :: 0 <= i < |rows| ==>
         starts[i + 1] == starts[i] + Times(on, rows[i], bs) <= |result|
           && forall k :: starts[i] <= k < starts[i + 1] ==> rows[i] <= result[k]
  }

  lemma {:induction false} PreservedRows(on: Condition, width: nat, rows: seq<Row>, bs: seq<Row>)
    returns (starts: seq<nat>)
    ensures Blocked(on, rows, bs, JoinRows(on, true, width, rows, bs), starts)
  {
    if rows == [] {
      starts := [0];
    } else {
      var init, a := rows[..|rows| - 1], rows[|rows| - 1];
      var before := PreservedRows(on, width, init, bs);
      MatchesCounted(on, a, bs);
      starts := before + [before[|init|] + Times(on, a, bs)];
      BlockedStep(on, init, a, bs, JoinRows(on, true, width, init, bs), Block(on, true, width, bs)(a), before);
      assert init + [a] == rows;
    }
  }

  lemma BlockedStep(
    on: Condition, rows: seq<Row>, a: Row, bs: seq<Row>, result: seq<Row>, block: seq<Row>, starts: seq<nat>)
    requires Blocked(on, rows, bs, result, starts) && |block| == Times(on, a, bs) && forall r :: r in block ==> a <= r
    ensures Blocked(on, rows + [a], bs, result + block, starts + [starts[|rows|] + Times(on, a, bs)])
  {
    var n := |rows|;
    var rows', result', starts' := rows + [a], result + block, starts + [starts[n] + Times(on, a, bs)];
    forall i, k | 0 <= i <= n && starts'[i] <= k < starts'[i + 1]
      ensures rows'[i] <= result'[k]
    {
      if i == n {
        assert result'[k] == block[k - |result|] && block[k - |result|] in block;
      } else {
        assert starts[i + 1] <= |result| && rows[i] <= result[k] && result'[k] == result[k];
      }
    }
  }
}
