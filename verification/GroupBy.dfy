/** GROUP BY and its aggregates (executor/aggregate.go). */
module GroupBy {
  import opened ByteStrings
  import opened SqlValues
  import opened Schemas
  import opened Expressions

  datatype Group = Group(key: Value, rows: seq<Row>)

  predicate Has(rows: seq<Row>, c: nat) {
    forall i :: 0 <= i < |rows| ==> c < |rows[i]|
  }

  // ---- Grouping ----

  /** The rows with key k, in order. */
  function WithKey(rows: seq<Row>, g: nat, k: Value): seq<Row>
    requires Has(rows, g)
  {
    if rows == [] then []
    else WithKey(rows[..|rows| - 1], g, k) + if rows[|rows| - 1][g] == k then [rows[|rows| - 1]] else []
  }

  /** Where k first occurs. */
  predicate FirstAt(rows: seq<Row>, g: nat, k: Value, n: nat)
    requires Has(rows, g)
  {
    n < |rows| && rows[n][g] == k && forall j :: 0 <= j < n ==> rows[j][g] != k
  }

  ghost predicate Grouped(groups: seq<Group>, k: Value) {
    exists i :: 0 <= i < |groups| && groups[i].key == k
  }

  /** One group a key, in order of first occurrence, each with all the rows of its key. */
  ghost predicate Partition(rows: seq<Row>, g: nat, groups: seq<Group>, firsts: seq<nat>)
    requires Has(rows, g)
  {
    && |firsts| == |groups|
    && (forall i :: 0 <= i < |groups| ==> FirstAt(rows, g, groups[i].key, firsts[i]))
    && (forall i :: 0 <= i < |groups| ==> groups[i].rows == WithKey(rows, g, groups[i].key))
    && (forall i, j :: 0 <= i < j < |groups| ==> firsts[i] < firsts[j])
    && (forall j :: 0 <= j < |rows| ==> Grouped(groups, rows[j][g]))
  }

  lemma KeyStep(rows: seq<Row>, g: nat, n: nat, k: Value)
    requires Has(rows, g) && n < |rows|
    ensures Has(rows[..n], g) && Has(rows[..n + 1], g)
    ensures WithKey(rows[..n + 1], g, k) == WithKey(rows[..n], g, k) + if rows[n][g] == k then [rows[n]] else []
  {
    assert rows[..n + 1][..n] == rows[..n];
  }

  lemma {:induction false} NoRows(rows: seq<Row>, g: nat, k: Value)
    requires Has(rows, g) && forall j :: 0 <= j < |rows| ==> rows[j][g] != k
    ensures WithKey(rows, g, k) == []
  {
    if rows != [] {
      NoRows(rows[..|rows| - 1], g, k);
    }
  }

  /** index says where each key's group is. */
  ghost predicate Indexed(groups: seq<Group>, index: map<Value, nat>) {
    && (forall k :: k in index ==> index[k] < |groups| && groups[index[k]].key == k)
    && (forall i :: 0 <= i < |groups| ==> groups[i].key in index && index[groups[i].key] == i)
  }

  ghost predicate InOrder(rows: seq<Row>, g: nat, n: nat, groups: seq<Group>, firsts: seq<nat>)
    requires Has(rows, g)
  {
    && |firsts| == |groups|
    && (forall i :: 0 <= i < |groups| ==> firsts[i] < n && FirstAt(rows, g, groups[i].key, firsts[i]))
    && (forall i, j :: 0 <= i < j < |groups| ==> firsts[i] < firsts[j])
  }

  ghost predicate Complete(rows: seq<Row>, g: nat, groups: seq<Group>)
    requires Has(rows, g)
  {
    forall i :: 0 <= i < |groups| ==> groups[i].rows == WithKey(rows, g, groups[i].key)
  }

  lemma Joined(rows: seq<Row>, g: nat, n: nat, groups: seq<Group>, i: nat, r: Row)
    requires Has(rows, g) && n < |rows| && rows[n] == r && i < |groups| && groups[i].key == r[g]
    requires Has(rows[..n], g) && Complete(rows[..n], g, groups)
    requires forall j :: 0 <= j < |groups| && j != i ==> groups[j].key != r[g]
    ensures Has(rows[..n + 1], g) && Complete(rows[..n + 1], g, groups[i := groups[i].(rows := groups[i].rows + [r])])
  {
    forall j | 0 <= j < |groups|
      ensures WithKey(rows[..n + 1], g, groups[j].key) == groups[j].rows + if j == i then [r] else []
    {
      KeyStep(rows, g, n, groups[j].key);
    }
  }

  lemma Opened(rows: seq<Row>, g: nat, n: nat, groups: seq<Group>, r: Row)
    requires Has(rows, g) && n < |rows| && rows[n] == r && Has(rows[..n], g) && Complete(rows[..n], g, groups)
    requires (forall j :: 0 <= j < |groups| ==> groups[j].key != r[g])
    requires forall j :: 0 <= j < n ==> rows[j][g] != r[g]
    ensures Has(rows[..n + 1], g) && Complete(rows[..n + 1], g, groups + [Group(r[g], [r])])
  {
    NoRows(rows[..n], g, r[g]);
    KeyStep(rows, g, n, r[g]);
    forall j | 0 <= j < |groups|
      ensures WithKey(rows[..n + 1], g, groups[j].key) == groups[j].rows
    {
      KeyStep(rows, g, n, groups[j].key);
    }
  }

  /** The state of the loop after n rows. */
  ghost predicate SoFar(rows: seq<Row>, g: nat, n: nat, groups: seq<Group>, index: map<Value, nat>, firsts: seq<nat>)
    requires Has(rows, g) && n <= |rows|
  {
    && Indexed(groups, index) && InOrder(rows, g, n, groups, firsts)
    && (forall j :: 0 <= j < n ==> rows[j][g] in index)
    && Has(rows[..n], g) && Complete(rows[..n], g, groups)
  }

  lemma JoinStep(rows: seq<Row>, g: nat, n: nat, groups: seq<Group>, index: map<Value, nat>, firsts: seq<nat>)
    requires Has(rows, g) && n < |rows| && SoFar(rows, g, n, groups, index, firsts) && rows[n][g] in index
    ensures var i := index[rows[n][g]];
            SoFar(rows, g, n + 1, groups[i := groups[i].(rows := groups[i].rows + [rows[n]])], index, firsts)
  {
    Joined(rows, g, n, groups, index[rows[n][g]], rows[n]);
  }

  lemma OpenStep(rows: seq<Row>, g: nat, n: nat, groups: seq<Group>, index: map<Value, nat>, firsts: seq<nat>)
    requires Has(rows, g) && n < |rows| && SoFar(rows, g, n, groups, index, firsts) && rows[n][g] !in index
    ensures SoFar(rows, g, n + 1, groups + [Group(rows[n][g], [rows[n]])], index[rows[n][g] := |groups|], firsts + [n])
  {
    Opened(rows, g, n, groups, rows[n]);
    assert FirstAt(rows, g, rows[n][g], n);
  }

  lemma AllGrouped(rows: seq<Row>, g: nat, groups: seq<Group>, index: map<Value, nat>, firsts: seq<nat>)
    requires Has(rows, g) && SoFar(rows, g, |rows|, groups, index, firsts)
    ensures Partition(rows, g, groups, firsts)
  {
    assert rows[..|rows|] == rows;
    forall j | 0 <= j < |rows|
      ensures Grouped(groups, rows[j][g])
    {
      assert groups[index[rows[j][g]]].key == rows[j][g];
    }
  }

  /** The grouping loop: groups in a list, a map from keys to places in it. */
  method CollectGroups(rows: seq<Row>, g: nat) returns (groups: seq<Group>)
    requires Has(rows, g)
    ensures exists firsts :: Partition(rows, g, groups, firsts)
  {
    groups := [];
    ghost var firsts: seq<nat> := [];
    var index: map<Value, nat> := map[];
    for n := 0 to |rows|
      invariant SoFar(rows, g, n, groups, index, firsts)
    {
      var key := rows[n][g];
      if key in index {
        JoinStep(rows, g, n, groups, index, firsts);
        var i := index[key];
        groups := groups[i := groups[i].(rows := groups[i].rows + [rows[n]])];
      } else {
        OpenStep(rows, g, n, groups, index, firsts);
        index := index[key := |groups|];
        groups := groups + [Group(key, [rows[n]])];
        firsts := firsts + [n];
      }
    }
    AllGrouped(rows, g, groups, index, firsts);
  }

  /** The rows grouped by the column of that name; None is an error, a column that does not exist. */
  method GroupRows(name: Bytes, columns: seq<Bytes>, rows: seq<Row>) returns (r: Option<seq<Group>>)
    requires AllFit(columns, rows)
    ensures r.None? <==> name !in columns
    ensures r.Some? ==> exists firsts :: Partition(rows, IndexOf(columns, name).value, r.value, firsts)
  {
    var g := IndexOf(columns, name);
    if g.None? {
      return None;
    }
    var groups := CollectGroups(rows, g.value);
    r := Some(groups);
  }

  /** The rows of a group are those with its key, in order. */
  lemma {:induction false} WithKeyIsPicked(rows: seq<Row>, g: nat, k: Value, wanted: seq<bool>)
    requires Has(rows, g) && |wanted| == |rows| && forall i :: 0 <= i < |rows| ==> (wanted[i] <==> rows[i][g] == k)
    ensures WithKey(rows, g, k) == Picked(rows, wanted)
  {
    if rows != [] {
      WithKeyIsPicked(rows[..|rows| - 1], g, k, wanted[..|rows| - 1]);
    }
  }

  lemma WithKeyKeeps(rows: seq<Row>, g: nat, k: Value, wanted: seq<bool>)
    requires Has(rows, g) && |wanted| == |rows| && forall i :: 0 <= i < |rows| ==> (wanted[i] <==> rows[i][g] == k)
    ensures Keeps(rows, wanted, WithKey(rows, g, k))
  {
    WithKeyIsPicked(rows, g, k, wanted);
    PickedAt(rows, wanted);
    PlacesMarked(wanted);
    assert KeptFrom(rows, wanted, WithKey(rows, g, k), Places(wanted));
  }

  // ---- COUNT ----

  function Count(rows: seq<Row>, c: nat): nat
    requires Has(rows, c)
  {
    if rows == [] then 0 else Count(rows[..|rows| - 1], c) + if rows[|rows| - 1][c].Null? then 0 else 1
  }

  /** COUNT; None is its error, a column that does not exist. */
  method CountColumn(name: Bytes, columns: seq<Bytes>, rows: seq<Row>) returns (r: Option<nat>)
    requires AllFit(columns, rows)
    ensures r.None? <==> name !in columns
    ensures r.Some? ==> r.value == Count(rows, IndexOf(columns, name).value)
  {
    var index := IndexOf(columns, name);
    if index.None? {
      return None;
    }
    var c, count := index.value, 0;
    for n := 0 to |rows|
      invariant count == Count(rows[..n], c)
    {
      assert rows[..n + 1][..n] == rows[..n];
      if !rows[n][c].Null? {
        count := count + 1;
      }
    }
    assert rows[..|rows|] == rows;
    r := Some(count);
  }

  lemma {:induction false} CountIsSize(rows: seq<Row>, c: nat)
    requires Has(rows, c)
    ensures Count(rows, c) == |set i | 0 <= i < |rows| && !rows[i][c].Null?|
  {
    if rows != [] {
      var n := |rows| - 1;
      CountIsSize(rows[..n], c);
      var before, after := set i | 0 <= i < n && !rows[..n][i][c].Null?, set i | 0 <= i < |rows| && !rows[i][c].Null?;
      assert after == before + (if rows[n][c].Null? then {} else {n});
    }
  }

  lemma {:induction false} WithKeyHas(rows: seq<Row>, g: nat, k: Value, c: nat)
    requires Has(rows, g) && Has(rows, c)
    ensures Has(WithKey(rows, g, k), c) && forall r :: r in WithKey(rows, g, k) <==> r in rows && r[g] == k
  {
    if rows != [] {
      WithKeyHas(rows[..|rows| - 1], g, k, c);
      assert forall r :: r in rows <==> r in rows[..|rows| - 1] || r == rows[|rows| - 1];
    }
  }

  /** The counts of the groups of these keys, added up. */
  ghost function CountSum(rows: seq<Row>, g: nat, c: nat, keys: seq<Value>): nat
    requires Has(rows, g) && Has(rows, c)
  {
    if keys == [] then 0
    else
      WithKeyHas(rows, g, keys[|keys| - 1], c);
      CountSum(rows, g, c, keys[..|keys| - 1]) + Count(WithKey(rows, g, keys[|keys| - 1]), c)
  }

  ghost predicate DistinctKeys(keys: seq<Value>) {
    forall i, j :: 0 <= i < j < |keys| ==> keys[i] != keys[j]
  }

  lemma CountSnoc(rows: seq<Row>, r: Row, c: nat)
    requires Has(rows, c) && c < |r|
    ensures Has(rows + [r], c) && Count(rows + [r], c) == Count(rows, c) + if r[c].Null? then 0 else 1
  {
    assert (rows + [r])[..|rows|] == rows;
  }

  lemma WithKeySnoc(rows: seq<Row>, r: Row, g: nat, k: Value)
    requires Has(rows, g) && g < |r|
    ensures Has(rows + [r], g)
    ensures WithKey(rows + [r], g, k) == if r[g] == k then WithKey(rows, g, k) + [r] else WithKey(rows, g, k)
  {
    assert (rows + [r])[..|rows|] == rows;
  }

  lemma OneMore(rows: seq<Row>, r: Row, g: nat, c: nat, k: Value)
    requires Has(rows, g) && Has(rows, c) && g < |r| && c < |r|
    ensures Has(rows + [r], g) && Has(rows + [r], c) && Has(WithKey(rows, g, k), c) && Has(WithKey(rows + [r], g, k), c)
    ensures Count(WithKey(rows + [r], g, k), c) ==
            Count(WithKey(rows, g, k), c) + if r[g] == k && !r[c].Null? then 1 else 0
  {
    WithKeyHas(rows, g, k, c);
    WithKeySnoc(rows, r, g, k);
    CountSnoc(WithKey(rows, g, k), r, c);
  }

  lemma {:induction false} CountSumStep(rows: seq<Row>, r: Row, g: nat, c: nat, keys: seq<Value>)
    requires Has(rows, g) && Has(rows, c) && g < |r| && c < |r| && DistinctKeys(keys)
    ensures Has(rows + [r], g) && Has(rows + [r], c)
    ensures CountSum(rows + [r], g, c, keys) ==
            CountSum(rows, g, c, keys) + if r[g] in keys && !r[c].Null? then 1 else 0
  {
    if keys != [] {
      var init, k := keys[..|keys| - 1], keys[|keys| - 1];
      CountSumStep(rows, r, g, c, init);
      OneMore(rows, r, g, c, k);
      assert r[g] in keys <==> r[g] in init || r[g] == k;
    }
  }

  /** The counts of the groups add up to the count of all rows. */
  lemma {:induction false} CountsAddUp(rows: seq<Row>, g: nat, c: nat, keys: seq<Value>)
    requires Has(rows, g) && Has(rows, c) && DistinctKeys(keys)
    requires forall j :: 0 <= j < |rows| ==> rows[j][g] in keys
    ensures CountSum(rows, g, c, keys) == Count(rows, c)
  {
    if rows == [] {
      NoCounts(g, c, keys);
    } else {
      var init, r := rows[..|rows| - 1], rows[|rows| - 1];
      CountsAddUp(init, g, c, keys);
      assert init + [r] == rows;
      CountSumStep(init, r, g, c, keys);
    }
  }

  lemma {:induction false} NoCounts(g: nat, c: nat, keys: seq<Value>)
    ensures CountSum([], g, c, keys) == 0
  {
    if keys != [] {
      NoCounts(g, c, keys[..|keys| - 1]);
    }
  }

  ghost function KeysOf(groups: seq<Group>): (keys: seq<Value>)
    ensures |keys| == |groups| && forall i :: 0 <= i < |groups| ==> keys[i] == groups[i].key
  {
    seq(|groups|, i requires 0 <= i < |groups| => groups[i].key)
  }

  lemma KeysDistinct(rows: seq<Row>, g: nat, groups: seq<Group>, firsts: seq<nat>)
    requires Has(rows, g) && Partition(rows, g, groups, firsts)
    ensures DistinctKeys(KeysOf(groups)) && forall j :: 0 <= j < |rows| ==> rows[j][g] in KeysOf(groups)
  {
    var keys := KeysOf(groups);
    forall i, j | 0 <= i < j < |keys|
      ensures keys[i] != keys[j]
    {
      assert FirstAt(rows, g, groups[i].key, firsts[i]) && FirstAt(rows, g, groups[j].key, firsts[j]);
    }
    forall j | 0 <= j < |rows|
      ensures rows[j][g] in keys
    {
      var i :| 0 <= i < |groups| && groups[i].key == rows[j][g];
      assert keys[i] == rows[j][g];
    }
  }

  ghost function TotalCount(groups: seq<Group>, c: nat): nat
    requires forall i :: 0 <= i < |groups| ==> Has(groups[i].rows, c)
  {
    if groups == [] then 0 else TotalCount(groups[..|groups| - 1], c) + Count(groups[|groups| - 1].rows, c)
  }

  lemma {:induction false} TotalIsSum(rows: seq<Row>, g: nat, c: nat, groups: seq<Group>)
    requires Has(rows, g) && Has(rows, c) && Complete(rows, g, groups)
    ensures forall i :: 0 <= i < |groups| ==> Has(groups[i].rows, c)
    ensures TotalCount(groups, c) == CountSum(rows, g, c, KeysOf(groups))
  {
    forall i | 0 <= i < |groups|
      ensures Has(groups[i].rows, c)
    {
      WithKeyHas(rows, g, groups[i].key, c);
    }
    if groups != [] {
      TotalIsSum(rows, g, c, groups[..|groups| - 1]);
      assert KeysOf(groups)[..|groups| - 1] == KeysOf(groups[..|groups| - 1]);
    }
  }

  /** The counts per group add up to the ungrouped count. */
  lemma GroupCounts(rows: seq<Row>, g: nat, c: nat, groups: seq<Group>, firsts: seq<nat>)
    requires Has(rows, g) && Has(rows, c) && Partition(rows, g, groups, firsts)
    ensures forall i :: 0 <= i < |groups| ==> Has(groups[i].rows, c)
    ensures TotalCount(groups, c) == Count(rows, c)
  {
    KeysDistinct(rows, g, groups, firsts);
    TotalIsSum(rows, g, c, groups);
    CountsAddUp(rows, g, c, KeysOf(groups));
  }

  // ---- MIN and MAX ----

  /** a is at least as good an extreme as b. */
  predicate Beats(minimum: bool, a: Value, b: Value) {
    Compare(a, b).Some? && if minimum then Compare(a, b).value <= 0 else Compare(a, b).value >= 0
  }

  /** Which it is if they are of one kind and b is not below a, or not above it for a maximum. */
  lemma BeatsExact(minimum: bool, a: Value, b: Value)
    requires !a.Null? && !b.Null?
    ensures Beats(minimum, a, b) <==> Kindred(a, b) && if minimum then !Below(b, a) else !Below(a, b)
    ensures Clash(a, b) <==> !Kindred(a, b)
  {
    CompareExact(a, b);
  }

  ghost predicate HasCell(rows: seq<Row>, c: nat, v: Value)
    requires Has(rows, c)
  {
    exists i :: 0 <= i < |rows| && rows[i][c] == v
  }

  /** NULL if there is nothing else; otherwise a cell that beats all the others. */
  ghost predicate IsExtreme(rows: seq<Row>, c: nat, minimum: bool, v: Value)
    requires Has(rows, c)
  {
    if v.Null? then forall i :: 0 <= i < |rows| ==> rows[i][c].Null?
    else
      && HasCell(rows, c, v)
      && (forall i :: 0 <= i < |rows| && !rows[i][c].Null? ==> Beats(minimum, v, rows[i][c]))
  }

  /** The non-NULL cells of the column have one type. */
  ghost predicate Uniform(rows: seq<Row>, c: nat)
    requires Has(rows, c)
  {
    forall i, j :: 0 <= i < |rows| && 0 <= j < |rows| && !rows[i][c].Null? && !rows[j][c].Null? ==>
      SameType(rows[i][c], rows[j][c])
  }

  /** A column of a table has one type. */
  lemma TableColumnUniform(t: Table, rows: seq<Row>, c: nat)
    requires c < |t.columns| && forall i :: 0 <= i < |rows| ==> ValidRow(t, rows[i])
    ensures Has(rows, c) && Uniform(rows, c)
  {
    forall i | 0 <= i < |rows|
      ensures c < |rows[i]| && ValidCell(t.columns[c], rows[i][c])
    {
      assert ValidRow(t, rows[i]);
    }
  }

  lemma BeatsTransitive(minimum: bool, u: Value, v: Value, w: Value)
    requires SameType(u, v) && SameType(v, w)
    ensures Beats(minimum, u, u)
    ensures Beats(minimum, u, v) || Beats(minimum, v, u)
    ensures Beats(minimum, u, v) && Beats(minimum, v, w) ==> Beats(minimum, u, w)
    ensures Beats(minimum, u, v) && Beats(minimum, v, u) ==> u == v
  {
    CompareSwaps(u, v);
    CompareSwaps(v, w);
    CompareSwaps(u, w);
    CompareOrders(u, v, w);
    CompareOrders(w, v, u);
    CompareOrders(u, u, u);
  }

  /** A tie keeps the value found first; None is a comparison that fails. */
  function Better(minimum: bool, current: Value, extreme: Value): Option<Value> {
    match Compare(current, extreme)
    case None => None
    case Some(d) => Some(if (minimum && d < 0) || (!minimum && d > 0) then current else extreme)
  }

  /** The extreme after one more row. */
  function NextExtreme(minimum: bool, current: Value, extreme: Value): Option<Value> {
    if current.Null? then Some(extreme) else if extreme.Null? then Some(current) else Better(minimum, current, extreme)
  }

  function Extreme(rows: seq<Row>, c: nat, minimum: bool): Option<Value>
    requires Has(rows, c)
  {
    if rows == [] then Some(Null)
    else match Extreme(rows[..|rows| - 1], c, minimum)
      case None => None
      case Some(v) => NextExtreme(minimum, rows[|rows| - 1][c], v)
  }

  lemma {:induction false} FailedEarlier(rows: seq<Row>, c: nat, minimum: bool, n: nat)
    requires Has(rows, c) && n <= |rows| && Has(rows[..n], c) && Extreme(rows[..n], c, minimum).None?
    ensures Extreme(rows, c, minimum).None?
  {
    if n == |rows| {
      assert rows[..n] == rows;
    } else {
      assert rows[..|rows| - 1][..n] == rows[..n];
      FailedEarlier(rows[..|rows| - 1], c, minimum, n);
    }
  }

  /** Two cells of the column that cannot be compared. */
  ghost predicate Clashing(rows: seq<Row>, c: nat)
    requires Has(rows, c)
  {
    exists i, j :: 0 <= i < |rows| && 0 <= j < |rows| && Clash(rows[i][c], rows[j][c])
  }

  predicate Clash(v: Value, w: Value) {
    !v.Null? && !w.Null? && Compare(v, w).None?
  }

  lemma ClashingLater(rows: seq<Row>, c: nat, n: nat)
    requires Has(rows, c) && n <= |rows| && Has(rows[..n], c) && Clashing(rows[..n], c)
    ensures Clashing(rows, c)
  {
    var i, j :| 0 <= i < n && 0 <= j < n && Clash(rows[..n][i][c], rows[..n][j][c]);
    assert Clash(rows[i][c], rows[j][c]);
  }

  lemma ExtremeNeverClashes(rows: seq<Row>, c: nat, minimum: bool, v: Value)
    requires Has(rows, c) && IsExtreme(rows, c, minimum, v)
    ensures !Clashing(rows, c)
  {
    forall i, j | 0 <= i < |rows| && 0 <= j < |rows| && !rows[i][c].Null? && !rows[j][c].Null?
      ensures Compare(rows[i][c], rows[j][c]).Some?
    {
      CompareSwaps(v, rows[i][c]);
      ComparableTransitive(rows[i][c], v, rows[j][c]);
    }
  }

  lemma BetterBeats(minimum: bool, current: Value, extreme: Value, w: Value)
    requires Comparable(current, extreme) && !w.Null? && (Beats(minimum, extreme, w) || w == current)
    ensures Beats(minimum, Better(minimum, current, extreme).value, w)
  {
    CompareSwaps(current, extreme);
    CompareSwaps(current, w);
    CompareSwaps(extreme, w);
    if w != current {
      StrictChains(current, extreme, w);
      StrictChains(w, extreme, current);
    }
  }

  lemma BetterIsExtreme(rows: seq<Row>, c: nat, minimum: bool, current: Row, extreme: Value)
    requires Has(rows, c) && c < |current| && IsExtreme(rows, c, minimum, extreme)
    requires Comparable(current[c], extreme)
    ensures Has(rows + [current], c)
            && IsExtreme(rows + [current], c, minimum, Better(minimum, current[c], extreme).value)
  {
    var all, v := rows + [current], Better(minimum, current[c], extreme).value;
    var i :| 0 <= i < |rows| && rows[i][c] == extreme;
    assert all[i][c] == extreme && all[|rows|][c] == current[c];
    forall j | 0 <= j < |all| && !all[j][c].Null?
      ensures Beats(minimum, v, all[j][c])
    {
      BetterBeats(minimum, current[c], extreme, all[j][c]);
    }
  }

  lemma NextIsExtreme(rows: seq<Row>, c: nat, minimum: bool, current: Row, extreme: Value)
    requires Has(rows, c) && c < |current| && IsExtreme(rows, c, minimum, extreme)
    ensures Has(rows + [current], c)
    ensures match NextExtreme(minimum, current[c], extreme)
            case None => Clashing(rows + [current], c)
            case Some(v) => IsExtreme(rows + [current], c, minimum, v)
  {
    var all := rows + [current];
    assert forall i :: 0 <= i < |rows| ==> all[i] == rows[i];
    if current[c].Null? || extreme.Null? {
      NextOfNull(rows, c, minimum, current, extreme);
    } else if Compare(current[c], extreme).None? {
      var i :| 0 <= i < |rows| && rows[i][c] == extreme;
      assert Clash(all[|rows|][c], all[i][c]);
    } else {
      BetterIsExtreme(rows, c, minimum, current, extreme);
    }
  }

  lemma NextOfNull(rows: seq<Row>, c: nat, minimum: bool, current: Row, extreme: Value)
    requires Has(rows, c) && c < |current| && IsExtreme(rows, c, minimum, extreme)
    requires current[c].Null? || extreme.Null?
    ensures Has(rows + [current], c)
    ensures IsExtreme(rows + [current], c, minimum, if current[c].Null? then extreme else current[c])
  {
    var all := rows + [current];
    assert forall i :: 0 <= i < |rows| ==> all[i][c] == rows[i][c];
    assert all[|rows|][c] == current[c];
    CompareSwaps(current[c], current[c]);
    if !extreme.Null? {
      var i :| 0 <= i < |rows| && rows[i][c] == extreme;
      assert all[i][c] == extreme;
    }
  }

  /** MIN and MAX fail exactly if two cells cannot be compared; otherwise the result is the extreme. */
  lemma {:induction false} ExtremeExact(rows: seq<Row>, c: nat, minimum: bool)
    requires Has(rows, c)
    ensures Extreme(rows, c, minimum).None? <==> Clashing(rows, c)
    ensures Extreme(rows, c, minimum).Some? ==> IsExtreme(rows, c, minimum, Extreme(rows, c, minimum).value)
  {
    if rows != [] {
      var init, last := rows[..|rows| - 1], rows[|rows| - 1];
      assert init + [last] == rows;
      ExtremeExact(init, c, minimum);
      var r := Extreme(init, c, minimum);
      if r.None? {
        ClashingLater(rows, c, |rows| - 1);
      } else {
        NextIsExtreme(init, c, minimum, last, r.value);
        if v :| NextExtreme(minimum, last[c], r.value) == Some(v) {
          ExtremeNeverClashes(rows, c, minimum, v);
        }
      }
    }
  }

  /** One more row changes the extreme only if its cell is beyond it: in a tie the value found first stays. */
  lemma TieKeepsFirst(rows: seq<Row>, c: nat, minimum: bool, v: Value, current: Row)
    requires Has(rows, c) && c < |current| && Extreme(rows, c, minimum) == Some(v)
    requires !v.Null? && !current[c].Null? && Kindred(current[c], v)
    ensures Has(rows + [current], c)
    ensures var beyond := if minimum then Below(current[c], v) else Below(v, current[c]);
            Extreme(rows + [current], c, minimum) == Some(if beyond then current[c] else v)
  {
    assert (rows + [current])[..|rows|] == rows;
    CompareExact(current[c], v);
  }

  /** The loop of `calculateExtreme`; None is a comparison that failed. */
  method ExtremeOfColumn(rows: seq<Row>, c: nat, minimum: bool) returns (r: Option<Value>)
    requires Has(rows, c)
    ensures r == Extreme(rows, c, minimum)
  {
    var extreme, found := Null, false;
    for n := 0 to |rows|
      invariant Has(rows[..n], c) && Extreme(rows[..n], c, minimum) == Some(extreme)
      invariant found <==> !extreme.Null?
    {
      var current := rows[n][c];
      assert rows[..n + 1][..n] == rows[..n];
      if current.Null? {
        continue;
      }
      if !found {
        extreme, found := current, true;
        continue;
      }
      var comparison := Compare(current, extreme);
      if comparison.None? {
        FailedEarlier(rows, c, minimum, n + 1);
        return None;
      }
      if (minimum && comparison.value < 0) || (!minimum && comparison.value > 0) {
        extreme := current;
      }
    }
    assert rows[..|rows|] == rows;
    r := Some(extreme);
  }

  /** `calculateExtreme`; None is its error. */
  method CalculateExtreme(name: Bytes, columns: seq<Bytes>, rows: seq<Row>, minimum: bool) returns (r: Option<Value>)
    requires AllFit(columns, rows)
    ensures r.None? <==> name !in columns || Clashing(rows, IndexOf(columns, name).value)
    ensures r.Some? ==> IsExtreme(rows, IndexOf(columns, name).value, minimum, r.value)
  {
    var c := IndexOf(columns, name);
    if c.None? {
      return None;
    }
    ExtremeExact(rows, c.value, minimum);
    r := ExtremeOfColumn(rows, c.value, minimum);
  }

  /** On a column of one type there is no error, and the result is the extreme. */
  lemma ExtremeIsExtreme(rows: seq<Row>, c: nat, minimum: bool)
    requires Has(rows, c) && Uniform(rows, c)
    ensures Extreme(rows, c, minimum).Some? && IsExtreme(rows, c, minimum, Extreme(rows, c, minimum).value)
  {
    ExtremeExact(rows, c, minimum);
    if Clashing(rows, c) {
      var i, j :| 0 <= i < |rows| && 0 <= j < |rows| && Clash(rows[i][c], rows[j][c]);
      CompareOrders(rows[i][c], rows[j][c], rows[j][c]);
    }
  }

  // ---- Extremes of groups ----

  lemma CellsSameType(rows: seq<Row>, c: nat, u: Value, v: Value)
    requires Has(rows, c) && Uniform(rows, c) && HasCell(rows, c, u) && HasCell(rows, c, v) && !u.Null? && !v.Null?
    ensures SameType(u, v)
  {
  }

  lemma ExtremeBeats(rows: seq<Row>, c: nat, minimum: bool, e: Value, v: Value)
    requires Has(rows, c) && IsExtreme(rows, c, minimum, e) && HasCell(rows, c, v) && !v.Null?
    ensures !e.Null? && Beats(minimum, e, v)
  {
  }

  lemma PartCells(rows: seq<Row>, g: nat, c: nat, k: Value, v: Value)
    requires Has(rows, g) && Has(rows, c)
    ensures Has(WithKey(rows, g, k), c) && (HasCell(WithKey(rows, g, k), c, v) ==> HasCell(rows, c, v))
  {
    WithKeyHas(rows, g, k, c);
    if HasCell(WithKey(rows, g, k), c, v) {
      var i :| 0 <= i < |WithKey(rows, g, k)| && WithKey(rows, g, k)[i][c] == v;
      assert WithKey(rows, g, k)[i] in rows;
    }
  }

  lemma PartUniform(rows: seq<Row>, g: nat, c: nat, k: Value)
    requires Has(rows, g) && Has(rows, c) && Uniform(rows, c)
    ensures Has(WithKey(rows, g, k), c) && Uniform(WithKey(rows, g, k), c)
  {
    var ws: seq<Row> := WithKey(rows, g, k);
    WithKeyHas(rows, g, k, c);
    forall i, j | 0 <= i < |ws| && 0 <= j < |ws| && !ws[i][c].Null? && !ws[j][c].Null?
      ensures SameType(ws[i][c], ws[j][c])
    {
      PartCells(rows, g, c, k, ws[i][c]);
      PartCells(rows, g, c, k, ws[j][c]);
      CellsSameType(rows, c, ws[i][c], ws[j][c]);
    }
  }

  /** One row a group, holding the group's extreme. */
  ghost predicate Extremes(groups: seq<Group>, c: nat, minimum: bool, es: seq<Row>) {
    |es| == |groups| && Has(es, 0) &&
    forall i :: 0 <= i < |groups| ==> Has(groups[i].rows, c) && Extreme(groups[i].rows, c, minimum) == Some(es[i][0])
  }

  /** A group's extreme is NULL or a cell of the column. */
  lemma GroupExtreme(rows: seq<Row>, g: nat, c: nat, minimum: bool, groups: seq<Group>, es: seq<Row>, i: nat)
    requires Has(rows, g) && Has(rows, c) && Uniform(rows, c) && Complete(rows, g, groups)
    requires Extremes(groups, c, minimum, es) && i < |groups|
    ensures IsExtreme(groups[i].rows, c, minimum, es[i][0]) && (es[i][0].Null? || HasCell(rows, c, es[i][0]))
  {
    PartUniform(rows, g, c, groups[i].key);
    ExtremeIsExtreme(groups[i].rows, c, minimum);
    PartCells(rows, g, c, groups[i].key, es[i][0]);
  }

  /** The extreme of all rows is the extreme of its own group. */
  lemma ExtremeFound(
    rows: seq<Row>, g: nat, c: nat, minimum: bool, groups: seq<Group>, firsts: seq<nat>, es: seq<Row>, e: Value)
    returns (i: nat)
    requires Has(rows, g) && Has(rows, c) && Uniform(rows, c) && Partition(rows, g, groups, firsts)
    requires Extremes(groups, c, minimum, es)
    requires IsExtreme(rows, c, minimum, e) && !e.Null?
    ensures i < |es| && es[i][0] == e
  {
    var n :| 0 <= n < |rows| && rows[n][c] == e;
    i :| 0 <= i < |groups| && groups[i].key == rows[n][g];
    var ws: seq<Row> := groups[i].rows;
    WithKeyHas(rows, g, groups[i].key, c);
    assert rows[n] in ws;
    var m :| 0 <= m < |ws| && ws[m] == rows[n];
    assert ws[m][c] == e;
    GroupExtreme(rows, g, c, minimum, groups, es, i);
    ExtremeBeats(ws, c, minimum, es[i][0], e);
    ExtremeBeats(rows, c, minimum, e, es[i][0]);
    CellsSameType(rows, c, e, es[i][0]);
    BeatsTransitive(minimum, e, es[i][0], e);
  }

  /** On a column of one type, the extreme of the groups' extremes is the ungrouped extreme. */
  lemma ExtremeOfExtremes(
    rows: seq<Row>, g: nat, c: nat, minimum: bool, groups: seq<Group>, firsts: seq<nat>, es: seq<Row>)
    requires Has(rows, g) && Has(rows, c) && Uniform(rows, c) && Partition(rows, g, groups, firsts)
    requires Extremes(groups, c, minimum, es)
    ensures Extreme(es, 0, minimum) == Extreme(rows, c, minimum)
  {
    ExtremeIsExtreme(rows, c, minimum);
    var e := Extreme(rows, c, minimum).value;
    forall i | 0 <= i < |es|
      ensures es[i][0].Null? || HasCell(rows, c, es[i][0])
      ensures !es[i][0].Null? ==> !e.Null? && Beats(minimum, e, es[i][0])
    {
      GroupExtreme(rows, g, c, minimum, groups, es, i);
      if !es[i][0].Null? {
        ExtremeBeats(rows, c, minimum, e, es[i][0]);
      }
    }
    forall i, j | 0 <= i < |es| && 0 <= j < |es| && !es[i][0].Null? && !es[j][0].Null?
      ensures SameType(es[i][0], es[j][0])
    {
      CellsSameType(rows, c, es[i][0], es[j][0]);
    }
    if !e.Null? {
      var i := ExtremeFound(rows, g, c, minimum, groups, firsts, es, e);
      assert HasCell(es, 0, e);
    }
    assert IsExtreme(es, 0, minimum, e);
    ExtremeIsExtreme(es, 0, minimum);
    ExtremeUnique(es, minimum, e, Extreme(es, 0, minimum).value);
  }

  lemma ExtremeUnique(es: seq<Row>, minimum: bool, e: Value, f: Value)
    requires Has(es, 0) && Uniform(es, 0) && IsExtreme(es, 0, minimum, e) && IsExtreme(es, 0, minimum, f)
    ensures e == f
  {
    if !e.Null? && !f.Null? {
      CellsSameType(es, 0, e, f);
      ExtremeBeats(es, 0, minimum, e, f);
      ExtremeBeats(es, 0, minimum, f, e);
      BeatsTransitive(minimum, e, f, e);
    }
  }
}
