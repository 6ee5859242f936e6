/** Rows and tables over whole runs: the committed contents stay sound however statements interleave. */
module RowHistories {
  import opened ByteStrings
  import opened RowKeys
  import opened RowStores
  import opened RowTraces
  import opened MvccProtocol
  import opened SnapshotIsolation
  import opened MvccSimulation
  import opened MvccHistories

  /** The committed contents before and after each commit. */
  ghost function States(hist: seq<Committed>): (states: seq<View>)
    ensures |states| == |hist| + 1
    ensures forall n :: 0 <= n <= |hist| ==> states[n] == StateAfter(hist[..n])
  {
    seq(|hist| + 1, n requires 0 <= n <= |hist| => StateAfter(hist[..n]))
  }

  ghost predicate Linked(hist: seq<Committed>, states: seq<View>) {
    |states| == |hist| + 1 && forall n :: 0 <= n < |hist| ==> states[n + 1] == Overlay(states[n], hist[n].writes)
  }

  lemma NextState(hist: seq<Committed>, n: nat)
    requires n < |hist|
    ensures StateAfter(hist[..n + 1]) == Overlay(StateAfter(hist[..n]), hist[n].writes)
  {
    var h := hist[..n + 1];
    assert h != [] && h[..|h| - 1] == hist[..n] && h[|h| - 1] == hist[n];
  }

  lemma StatesLinked(hist: seq<Committed>)
    ensures Linked(hist, States(hist))
  {
    forall n | 0 <= n < |hist|
      ensures States(hist)[n + 1] == Overlay(States(hist)[n], hist[n].writes)
    {
      NextState(hist, n);
    }
  }

  /** Of two committed writers of a key, the first committed before the second began. */
  ghost predicate OneAtATime(hist: seq<Committed>) {
    && (forall i :: 0 <= i < |hist| ==> hist[i].start <= i)
    && (forall i, j, k :: 0 <= i < j < |hist| && k in hist[i].writes && k in hist[j].writes ==> i < hist[j].start)
  }

  /** What `KvTransaction` guarantees of each transaction: from a sound snapshot, disciplined writes. */
  ghost predicate AllDisciplined(c: Codec, hist: seq<Committed>, states: seq<View>) {
    |states| == |hist| + 1 &&
    forall i :: 0 <= i < |hist| && hist[i].start <= i && Sound(c, states[hist[i].start]) ==>
      Disciplined(c, states[hist[i].start], hist[i].writes)
  }

  lemma {:induction false} Unwritten(hist: seq<Committed>, states: seq<View>, s: nat, n: nat, k: Bytes)
    requires Linked(hist, states) && s <= n <= |hist| && forall j :: s <= j < n ==> k !in hist[j].writes
    ensures Same(states[s], states[n], k)
    decreases n
  {
    if s < n {
      Unwritten(hist, states, s, n - 1, k);
      assert states[(n - 1) + 1] == Overlay(states[n - 1], hist[n - 1].writes);
    }
  }

  /** A key the n-th transaction writes is as it was in its snapshot. */
  lemma WrittenUnchanged(hist: seq<Committed>, states: seq<View>, n: nat, k: Bytes)
    requires Linked(hist, states) && OneAtATime(hist) && n < |hist| && k in hist[n].writes
    ensures Same(states[hist[n].start], states[n], k)
  {
    Unwritten(hist, states, hist[n].start, n, k);
  }

  /** No transaction before the n-th writes a table of its own snapshot. */
  ghost predicate TablesKeptBefore(hist: seq<Committed>, states: seq<View>, n: nat)
    requires n <= |hist| < |states| && OneAtATime(hist)
  {
    forall i :: 0 <= i < n ==> TablesKept(states[hist[i].start], hist[i].writes)
  }

  /** A commit leaves the tables committed before it alone. */
  lemma TableUnwritten(hist: seq<Committed>, states: seq<View>, i: nat, name: Bytes)
    requires Linked(hist, states) && OneAtATime(hist) && i < |hist| && TablesKept(states[hist[i].start], hist[i].writes)
    requires NoZero(name) && TableKey(name) in states[i]
    ensures TableKey(name) !in hist[i].writes
  {
    if TableKey(name) in hist[i].writes {
      WrittenUnchanged(hist, states, i, TableKey(name));
    }
  }

  /** A table once committed stays as it is. */
  lemma {:induction false} TablePersists(hist: seq<Committed>, states: seq<View>, s: nat, n: nat, name: Bytes)
    requires Linked(hist, states) && OneAtATime(hist) && s <= n <= |hist| && TablesKeptBefore(hist, states, n)
    requires NoZero(name) && TableKey(name) in states[s]
    ensures Same(states[s], states[n], TableKey(name))
    decreases n
  {
    if s < n {
      TablePersists(hist, states, s, n - 1, name);
      TableUnwritten(hist, states, n - 1, name);
      Unwritten(hist, states, n - 1, n, TableKey(name));
    }
  }

  /** The writes of one transaction, sound over its snapshot, are sound over the later contents as well. */
  lemma RebasedSound(c: Codec, snapshot: View, now: View, w: WriteSet)
    requires Sound(c, now) && Sound(c, Overlay(snapshot, w))
    requires forall k :: k in w ==> Same(snapshot, now, k)
    requires forall name :: NoZero(name) && TableKey(name) in snapshot ==> Same(snapshot, now, TableKey(name))
    requires forall name :: NoZero(name) && TableKey(name) in now ==> TableKey(name) !in w
    ensures Sound(c, Overlay(now, w))
  {
    var before, after := Overlay(snapshot, w), Overlay(now, w);
    assert forall t :: TableAt(c, now, t) ==> TableAt(c, after, t);
    assert forall t :: TableAt(c, before, t) ==> TableAt(c, after, t);
    forall key | key in after
      ensures SoundAt(c, after, key)
    {
      if key in w {
        assert SoundAt(c, before, key);
        if t, row :| RowAt(c, before, key, t, row) {
          assert RowAt(c, after, key, t, row);
        }
      } else {
        assert SoundAt(c, now, key);
        if t, row :| RowAt(c, now, key, t, row) {
          assert RowAt(c, after, key, t, row);
        }
      }
    }
  }

  lemma NextSound(c: Codec, hist: seq<Committed>, states: seq<View>, n: nat)
    requires Linked(hist, states) && OneAtATime(hist) && n < |hist| && TablesKeptBefore(hist, states, n + 1)
    requires Sound(c, states[n]) && Sound(c, Overlay(states[hist[n].start], hist[n].writes))
    ensures Sound(c, states[n + 1])
  {
    var snapshot, now, w := states[hist[n].start], states[n], hist[n].writes;
    forall k | k in w
      ensures Same(snapshot, now, k)
    {
      WrittenUnchanged(hist, states, n, k);
    }
    forall name | NoZero(name) && TableKey(name) in snapshot
      ensures Same(snapshot, now, TableKey(name))
    {
      TablePersists(hist, states, hist[n].start, n, name);
    }
    forall name | NoZero(name) && TableKey(name) in now
      ensures TableKey(name) !in w
    {
      TableUnwritten(hist, states, n, name);
    }
    RebasedSound(c, snapshot, now, w);
  }

  ghost predicate SoundUpTo(c: Codec, states: seq<View>, n: nat) {
    n < |states| && forall m :: 0 <= m <= n ==> Sound(c, states[m])
  }

  lemma {:induction false} HistorySound(c: Codec, hist: seq<Committed>, states: seq<View>, n: nat)
    requires Linked(hist, states) && states[0] == map[] && OneAtATime(hist) && AllDisciplined(c, hist, states)
    requires n <= |hist|
    ensures SoundUpTo(c, states, n) && TablesKeptBefore(hist, states, n)
  {
    if n > 0 {
      HistorySound(c, hist, states, n - 1);
      assert Sound(c, states[hist[n - 1].start]);
      assert Disciplined(c, states[hist[n - 1].start], hist[n - 1].writes);
      NextSound(c, hist, states, n - 1);
    }
  }

  // ---- Runs of the row layer ----

  /** Every transaction that can still commit has disciplined writes, and all that did commit had. */
  ghost predicate RunDisciplined(c: Codec, p: Spec)
    requires Numbered(p)
  {
    && AllDisciplined(c, p.hist, States(p.hist))
    && forall v :: v in p.live ==> OpenDisciplined(c, p.hist, p.open[v])
  }

  ghost predicate OpenDisciplined(c: Codec, hist: seq<Committed>, t: Open) {
    t.start <= |hist| && Disciplined(c, StateAfter(hist[..t.start]), t.own)
  }

  lemma CommitDisciplined(c: Codec, hist: seq<Committed>, x: Committed)
    requires AllDisciplined(c, hist, States(hist)) && OpenDisciplined(c, hist, Open(x.start, x.writes))
    ensures AllDisciplined(c, hist + [x], States(hist + [x]))
    ensures forall t :: OpenDisciplined(c, hist, t) ==> OpenDisciplined(c, hist + [x], t)
  {
    assert forall n :: 0 <= n <= |hist| ==> (hist + [x])[..n] == hist[..n];
  }

  lemma NoWritesDisciplined(c: Codec, view: View)
    requires Sound(c, view)
    ensures Disciplined(c, view, map[])
  {
    assert Overlay(view, map[]) == view;
  }

  lemma ContentsSound(c: Codec, hist: seq<Committed>, n: nat)
    requires OneAtATime(hist) && AllDisciplined(c, hist, States(hist)) && n <= |hist|
    ensures Sound(c, StateAfter(hist[..n]))
  {
    StatesLinked(hist);
    assert States(hist)[0] == StateAfter([]) by { assert hist[..0] == []; }
    HistorySound(c, hist, States(hist), |hist|);
    assert States(hist)[n] == StateAfter(hist[..n]);
  }

  lemma BeginDisciplined(c: Codec, hist: seq<Committed>)
    requires OneAtATime(hist) && AllDisciplined(c, hist, States(hist))
    ensures OpenDisciplined(c, hist, Open(|hist|, map[]))
  {
    ContentsSound(c, hist, |hist|);
    NoWritesDisciplined(c, StateAfter(hist[..|hist|]));
  }

  lemma ActionDisciplined(c: Codec, p: Spec, a: Action)
    requires Lossless(c) && Numbered(p) && OneAtATime(p.hist) && RunDisciplined(c, p) && WritesRows(c, p, Do(a))
    ensures Numbered(SpecPerform(p, a)) && RunDisciplined(c, SpecPerform(p, a))
  {
    StepNumbered(p, Do(a));
    match a
    case Begin => BeginDisciplined(c, p.hist);
    case Write(v, k, value) =>
      if v in p.live {
        assert OpenDisciplined(c, p.hist, p.open[v]);
        RowWriteDisciplined(c, StateAfter(p.hist[..p.open[v].start]), p.open[v].own, k, value);
      }
    case Commit(v) =>
      if v in p.live {
        CommitDisciplined(c, p.hist, Committed(v, p.open[v].start, p.open[v].own));
      }
    case Rollback(v) =>
  }

  lemma CrashDisciplined(c: Codec, p: Spec, a: Action, n: nat)
    requires Numbered(p) && RunDisciplined(c, p)
    ensures Numbered(SpecStep(p, Crash(a, n))) && RunDisciplined(c, SpecStep(p, Crash(a, n)))
  {
    StepNumbered(p, Crash(a, n));
    var q := SpecStep(p, Crash(a, n));
    if a.Commit? && a.v in p.live {
      CommitDisciplined(c, p.hist, Committed(a.v, p.open[a.v].start, p.open[a.v].own));
    } else {
      assert q.hist == p.hist && q.live == {};
    }
  }

  lemma StepDisciplined(c: Codec, p: Spec, op: Op)
    requires Lossless(c) && Numbered(p) && OneAtATime(p.hist) && RunDisciplined(c, p) && WritesRows(c, p, op)
    ensures Numbered(SpecStep(p, op)) && RunDisciplined(c, SpecStep(p, op))
  {
    match op
    case Do(a) => ActionDisciplined(c, p, a);
    case Read(_, _) =>
    case Scan(_, _) =>
    case Crash(a, n) => CrashDisciplined(c, p, a, n);
  }

  /** Every write the run asks for is one the row layer makes. */
  ghost predicate RowRun(c: Codec, ops: seq<Op>) {
    ops == [] ||
    var init, op := ops[..|ops| - 1], ops[|ops| - 1];
    RowRun(c, init) && WritesRows(c, SpecRun(SPEC_INIT, init), op)
  }

  lemma RunOneAtATime(ops: seq<Op>)
    ensures OneAtATime(SpecRun(SPEC_INIT, ops).hist)
  {
    SnapshotIsolationHolds(ops);
  }

  lemma OneMoreDisciplined(c: Codec, ops: seq<Op>, op: Op)
    requires Lossless(c) && RunDisciplined(c, SpecRun(SPEC_INIT, ops)) && WritesRows(c, SpecRun(SPEC_INIT, ops), op)
    ensures RunDisciplined(c, SpecRun(SPEC_INIT, ops + [op]))
  {
    RunOneAtATime(ops);
    SpecRunSnoc(SPEC_INIT, ops, op);
    StepDisciplined(c, SpecRun(SPEC_INIT, ops), op);
  }

  lemma NothingRun(c: Codec)
    ensures RunDisciplined(c, SpecRun(SPEC_INIT, []))
  {
  }

  lemma {:induction false} RowRunDisciplined(c: Codec, ops: seq<Op>)
    requires Lossless(c) && RowRun(c, ops)
    ensures RunDisciplined(c, SpecRun(SPEC_INIT, ops))
  {
    if ops == [] {
      NothingRun(c);
    } else {
      var init, op := ops[..|ops| - 1], ops[|ops| - 1];
      assert ops == init + [op];
      RowRunDisciplined(c, init);
      OneMoreDisciplined(c, init, op);
    }
  }

  /**
   In every interleaving of row-layer transactions, with crashes, every committed state, and
   so every snapshot a transaction reads, holds only valid tables and valid rows, each under
   its own key; and no committed table ever changes.
   */
  lemma EveryStateSound(c: Codec, ops: seq<Op>)
    requires Lossless(c) && RowRun(c, ops)
    ensures var p := SpecRun(SPEC_INIT, ops);
            && (forall n :: 0 <= n <= |p.hist| ==> Sound(c, StateAfter(p.hist[..n])))
            && (forall v :: v in p.live ==> Sound(c, SpecView(p, v)))
            && (forall s, n, name ::
                  0 <= s <= n <= |p.hist| && NoZero(name) && TableKey(name) in StateAfter(p.hist[..s]) ==>
                  Same(StateAfter(p.hist[..s]), StateAfter(p.hist[..n]), TableKey(name)))
  {
    RunOneAtATime(ops);
    var p := SpecRun(SPEC_INIT, ops);
    RowRunDisciplined(c, ops);
    forall n | 0 <= n <= |p.hist|
      ensures Sound(c, StateAfter(p.hist[..n]))
    {
      ContentsSound(c, p.hist, n);
    }
    forall v | v in p.live
      ensures Sound(c, SpecView(p, v))
    {
      assert OpenDisciplined(c, p.hist, p.open[v]);
    }
    forall s, n, name | 0 <= s <= n <= |p.hist| && NoZero(name) && TableKey(name) in StateAfter(p.hist[..s])
      ensures Same(StateAfter(p.hist[..s]), StateAfter(p.hist[..n]), TableKey(name))
    {
      CommittedTablePersists(c, p.hist, s, n, name);
    }
  }

  lemma CommittedTablePersists(c: Codec, hist: seq<Committed>, s: nat, n: nat, name: Bytes)
    requires OneAtATime(hist) && AllDisciplined(c, hist, States(hist)) && s <= n <= |hist|
    requires NoZero(name) && TableKey(name) in StateAfter(hist[..s])
    ensures Same(StateAfter(hist[..s]), StateAfter(hist[..n]), TableKey(name))
  {
    StatesLinked(hist);
    assert States(hist)[0] == StateAfter([]) by { assert hist[..0] == []; }
    HistorySound(c, hist, States(hist), n);
    assert States(hist)[s] == StateAfter(hist[..s]) && States(hist)[n] == StateAfter(hist[..n]);
    TablePersists(hist, States(hist), s, n, name);
  }

  /** From position n on, all that others than v write is what the row layer writes. */
  ghost predicate Relies(c: Codec, ops: seq<Op>, n: nat, v: nat) {
    forall i :: n <= i < |ops| && !WritesFor(ops[i], v) ==> WritesRows(c, At(ops[..i]), ops[i])
  }

  /** If each transaction keeps to the row layer's writes, the run does. */
  lemma {:induction false} RowRunGoesOn(c: Codec, before: seq<Op>, ops: seq<Op>, v: nat)
    requires RowRun(c, before) && before <= ops
    requires Guarantees(c, ops, |before|, v) && Relies(c, ops, |before|, v)
    ensures RowRun(c, ops)
    decreases |ops|
  {
    if |ops| == |before| {
      assert ops == before;
    } else {
      var init := ops[..|ops| - 1];
      assert forall i :: 0 <= i < |init| ==> init[..i] == ops[..i] && init[i] == ops[i];
      RowRunGoesOn(c, before, init, v);
    }
  }

  ghost predicate BeganAt(ops: seq<Op>, n: nat, v: nat) {
    n < |ops| && ops[n] == Do(Begin) && At(ops[..n]).next == v
  }

  lemma {:induction false} LiveBegan(ops: seq<Op>, v: nat) returns (n: nat)
    requires v in At(ops).live
    ensures BeganAt(ops, n, v)
    decreases |ops|
  {
    assert ops != [];
    var init, op := ops[..|ops| - 1], ops[|ops| - 1];
    assert ops == init + [op];
    SpecRunSnoc(SPEC_INIT, init, op);
    if v in At(init).live {
      n := LiveBegan(init, v);
      assert ops[..n] == init[..n];
    } else {
      n := |init|;
    }
  }

  /** Each transaction that begins on the row layer's contents keeps to the row layer's writes. */
  ghost predicate EachKeepsTo(c: Codec, ops: seq<Op>) {
    forall n: nat, v: nat :: BeganAt(ops, n, v) && RowRun(c, ops[..n]) ==> Guarantees(c, ops, n + 1, v)
  }

  /** Then the whole run does, whatever the interleaving. */
  lemma AllKeepTo(c: Codec, ops: seq<Op>)
    requires EachKeepsTo(c, ops)
    ensures RowRun(c, ops)
  {
    KeepToUntil(c, ops, |ops|);
    assert ops[..|ops|] == ops;
  }

  lemma {:induction false} KeepToUntil(c: Codec, ops: seq<Op>, i: nat)
    requires EachKeepsTo(c, ops) && i <= |ops|
    ensures RowRun(c, ops[..i])
    decreases i
  {
    if i > 0 {
      var init, op := ops[..i - 1], ops[i - 1];
      assert ops[..i][..i - 1] == init;
      KeepToUntil(c, ops, i - 1);
      if op.Do? && op.a.Write? && op.a.v in At(init).live {
        var n := LiveBegan(init, op.a.v);
        KeepToUntil(c, ops, n);
        assert init[..n] == ops[..n] && BeganAt(ops, n, op.a.v);
      }
    }
  }
}
