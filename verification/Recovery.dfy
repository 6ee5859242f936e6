/** A statement, from the session down to the file, and a crash at any moment while it is executed. */
module Recoveries {
  import opened Ordering
  import opened MvccProtocol
  import opened SnapshotIsolation
  import opened MvccSimulation
  import opened MvccHistories
  import opened Stores
  import opened Restarts
  import opened RowKeys
  import opened RowStores
  import opened RowTraces
  import opened RowHistories
  import opened StatementEffects
  import opened StatementRuns
  import opened Sessions

  // ---- Where in the statement the process died ----

  /** The last engine call of the statement's commit had been made. */
  predicate Reached(ops: seq<Op>, writes: WriteSet, i: nat, n: nat) {
    i > |ops| || (i == |ops| && n > |writes|)
  }

  /** v is not in the history. */
  ghost predicate Absent(hist: seq<Committed>, v: nat) {
    forall j :: 0 <= j < |hist| ==> hist[j].version != v
  }

  /** If it was reached, step n of the history is the statement's and carries it out; otherwise it has none. */
  ghost predicate AllOrNothing(
    c: Codec, snapshot: View, hist: seq<Committed>, n: nat, v: nat, st: Statement, count: nat, reached: bool)
    requires Sound(c, snapshot)
  {
    if reached then CarriedOut(c, snapshot, hist, n, v, st, count) else Absent(hist, v)
  }

  /** Before the statement began: its version had not been given out. */
  lemma DiedBefore(before: seq<Op>, all: seq<Op>, i: nat, n: nat)
    requires before + [Do(Begin)] <= all && i <= |before| && (n > 0 ==> all[i].Do?)
    ensures Absent(At(CrashedAt(all, i, n)).hist, At(before).next)
  {
    SpecRunSnoc(SPEC_INIT, all[..i], Crash(ActionAt(all, i), n));
    if i == |before| {
      assert all[..i] == before && all[i] == (before + [Do(Begin)])[i];
    } else {
      assert all[..i] == before[..i] && all[i] == before[i];
      assert CrashedAt(all, i, n) == CrashedAt(before, i, n);
      StillUnused(before, i, n);
    }
  }

  lemma StillUnused(before: seq<Op>, i: nat, n: nat)
    requires i < |before| && (n > 0 ==> before[i].Do?)
    ensures Absent(At(CrashedAt(before, i, n)).hist, At(before).next)
  {
    VersionsLeft(before, i, n);
    RunFacts(before);
    RunFacts(CrashedAt(before, i, n));
  }

  /** While it ran, v was never asked to commit. */
  lemma NotCommitting(before: seq<Op>, ops: seq<Op>, v: nat, i: nat)
    requires before + [Do(Begin)] <= ops && v == At(before).next && v in At(ops).live && |before| < i < |ops|
    ensures ops[i] != Do(Commit(v))
  {
    OpenThroughout(before, ops, v, i);
    OpenThroughout(before, ops, v, i + 1);
    assert ops[..i + 1] == ops[..i] + [ops[i]];
    SpecRunSnoc(SPEC_INIT, ops[..i], ops[i]);
  }

  lemma DiedWithin(before: seq<Op>, ops: seq<Op>, v: nat, i: nat, n: nat, later: seq<Op>)
    requires before + [Do(Begin)] <= ops && v == At(before).next && v in At(ops).live && |before| < i < |ops|
    ensures Absent(At(CrashedAt(ops, i, n) + later).hist, v)
  {
    NotCommitting(before, ops, v, i);
    CrashedIsNothing(before, ops, v, i, ActionAt(ops, i), n, later);
  }

  lemma DiedAtEnd(
    c: Codec, before: seq<Op>, ops: seq<Op>, v: nat, writes: WriteSet, st: Statement, s: Status, count: nat, n: nat,
    later: seq<Op>)
    requires Lossless(c) && RowRun(c, before) && Relies(c, ops, |before|, v)
    requires Ran(c, before, ops, v, writes, st, s, count)
    ensures var hist := At(ops + [Crash(Closing(s, v).a, n)] + later).hist;
            AllOrNothing(c, StateAfter(At(before).hist), hist, |At(ops).hist|, v, st, count, s.Ok? && n > |writes|)
  {
    var last := Crash(Closing(s, v).a, n);
    if s.Ok? && n > |writes| {
      DiedCommitted(c, before, ops, v, writes, st, count, last, later);
    } else {
      DiedUncommitted(c, before, ops, v, StateAfter(At(before).hist), writes, last, later);
    }
  }

  lemma DiedUncommitted(
    c: Codec, before: seq<Op>, ops: seq<Op>, v: nat, snapshot: View, writes: WriteSet, last: Op, later: seq<Op>)
    requires Attached(c, before, ops, v, snapshot, writes) && Ends(last, v) && !Completes(last, v, writes)
    ensures Absent(At(ops + [last] + later).hist, v)
  {
    IncompleteIsNothing(c, before, ops, v, snapshot, writes, last, later);
  }

  lemma DiedCommitted(
    c: Codec, before: seq<Op>, ops: seq<Op>, v: nat, writes: WriteSet, st: Statement, count: nat, last: Op,
    later: seq<Op>)
    requires Lossless(c) && RowRun(c, before) && Relies(c, ops, |before|, v)
    requires Ran(c, before, ops, v, writes, st, Ok, count) && Ends(last, v) && Completes(last, v, writes)
    ensures var hist := At(ops + [last] + later).hist;
            CarriedOut(c, StateAfter(At(before).hist), hist, |At(ops).hist|, v, st, count)
  {
    RanRowRun(c, before, ops, v, writes, st, Ok, count);
    var snapshot := StateAfter(At(before).hist);
    CompletedIsCarriedOut(c, before, ops, v, snapshot, writes, st, count, last, later);
  }

  lemma DiedAfter(
    c: Codec, before: seq<Op>, ops: seq<Op>, v: nat, writes: WriteSet, st: Statement, s: Status, count: nat,
    later: seq<Op>)
    requires Lossless(c) && RowRun(c, before) && Relies(c, ops, |before|, v)
    requires Ran(c, before, ops, v, writes, st, s, count)
    ensures var hist := At(ops + [Closing(s, v)] + later).hist;
            AllOrNothing(c, StateAfter(At(before).hist), hist, |At(ops).hist|, v, st, count, s.Ok?)
  {
    RanForGood(c, before, ops, v, writes, st, s, count, later);
  }

  /** The run in which it died, according to how far the statement had come. */
  lemma CrashedRuns(ops: seq<Op>, last: Op, i: nat, n: nat, later: seq<Op>)
    requires i <= |ops| + 1 && last.Do?
    ensures var crashed := CrashedAt(ops + [last], i, n) + later;
            && (i < |ops| ==> crashed == CrashedAt(ops, i, n) + later)
            && (i == |ops| ==> crashed == ops + [Crash(last.a, n)] + later)
            && (i == |ops| + 1 ==> crashed == ops + [last] + ([Crash(Begin, n)] + later))
  {
    assert i <= |ops| ==> (ops + [last])[..i] == ops[..i];
    assert i == |ops| + 1 ==> (ops + [last])[..i] == ops + [last];
  }

  /**
   Whenever the process died after the statement began, whatever is asked of later ones: the
   statement is carried out exactly if its commit had been reached, and otherwise leaves nothing.
   */
  lemma DiedAnytime(
    c: Codec, before: seq<Op>, ops: seq<Op>, v: nat, writes: WriteSet, st: Statement, s: Status, count: nat,
    i: nat, n: nat, later: seq<Op>)
    requires Lossless(c) && RowRun(c, before) && Relies(c, ops, |before|, v)
    requires Ran(c, before, ops, v, writes, st, s, count) && |before| < i <= |ops| + 1
    ensures var hist, reached := At(CrashedAt(ops + [Closing(s, v)], i, n) + later).hist, Reached(ops, writes, i, n);
            AllOrNothing(c, StateAfter(At(before).hist), hist, |At(ops).hist|, v, st, count, s.Ok? && reached)
  {
    CrashedRuns(ops, Closing(s, v), i, n, later);
    if i < |ops| {
      DiedWithin(before, ops, v, i, n, later);
    } else if i == |ops| {
      DiedAtEnd(c, before, ops, v, writes, st, s, count, n, later);
    } else {
      DiedAfter(c, before, ops, v, writes, st, s, count, [Crash(Begin, n)] + later);
    }
  }

  // ---- What the next process finds ----

  lemma {:induction false} RunPrefix(c: Codec, ops: seq<Op>, i: nat)
    requires RowRun(c, ops) && i <= |ops|
    ensures RowRun(c, ops[..i])
    decreases |ops|
  {
    if i == |ops| {
      assert ops[..i] == ops;
    } else {
      assert ops[..|ops| - 1][..i] == ops[..i];
      RunPrefix(c, ops[..|ops| - 1], i);
    }
  }

  lemma CrashedRowRun(c: Codec, all: seq<Op>, i: nat, n: nat)
    requires RowRun(c, all) && i <= |all|
    ensures RowRun(c, CrashedAt(all, i, n))
  {
    RunPrefix(c, all, i);
    RowRunSnoc(c, all[..i], Crash(ActionAt(all, i), n));
  }

  lemma LeftBehind(
    c: Codec, before: seq<Op>, ops: seq<Op>, v: nat, writes: WriteSet, st: Statement, s: Status, count: nat,
    i: nat, n: nat)
    requires Lossless(c) && RowRun(c, before) && Relies(c, ops, |before|, v)
    requires Ran(c, before, ops, v, writes, st, s, count)
    requires var all := ops + [Closing(s, v)]; i <= |all| && (n > 0 ==> i < |all| && all[i].Do?)
    ensures var hist, reached := At(CrashedAt(ops + [Closing(s, v)], i, n)).hist, Reached(ops, writes, i, n);
            AllOrNothing(c, StateAfter(At(before).hist), hist, |At(ops).hist|, v, st, count, s.Ok? && reached)
  {
    var all := ops + [Closing(s, v)];
    if i <= |before| {
      DiedBefore(before, all, i, n);
    } else {
      DiedAnytime(c, before, ops, v, writes, st, s, count, i, n, []);
      assert CrashedAt(all, i, n) + [] == CrashedAt(all, i, n);
    }
  }

  lemma CommitSize(ops: seq<Op>, v: nat)
    requires v in At(ops).live
    ensures |CallsOf(Run(INIT, ops), Commit(v))| == |At(ops).open[v].own| + 1
  {
    SnapshotIsolationHolds(ops);
    SortedIsListing(Recorded(Run(INIT, ops).db, v));
  }

  /** The commit has been reached exactly if every engine call up to it has been made. */
  lemma ReachedExact(ops: seq<Op>, v: nat, k: nat, i: nat, n: nat)
    requires v in At(ops).live && k <= |ops| && Moment(ops + [Do(Commit(v))], k, i, n)
    ensures var all := ops + [Do(Commit(v))];
            Reached(ops, At(ops).open[v].own, i, n) <==> |CallsUpTo(all, k, i, n)| == |CallsSince(all, k)|
  {
    var all := ops + [Do(Commit(v))];
    CommitSize(ops, v);
    CallsOfLast(ops, Commit(v), k, n);
    if i < |ops| {
      UpToIsPrefix(ops, k, i, n);
      assert all[..i] == ops[..i] && all[i] == ops[i];
    } else if i == |all| {
      assert all[..i] == all;
    }
  }

  /** After the engine calls up to some moment: everything, if these are all, and otherwise nothing. */
  lemma Outcome(
    c: Codec, before: seq<Op>, ops: seq<Op>, v: nat, writes: WriteSet, st: Statement, s: Status, count: nat,
    k: nat, i: nat, n: nat)
    requires Lossless(c) && RowRun(c, before) && Relies(c, ops, |before|, v)
    requires Ran(c, before, ops, v, writes, st, s, count) && k <= |ops| && Moment(ops + [Closing(s, v)], k, i, n)
    ensures var all := ops + [Closing(s, v)];
            var complete := |CallsUpTo(all, k, i, n)| == |CallsSince(all, k)|;
            var hist := At(CrashedAt(all, i, n)).hist;
            && RowRun(c, CrashedAt(all, i, n))
            && AllOrNothing(c, StateAfter(At(before).hist), hist, |At(ops).hist|, v, st, count, s.Ok? && complete)
  {
    RanRowRun(c, before, ops, v, writes, st, s, count);
    CrashedRowRun(c, ops + [Closing(s, v)], i, n);
    LeftBehind(c, before, ops, v, writes, st, s, count, i, n);
    if s.Ok? {
      ReachedExact(ops, v, k, i, n);
    }
  }

  /** How many engine calls are in the file, of those that were made. */
  function Kept(start: nat, m: nat, all: nat): nat {
    if start + m < all then start + m else all
  }

  /** The requests, cut off after that many engine calls since the first k of them. */
  ghost predicate CutOff(all: seq<Op>, k: nat, kept: nat, crashed: seq<Op>) {
    exists i, n ::
      Moment(all, k, i, n) && |CallsUpTo(all, k, i, n)| == kept && crashed == CrashedAt(all, i, n)
  }

  /**
   Executes a statement over a log on disk while the other sessions do as the schedule says, and
   dies when m more engine calls have reached the file, of whichever session; then opens the
   file again, compacting it or not.  The statement is carried out if all the engine calls up to the last one of its
   commit are in the file, and otherwise it has left nothing.
   */
  method ExecuteAndDie(session: Session, st: Statement, schedule: nat -> seq<Op>, m: nat, compact: bool)
    returns (next: Store, ghost s: Status, ghost count: nat, ghost ops: seq<Op>, ghost v: nat, ghost writes: WriteSet)
    requires session.store.Valid() && session.store.OnDisk() && session.store.HasRoom() && NoZero(st.Target())
    requires Lossless(session.codec) && RowRun(session.codec, session.store.ops)
    modifies session.store.Repr()
    ensures next.Valid() && next.OnDisk() && fresh(next.Repr())
    ensures Ran(session.codec, old(session.store.ops), ops, v, writes, st, s, count)
    ensures var asked, k := ops + [Closing(s, v)], session.store.earlier;
            CutOff(asked, k, Kept(|CallsSince(old(session.store.ops), k)|, m, |CallsSince(asked, k)|), next.ops)
    ensures Relies(session.codec, ops, |old(session.store.ops)|, v) ==>
              var snapshot, k := StateAfter(old(session.store.Now()).hist), session.store.earlier;
              var start, all := |CallsSince(old(session.store.ops), k)|, |CallsSince(ops + [Closing(s, v)], k)|;
              && RowRun(session.codec, next.ops)
              && AllOrNothing(session.codec, snapshot, next.Now().hist, |At(ops).hist|, v, st, count,
                              s.Ok? && start + m >= all)
  {
    var store := session.store;
    Journal(store);
    ghost var before := store.ops;
    var start := |store.mvcc.state.engine.journal|;
    var status, rows;
    status, rows, ops, v, writes := session.Execute(st, schedule);
    s, count := status, rows;
    Journal(store);
    var kept := Kept(start, m, |store.mvcc.state.engine.journal|);
    ghost var i, n := MomentOf(store.ops, store.earlier, kept);
    next := Restart(store, kept, compact, i, n);
    if Relies(session.codec, ops, |before|, v) {
      Outcome(session.codec, before, ops, v, writes, st, s, count, store.earlier, i, n);
    }
  }
}
