/** Statements in the runs of the whole store: all or nothing, in every interleaving, with crashes. */
module StatementRuns {
  import opened ByteStrings
  import opened Schemas
  import opened RowStores
  import opened MvccProtocol
  import opened SnapshotIsolation
  import opened MvccSimulation
  import opened MvccHistories
  import opened RowTraces
  import opened RowHistories
  import opened StatementEffects

  // ---- The contents a transaction commits to ----

  lemma CommitHistory(ops: seq<Op>, v: nat)
    requires v in At(ops).live
    ensures At(ops + [Do(Commit(v))]).hist == At(ops).hist + [Committed(v, At(ops).open[v].start, At(ops).open[v].own)]
  {
    SpecRunSnoc(SPEC_INIT, ops, Do(Commit(v)));
  }

  lemma RowRunSnoc(c: Codec, ops: seq<Op>, op: Op)
    requires RowRun(c, ops) && !(op.Do? && op.a.Write?)
    ensures RowRun(c, ops + [op])
  {
    assert (ops + [op])[..|ops|] == ops;
  }

  lemma StateSnoc(hist: seq<Committed>, x: Committed)
    ensures StateAfter(hist + [x]) == Overlay(StateAfter(hist), x.writes)
  {
    assert (hist + [x])[..|hist|] == hist;
  }

  /** What v wrote is, at its commit, as it was in its snapshot. */
  lemma WrittenKept(ops: seq<Op>, v: nat, k: Bytes)
    requires v in At(ops).live && k in At(ops).open[v].own
    ensures At(ops).open[v].start <= |At(ops).hist|
    ensures Same(StateAfter(At(ops).hist[..At(ops).open[v].start]), StateAfter(At(ops).hist), k)
  {
    CommitHistory(ops, v);
    var hist := At(ops).hist;
    var more := At(ops + [Do(Commit(v))]).hist;
    RunOneAtATime(ops + [Do(Commit(v))]);
    StatesLinked(more);
    WrittenUnchanged(more, States(more), |hist|, k);
    assert more[..|hist|] == hist && more[..At(ops).open[v].start] == hist[..At(ops).open[v].start];
  }

  lemma TablesStay(c: Codec, ops: seq<Op>, s: nat, t: Table)
    requires Lossless(c) && RowRun(c, ops) && s <= |At(ops).hist| && TableAt(c, StateAfter(At(ops).hist[..s]), t)
    ensures TableAt(c, StateAfter(At(ops).hist), t)
  {
    RunOneAtATime(ops);
    RowRunDisciplined(c, ops);
    var hist := At(ops).hist;
    CommittedTablePersists(c, hist, s, |hist|, t.name);
    assert hist[..|hist|] == hist;
  }

  lemma SoundContents(c: Codec, ops: seq<Op>)
    requires Lossless(c) && RowRun(c, ops)
    ensures Sound(c, StateAfter(At(ops).hist))
  {
    RunOneAtATime(ops);
    RowRunDisciplined(c, ops);
    var hist := At(ops).hist;
    ContentsSound(c, hist, |hist|);
    assert hist[..|hist|] == hist;
  }

  lemma LaterContents(c: Codec, before: seq<Op>, ops: seq<Op>, v: nat, snapshot: View, writes: WriteSet)
    requires Lossless(c) && RowRun(c, ops) && Attached(c, before, ops, v, snapshot, writes)
    ensures Later(c, snapshot, StateAfter(At(ops).hist), writes)
  {
    var p := At(ops);
    SoundContents(c, ops);
    CommitHistory(ops, v);
    RowRunSnoc(c, ops, Do(Commit(v)));
    SoundContents(c, ops + [Do(Commit(v))]);
    StateSnoc(p.hist, Committed(v, p.open[v].start, writes));
    forall k | k in writes
      ensures Same(snapshot, StateAfter(p.hist), k)
    {
      WrittenKept(ops, v, k);
    }
    forall t | TableAt(c, snapshot, t)
      ensures TableAt(c, StateAfter(p.hist), t)
    {
      TablesStay(c, ops, p.open[v].start, t);
    }
  }

  // ---- All or nothing ----

  /** The last request of a transaction, or a crash. */
  predicate Ends(last: Op, v: nat) {
    last == Do(Commit(v)) || last == Do(Rollback(v)) || last.Crash?
  }

  /** The commit was made, or a crash came after its last engine call. */
  predicate Completes(last: Op, v: nat, writes: WriteSet) {
    last == Do(Commit(v)) || (last.Crash? && last.a == Commit(v) && last.n > |writes|)
  }

  lemma Ended(ops: seq<Op>, last: Op, v: nat)
    requires v in At(ops).live && Ends(last, v)
    ensures var p, q := At(ops), At(ops + [last]);
            && v !in q.live && v < q.next
            && (Completes(last, v, p.open[v].own) ==> q.hist == p.hist + [Committed(v, p.open[v].start, p.open[v].own)])
            && (!Completes(last, v, p.open[v].own) ==> forall i :: 0 <= i < |q.hist| ==> q.hist[i].version != v)
  {
    SpecRunSnoc(SPEC_INIT, ops, last);
    var p := At(ops);
    if last.Crash? {
      EndedByCrash(p, last.a, last.n, v);
    }
  }

  lemma EndedByCrash(p: Spec, a: Action, n: nat, v: nat)
    requires Numbered(p) && v in p.live
    ensures var q := SpecStep(p, Crash(a, n));
            && v !in q.live && v < q.next
            && (a == Commit(v) && n > |p.open[v].own| ==>
               q.hist == p.hist + [Committed(v, p.open[v].start, p.open[v].own)])
            && (!(a == Commit(v) && n > |p.open[v].own|) ==> forall i :: 0 <= i < |q.hist| ==> q.hist[i].version != v)
  {
    var q := SpecStep(p, Crash(a, n));
    if a.Commit? && a.v in p.live && n > |p.open[a.v].own| {
      assert q.hist == p.hist + [Committed(a.v, p.open[a.v].start, p.open[a.v].own)];
    } else {
      assert q.hist == p.hist;
    }
  }

  /** Once ended, a transaction is in the history once, or never. */
  lemma EndedForGood(ops: seq<Op>, last: Op, later: seq<Op>, v: nat)
    requires v in At(ops).live && Ends(last, v)
    ensures var p, r := At(ops), At(ops + [last] + later);
            && v !in r.live
            && (Completes(last, v, p.open[v].own) ==>
                  && |p.hist| < |r.hist|
                  && r.hist[..|p.hist| + 1] == p.hist + [Committed(v, p.open[v].start, p.open[v].own)])
            && (!Completes(last, v, p.open[v].own) ==> forall i :: 0 <= i < |r.hist| ==> r.hist[i].version != v)
  {
    Ended(ops, last, v);
    SpecRunConcat(SPEC_INIT, ops + [last], later);
    NeverResumed(At(ops + [last]), later, v);
    var q, r := At(ops + [last]), At(ops + [last] + later);
    assert forall i :: 0 <= i < |q.hist| ==> r.hist[i] == q.hist[i];
  }

  lemma CommittedDid(
    c: Codec, before: seq<Op>, ops: seq<Op>, v: nat, snapshot: View, writes: WriteSet, st: Statement, count: nat)
    requires Lossless(c) && RowRun(c, ops) && Attached(c, before, ops, v, snapshot, writes)
    requires Sound(c, snapshot) && Wrote(c, snapshot, st, writes, count)
    ensures var hist, x := At(ops).hist, Committed(v, At(ops).open[v].start, writes);
            Did(c, snapshot, StateAfter(hist), StateAfter(hist + [x]), st, count)
  {
    LaterContents(c, before, ops, v, snapshot, writes);
    StateSnoc(At(ops).hist, Committed(v, At(ops).open[v].start, writes));
    WroteDid(c, snapshot, StateAfter(At(ops).hist), st, writes, count);
  }

  /** Step n of the history is v's, and carries out the statement on the contents of that moment. */
  ghost predicate CarriedOut(
    c: Codec, snapshot: View, hist: seq<Committed>, n: nat, v: nat, st: Statement, count: nat)
    requires Sound(c, snapshot)
  {
    && n < |hist| && hist[n].version == v
    && Did(c, snapshot, StateAfter(hist[..n]), StateAfter(hist[..n + 1]), st, count)
  }

  /**
   A statement whose commit is completed is one step of the history that carries it out, with
   its count, on the contents of that moment: in every later state, however the other
   transactions interleave and crash.
   */
  lemma CompletedIsCarriedOut(
    c: Codec, before: seq<Op>, ops: seq<Op>, v: nat, snapshot: View, writes: WriteSet, st: Statement, count: nat,
    last: Op, later: seq<Op>)
    requires Lossless(c) && RowRun(c, ops) && Attached(c, before, ops, v, snapshot, writes)
    requires Sound(c, snapshot) && Wrote(c, snapshot, st, writes, count) && Ends(last, v) && Completes(last, v, writes)
    ensures CarriedOut(c, snapshot, At(ops + [last] + later).hist, |At(ops).hist|, v, st, count)
  {
    CommittedDid(c, before, ops, v, snapshot, writes, st, count);
    CarriedOutLater(c, snapshot, ops, v, At(ops).open[v].start, writes, st, count, last, later);
  }

  lemma CarriedOutLater(
    c: Codec, snapshot: View, ops: seq<Op>, v: nat, start: nat, writes: WriteSet, st: Statement, count: nat,
    last: Op, later: seq<Op>)
    requires v in At(ops).live && At(ops).open[v] == Open(start, writes) && Ends(last, v) && Completes(last, v, writes)
    requires Sound(c, snapshot)
    requires var h, x := At(ops).hist, Committed(v, start, writes);
             Did(c, snapshot, StateAfter(h), StateAfter(h + [x]), st, count)
    ensures CarriedOut(c, snapshot, At(ops + [last] + later).hist, |At(ops).hist|, v, st, count)
  {
    EndedForGood(ops, last, later, v);
    InHistory(c, snapshot, At(ops).hist, Committed(v, start, writes), At(ops + [last] + later).hist, v, st, count);
  }

  /** One that is rolled back, or that a crash overtakes, is never in the history. */
  lemma IncompleteIsNothing(
    c: Codec, before: seq<Op>, ops: seq<Op>, v: nat, snapshot: View, writes: WriteSet, last: Op, later: seq<Op>)
    requires Attached(c, before, ops, v, snapshot, writes) && Ends(last, v) && !Completes(last, v, writes)
    ensures forall i :: 0 <= i < |At(ops + [last] + later).hist| ==> At(ops + [last] + later).hist[i].version != v
  {
    EndedForGood(ops, last, later, v);
  }

  lemma InHistory(
    c: Codec, snapshot: View, h: seq<Committed>, x: Committed, hist: seq<Committed>, v: nat, st: Statement, count: nat)
    requires Sound(c, snapshot) && Did(c, snapshot, StateAfter(h), StateAfter(h + [x]), st, count)
    requires |h| < |hist| && hist[..|h| + 1] == h + [x] && x.version == v
    ensures CarriedOut(c, snapshot, hist, |h|, v, st, count)
  {
    HistoryPrefix(h, x, hist);
    var now, after := StateAfter(hist[..|h|]), StateAfter(hist[..|h| + 1]);
    SameDid(c, snapshot, StateAfter(h), StateAfter(h + [x]), now, after, st, count);
  }

  lemma HistoryPrefix(h: seq<Committed>, x: Committed, hist: seq<Committed>)
    requires |h| < |hist| && hist[..|h| + 1] == h + [x]
    ensures hist[..|h|] == h && hist[|h|] == x
  {
    assert hist[..|h|] == hist[..|h| + 1][..|h|] == h && hist[|h|] == hist[..|h| + 1][|h|];
  }

  lemma SameDid(
    c: Codec, snapshot: View, now: View, after: View, now': View, after': View, st: Statement, count: nat)
    requires Sound(c, snapshot) && now == now' && after == after' && Did(c, snapshot, now, after, st, count)
    ensures Did(c, snapshot, now', after', st, count)
  {
  }

  /** Nobody else ever reads anything of a statement that did not complete, whatever it had written. */
  lemma IncompleteIsUnread(ops: seq<Op>, last: Op, later: seq<Op>, v: nat, u: nat, k: Bytes)
    requires v in At(ops).live && Ends(last, v) && !Completes(last, v, At(ops).open[v].own)
    requires u in Run(INIT, ops + [last] + later).live
    ensures var s := Run(INIT, ops + [last] + later);
            u != v && Get(s.db, s.live[u], k) == Get(Without(s.db, v), s.live[u], k)
  {
    EndedForGood(ops, last, later, v);
    SnapshotIsolationHolds(ops + [last] + later);
    UncommittedIsUnread(Run(INIT, ops + [last] + later), At(ops + [last] + later), v, u, k);
  }

  /** A transaction that is open was open ever since it began. */
  lemma OpenThroughout(before: seq<Op>, ops: seq<Op>, v: nat, i: nat)
    requires before + [Do(Begin)] <= ops && v == At(before).next && v in At(ops).live && |before| < i <= |ops|
    ensures v in At(ops[..i]).live
  {
    SpecRunSnoc(SPEC_INIT, before, Do(Begin));
    NextGrows(ops[..i], |before| + 1);
    assert ops[..i][..|before| + 1] == ops[..|before| + 1] == before + [Do(Begin)];
    if v !in At(ops[..i]).live {
      assert ops == ops[..i] + ops[i..];
      SpecRunConcat(SPEC_INIT, ops[..i], ops[i..]);
      NeverResumed(At(ops[..i]), ops[i..], v);
    }
  }

  /** A crash at any moment while a statement runs leaves nothing of it in any later state. */
  lemma CrashedIsNothing(before: seq<Op>, ops: seq<Op>, v: nat, i: nat, a: Action, n: nat, later: seq<Op>)
    requires before + [Do(Begin)] <= ops && v == At(before).next && v in At(ops).live && |before| < i <= |ops|
    requires a != Commit(v)
    ensures var hist := At(ops[..i] + [Crash(a, n)] + later).hist; forall j :: 0 <= j < |hist| ==> hist[j].version != v
  {
    OpenThroughout(before, ops, v, i);
    EndedForGood(ops[..i], Crash(a, n), later, v);
  }

  // ---- Alone ----

  /** No unfinished transaction has written to the table. */
  ghost predicate Quiet(p: Spec, name: Bytes) {
    forall u, k :: u in p.open && k in p.open[u].own ==> !KeyOfTable(name, k)
  }

  /** While v runs, only its own entry changes. */
  ghost predicate OnlyChanges(p: Spec, q: Spec, v: nat) {
    && q.hist == p.hist && v in q.open && q.open[v].start == |p.hist|
    && forall u :: u in q.open && u != v ==> u in p.open && q.open[u] == p.open[u]
  }

  lemma OnlyStep(p: Spec, q: Spec, op: Op, v: nat)
    requires Numbered(q) && OnlyChanges(p, q, v) && AskedBy(op, v) && v in SpecStep(q, op).live
    ensures OnlyChanges(p, SpecStep(q, op), v)
  {
  }

  lemma {:induction false} AloneOnlyChanges(before: seq<Op>, ops: seq<Op>, v: nat)
    requires Alone(before, ops, v) && v == At(before).next && v in At(ops).live
    ensures OnlyChanges(At(before), At(ops), v)
    decreases |ops|
  {
    var init, op := ops[..|ops| - 1], ops[|ops| - 1];
    assert ops == init + [op];
    SpecRunSnoc(SPEC_INIT, init, op);
    if |init| == |before| {
      assert init == before && op == Do(Begin);
    } else {
      assert op == ops[|init|] && AskedBy(op, v);
      assert Alone(before, init, v);
      AloneOnlyChanges(before, init, v);
      OnlyStep(At(before), At(init), op, v);
    }
  }

  /** Alone, and with nothing left behind on the table, a transaction meets no conflict there. */
  lemma AloneNeverClashes(before: seq<Op>, ops: seq<Op>, v: nat, name: Bytes)
    requires Alone(before, ops, v) && v == At(before).next && Quiet(At(before), name)
    ensures !Clashed(ops, v, name)
  {
    forall i: nat
      ensures !ClashesAt(ops, i, v, name)
    {
      if i < |ops| && WritesFor(ops[i], v) && v in At(ops[..i]).live {
        NoClashAt(before, ops, v, name, i);
      }
    }
  }

  lemma NoClashAt(before: seq<Op>, ops: seq<Op>, v: nat, name: Bytes, i: nat)
    requires Alone(before, ops, v) && v == At(before).next && Quiet(At(before), name) && i < |ops|
    requires v in At(ops[..i]).live
    ensures forall k :: KeyOfTable(name, k) ==> !SpecConflict(At(ops[..i]), v, k)
  {
    if i <= |before| {
      assert ops[..|before|] == before && before[..i] == ops[..i];
      NextGrows(before, i);
    } else {
      assert Alone(before, ops[..i], v);
      AloneOnlyChanges(before, ops[..i], v);
    }
  }

  lemma NextGrows(ops: seq<Op>, i: nat)
    requires i <= |ops|
    ensures At(ops[..i]).next <= At(ops).next
  {
    assert ops == ops[..i] + ops[i..];
    SpecRunConcat(SPEC_INIT, ops[..i], ops[i..]);
    NextGrowsFrom(At(ops[..i]), ops[i..]);
  }
}
