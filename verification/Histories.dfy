/** What snapshot isolation of every run means for the callers and for the stored records. */
module MvccHistories {
  import opened ByteStrings
  import opened Ordering
  import opened MvccProtocol
  import opened SnapshotIsolation
  import opened MvccSimulation

  // ---- Conflicts ----

  /** In every run, the newest-version-only check refuses a write exactly when some version of the key is invisible. */
  lemma ConflictCheckExact(ops: seq<Op>, v: nat, k: Bytes)
    requires v in Run(INIT, ops).live
    ensures var s := Run(INIT, ops);
            Conflict(s.db, s.live[v], k) <==> exists u :: (k, u) in s.db.versions && !s.live[v].Sees(u)
  {
    SnapshotIsolationHolds(ops);
    ConflictIsExact(Run(INIT, ops), SpecRun(SPEC_INIT, ops), v, k);
  }

  /**
   Of two committed writers of a key, the first had committed before the second began;
   versions follow commit order.
   */
  lemma FirstUpdaterWins(ops: seq<Op>, i: nat, j: nat, k: Bytes)
    requires var h := SpecRun(SPEC_INIT, ops).hist;
             i < j < |h| && k in h[i].writes && k in h[j].writes
    ensures var h := SpecRun(SPEC_INIT, ops).hist;
            i < h[j].start && h[i].version < h[j].version
  {
    SnapshotIsolationHolds(ops);
  }

  // ---- Stability ----

  lemma {:induction false} SpecRunConcat(p: Spec, a: seq<Op>, b: seq<Op>)
    requires Numbered(p)
    ensures SpecRun(p, a + b) == SpecRun(SpecRun(p, a), b)
    decreases |a|
  {
    if a == [] {
      assert a + b == b;
    } else {
      StepNumbered(p, a[0]);
      assert (a + b)[1..] == a[1..] + b;
      SpecRunConcat(SpecStep(p, a[0]), a[1..], b);
    }
  }

  lemma {:induction false} NextGrowsFrom(p: Spec, ops: seq<Op>)
    requires Numbered(p)
    ensures p.next <= SpecRun(p, ops).next
    decreases |ops|
  {
    if ops != [] {
      StepNumbered(p, ops[0]);
      NextGrowsFrom(SpecStep(p, ops[0]), ops[1..]);
    }
  }

  /** The steps that may change what transaction v reads. */
  predicate Touches(op: Op, v: nat) {
    match op
    case Do(Begin) => false
    case Do(a) => a.v == v
    case Read(_, _) => false
    case Scan(_, _) => false
    case Crash(_, _) => true
  }

  lemma ViewStep(p: Spec, op: Op, v: nat)
    requires Numbered(p) && v in p.live && !Touches(op, v)
    ensures var q := SpecStep(p, op);
            v in q.live && v in q.open && q.open[v] == p.open[v] && p.open[v].start <= |q.hist|
              && SpecView(q, v) == SpecView(p, v)
  {
    var q := SpecStep(p, op);
    assert q.hist[..p.open[v].start] == p.hist[..p.open[v].start];
  }

  lemma {:induction false} ViewStable(p: Spec, ops: seq<Op>, v: nat)
    requires Numbered(p) && v in p.live && forall op :: op in ops ==> !Touches(op, v)
    ensures var q := SpecRun(p, ops); v in q.live && SpecView(q, v) == SpecView(p, v)
    decreases |ops|
  {
    if ops != [] {
      StepNumbered(p, ops[0]);
      ViewStep(p, ops[0], v);
      ViewStable(SpecStep(p, ops[0]), ops[1..], v);
    }
  }

  lemma {:induction false} RunConcat(s: State, a: seq<Op>, b: seq<Op>)
    ensures Run(s, a + b) == Run(Run(s, a), b)
    decreases |a|
  {
    if a == [] {
      assert a + b == b;
    } else {
      assert (a + b)[1..] == a[1..] + b;
      RunConcat(Step(s, a[0]), a[1..], b);
    }
  }

  lemma {:induction false} SpecRunSnoc(p: Spec, ops: seq<Op>, op: Op)
    requires Numbered(p)
    ensures Numbered(SpecRun(p, ops)) && SpecRun(p, ops + [op]) == SpecStep(SpecRun(p, ops), op)
    decreases |ops|
  {
    if ops == [] {
      StepNumbered(p, op);
      assert [op][1..] == [];
    } else {
      StepNumbered(p, ops[0]);
      assert (ops + [op])[1..] == ops[1..] + [op];
      SpecRunSnoc(SpecStep(p, ops[0]), ops[1..], op);
    }
  }

  lemma SameAnswer(s: State, s': State, p: Spec, p': Spec, v: nat, op: Op)
    requires Simulates(s, p) && Simulates(s', p') && v in p.live && v in p'.live && SpecView(p', v) == SpecView(p, v)
    requires (op.Read? || op.Scan?) && op.v == v
    ensures Answer(s', op) == Answer(s, op)
  {
    AnswerMatches(s, p, op);
    AnswerMatches(s', p', op);
  }

  /** Whatever the others do meanwhile, a transaction keeps reading the same values. */
  lemma ReadsAreStable(ops: seq<Op>, others: seq<Op>, v: nat)
    requires v in Run(INIT, ops).live
    requires forall op :: op in others ==> !Touches(op, v)
    ensures var s, s' := Run(INIT, ops), Run(INIT, ops + others);
            v in s'.live
            && (forall k :: Answer(s', Read(v, k)) == Answer(s, Read(v, k)))
            && (forall q :: Answer(s', Scan(v, q)) == Answer(s, Scan(v, q)))
  {
    var s, p := Run(INIT, ops), SpecRun(SPEC_INIT, ops);
    SnapshotIsolationHolds(ops);
    RunSimulates(s, p, others);
    RunConcat(INIT, ops, others);
    ViewStable(p, others, v);
    var s', p' := Run(s, others), SpecRun(p, others);
    forall k {
      SameAnswer(s, s', p, p', v, Read(v, k));
    }
    forall q {
      SameAnswer(s, s', p, p', v, Scan(v, q));
    }
  }

  // ---- Metadata and undo ----

  /** The active marks are the open transactions, and a running transaction's write records name its stored versions. */
  lemma MetadataInvariant(ops: seq<Op>, v: nat, k: Bytes)
    ensures var db := Run(INIT, ops).db;
            && Run(INIT, ops).live.Keys <= db.active
            && (v in db.active ==> v < db.next)
            && ((v, k) in db.writes ==> v in db.active)
            && (v in Run(INIT, ops).live ==> ((v, k) in db.writes <==> (k, v) in db.versions))
            && ((forall op :: op in ops ==> !op.Crash?) ==> Run(INIT, ops).live.Keys == db.active)
  {
    SnapshotIsolationHolds(ops);
    var s, p := Run(INIT, ops), SpecRun(SPEC_INIT, ops);
    if v in s.live {
      OwnVersions(s, p, v, k);
    }
    if forall op :: op in ops ==> !op.Crash? {
      NoCrashNoLeftover(SPEC_INIT, ops);
    }
  }

  lemma OwnVersions(s: State, p: Spec, v: nat, k: Bytes)
    requires Simulates(s, p) && v in s.live
    ensures (v, k) in s.db.writes <==> k in p.open[v].own
    ensures (k, v) in s.db.versions <==> k in p.open[v].own
  {
    assert k in Recorded(s.db, v) <==> (v, k) in s.db.writes;
    assert FromOpen(p, k, v) <==> k in p.open[v].own;
    if (k, v) in s.db.versions {
      assert FromHist(p, (k, v).0, (k, v).1) || FromOpen(p, (k, v).0, (k, v).1);
    }
  }

  lemma {:induction false} NoCrashNoLeftover(p: Spec, ops: seq<Op>)
    requires Numbered(p) && p.live == p.open.Keys
    requires forall op :: op in ops ==> !op.Crash?
    ensures SpecRun(p, ops).live == SpecRun(p, ops).open.Keys
    decreases |ops|
  {
    if ops != [] {
      StepNumbered(p, ops[0]);
      assert ops[0] in ops;
      NoCrashNoLeftover(SpecStep(p, ops[0]), ops[1..]);
    }
  }

  /** Rollback takes back the transaction's versions, records and mark, and nothing else. */
  lemma RollbackIsExactUndo(ops: seq<Op>, v: nat)
    requires v in Run(INIT, ops).live
    ensures var db, db' := Run(INIT, ops).db, Step(Run(INIT, ops), Do(Rollback(v))).db;
            && db'.next == db.next
            && db'.active == db.active - {v}
            && db'.writes == (set vk | vk in db.writes && vk.0 != v)
            && db'.versions == (map kv | kv in db.versions && kv.1 != v :: db.versions[kv])
  {
    AllOwnRecorded(ops, v);
    RollbackEffect(Run(INIT, ops).db, v);
  }

  lemma AllOwnRecorded(ops: seq<Op>, v: nat)
    requires v in Run(INIT, ops).live
    ensures var db := Run(INIT, ops).db; forall kv :: kv in db.versions && kv.1 == v ==> kv.0 in Recorded(db, v)
  {
    SnapshotIsolationHolds(ops);
    OwnRecorded(Run(INIT, ops), SpecRun(SPEC_INIT, ops), v);
  }

  lemma OwnRecorded(s: State, p: Spec, v: nat)
    requires Simulates(s, p) && v in s.live
    ensures forall kv :: kv in s.db.versions && kv.1 == v ==> kv.0 in Recorded(s.db, v)
  {
    forall kv | kv in s.db.versions && kv.1 == v
      ensures kv.0 in Recorded(s.db, v)
    {
      OwnVersions(s, p, v, kv.0);
      assert kv == (kv.0, v) && (v, kv.0) in s.db.writes;
    }
  }

  lemma RollbackEffect(db: Db, v: nat)
    requires forall kv :: kv in db.versions && kv.1 == v ==> kv.0 in Recorded(db, v)
    ensures ApplyAll(db, RollbackCalls(db, v)) ==
            db.(active := db.active - {v},
                writes := (set vk | vk in db.writes && vk.0 != v),
                versions := map kv | kv in db.versions && kv.1 != v :: db.versions[kv])
  {
    var ks := Sorted(Recorded(db, v));
    RollbackWhole(db, v);
    AllRecorded(db, v);
    InSorted(Recorded(db, v));
    UndoneVersions(db, v, ks);
  }

  lemma InSorted(s: set<Bytes>)
    ensures forall k :: k in s ==> k in Sorted(s)
  {
    SortedIsListing(s);
    assert forall k :: k in s ==> k in Elements(Sorted(s));
  }

  lemma UndoneVersions(db: Db, v: nat, ks: seq<Bytes>)
    requires forall kv :: kv in db.versions && kv.1 == v ==> kv.0 in ks
    ensures Undone(db, v, ks).versions == map kv | kv in db.versions && kv.1 != v :: db.versions[kv]
  {
  }

  lemma NothingStored(s: State, p: Spec, v: nat, k: Bytes)
    requires Simulates(s, p) && v !in p.open && forall i :: 0 <= i < |p.hist| ==> p.hist[i].version != v
    ensures (k, v) !in s.db.versions && (v, k) !in s.db.writes && v !in s.db.active
  {
    assert (k, v) in s.db.versions ==> FromHist(p, (k, v).0, (k, v).1) || FromOpen(p, (k, v).0, (k, v).1);
  }

  /** Nothing a rolled-back transaction wrote, and no mark of it, is ever stored again. */
  lemma RolledBackIsGone(ops: seq<Op>, v: nat, later: seq<Op>, k: Bytes)
    requires v in Run(INIT, ops).live
    ensures var db := Run(INIT, ops + [Do(Rollback(v))] + later).db;
            (k, v) !in db.versions && (v, k) !in db.writes && v !in db.active
  {
    var s, p := Run(INIT, ops), SpecRun(SPEC_INIT, ops);
    var op := Do(Rollback(v));
    SnapshotIsolationHolds(ops);
    StepSimulates(s, p, op);
    CrashRun(ops, op, later);
    RunSimulates(Step(s, op), SpecStep(p, op), later);
    ForgottenForGood(p, v, later);
    NothingStored(Run(Step(s, op), later), SpecRun(SpecStep(p, op), later), v, k);
  }

  lemma ForgottenForGood(p: Spec, v: nat, later: seq<Op>)
    requires Numbered(p) && v in p.live
    ensures var p1 := SpecStep(p, Do(Rollback(v)));
            && Numbered(p1) && v !in SpecRun(p1, later).open
            && forall i :: 0 <= i < |SpecRun(p1, later).hist| ==> SpecRun(p1, later).hist[i].version != v
  {
    var p1 := SpecStep(p, Do(Rollback(v)));
    StepNumbered(p, Do(Rollback(v)));
    NeverResumed(p1, later, v);
    assert p1.hist == p.hist && forall i :: 0 <= i < |p.hist| ==> p.hist[i].version != v;
  }

  // ---- Crashes ----

  /** From p to q nothing happens to v, and commits are only added. */
  ghost predicate Frozen(p: Spec, q: Spec, v: nat) {
    && v !in q.live && v < q.next
    && (v in p.open <==> v in q.open) && (v in p.open ==> q.open[v] == p.open[v])
    && |p.hist| <= |q.hist| && (forall i :: 0 <= i < |p.hist| ==> q.hist[i] == p.hist[i])
    && (forall i :: |p.hist| <= i < |q.hist| ==> q.hist[i].version != v)
  }

  lemma FrozenAction(p: Spec, a: Action, v: nat)
    requires Numbered(p) && v !in p.live && v < p.next
    ensures Frozen(p, SpecPerform(p, a), v)
  {
  }

  lemma FrozenCrash(p: Spec, a: Action, n: nat, v: nat)
    requires Numbered(p) && v !in p.live && v < p.next
    ensures Frozen(p, SpecDuring(p, a, n).(live := {}), v)
  {
    match a
    case Begin =>
    case Write(_, _, _) =>
    case Commit(_) =>
    case Rollback(u) => assert u in p.live ==> u != v;
  }

  lemma FrozenStep(p: Spec, op: Op, v: nat)
    requires Numbered(p) && v !in p.live && v < p.next
    ensures Frozen(p, SpecStep(p, op), v)
  {
    match op
    case Do(a) => FrozenAction(p, a, v);
    case Read(_, _) =>
    case Scan(_, _) =>
    case Crash(a, n) => FrozenCrash(p, a, n, v);
  }

  lemma FrozenTransitive(p: Spec, q: Spec, r: Spec, v: nat)
    requires Frozen(p, q, v) && Frozen(q, r, v)
    ensures Frozen(p, r, v)
  {
    assert forall i :: 0 <= i < |p.hist| ==> r.hist[i] == q.hist[i];
    forall i | |p.hist| <= i < |r.hist|
      ensures r.hist[i].version != v
    {
      assert i < |q.hist| ==> r.hist[i] == q.hist[i];
    }
  }

  /** A transaction without a handle is as finished as it will ever be. */
  lemma {:induction false} NeverResumed(p: Spec, ops: seq<Op>, v: nat)
    requires Numbered(p) && v !in p.live && v < p.next
    ensures Frozen(p, SpecRun(p, ops), v)
    decreases |ops|
  {
    if ops != [] {
      var r := SpecStep(p, ops[0]);
      StepNumbered(p, ops[0]);
      FrozenStep(p, ops[0], v);
      NeverResumed(r, ops[1..], v);
      FrozenTransitive(p, r, SpecRun(r, ops[1..]), v);
    }
  }

  /** After a crash every handle belongs to a transaction that began since, and snapshots all earlier commits. */
  lemma {:induction false} NewHandles(p: Spec, ops: seq<Op>, commits: nat)
    requires Numbered(p) && BegunAfter(p, commits)
    ensures BegunAfter(SpecRun(p, ops), commits)
    decreases |ops|
  {
    if ops != [] {
      StepNumbered(p, ops[0]);
      NewHandlesStep(p, ops[0], commits);
      NewHandles(SpecStep(p, ops[0]), ops[1..], commits);
    }
  }

  ghost predicate BegunAfter(p: Spec, commits: nat)
    requires Numbered(p)
  {
    commits <= |p.hist| && forall u :: u in p.live ==> commits <= p.open[u].start
  }

  lemma NewHandlesStep(p: Spec, op: Op, commits: nat)
    requires Numbered(p) && BegunAfter(p, commits)
    ensures Numbered(SpecStep(p, op)) && BegunAfter(SpecStep(p, op), commits)
  {
    var q := SpecStep(p, op);
    StepNumbered(p, op);
    assert forall u :: u in q.live && u in p.live ==> q.open[u].start == p.open[u].start;
  }

  /** The commit of v is complete once its last engine call, clearing the active mark, is made. */
  ghost predicate CommitCompleted(s: State, a: Action, n: nat, v: nat) {
    a == Commit(v) && n >= |CallsOf(s, a)|
  }

  lemma CrashOutcome(s: State, p: Spec, a: Action, n: nat, v: nat)
    requires Simulates(s, p) && v in s.live
    ensures var q := SpecStep(p, Crash(a, n));
            && CommitCalls(s.db, v)[|CommitCalls(s.db, v)| - 1] == ClearActive(v)
            && p.next <= q.next && v !in q.live
            && (CommitCompleted(s, a, n, v) ==> q.hist == p.hist + [Committed(v, p.open[v].start, p.open[v].own)])
            && (!CommitCompleted(s, a, n, v) ==> forall i :: 0 <= i < |q.hist| ==> q.hist[i].version != v)
  {
    if a.Commit? && a.v in p.live {
      CrashedCommit(s, p, a.v, n);
    } else {
      assert SpecStep(p, Crash(a, n)).hist == p.hist;
    }
  }

  lemma CrashedCommit(s: State, p: Spec, u: nat, n: nat)
    requires Simulates(s, p) && u in s.live
    ensures var q := SpecStep(p, Crash(Commit(u), n));
            q.next == p.next && q.live == {} &&
            q.hist == if CommitCompleted(s, Commit(u), n, u) then
                        p.hist + [Committed(u, p.open[u].start, p.open[u].own)]
                      else
                        p.hist
  {
    assert |CallsOf(s, Commit(u))| == |p.open[u].own| + 1;
  }

  ghost function Without(db: Db, v: nat): Db {
    db.(versions := map kv | kv in db.versions && kv.1 != v :: db.versions[kv])
  }

  lemma {:induction false} UnseenIsIrrelevant(db: Db, t: Txn, v: nat, k: Bytes, bound: nat)
    requires t.Sees(v) ==> (k, v) !in db.versions
    ensures ReadBelow(db, t, k, bound) == ReadBelow(Without(db, v), t, k, bound)
  {
    if bound != 0 {
      UnseenIsIrrelevant(db, t, v, k, bound - 1);
    }
  }

  /** A transaction that did not commit contributes to nobody else's reads. */
  lemma UncommittedIsUnread(s: State, p: Spec, v: nat, u: nat, k: Bytes)
    requires Simulates(s, p) && u in s.live && u != v
    requires forall i :: 0 <= i < |p.hist| ==> p.hist[i].version != v
    ensures Get(s.db, s.live[u], k) == Get(Without(s.db, v), s.live[u], k)
  {
    if (k, v) in s.db.versions {
      assert FromHist(p, (k, v).0, (k, v).1) || FromOpen(p, (k, v).0, (k, v).1);
      assert v in p.open;
    }
    UnseenIsIrrelevant(s.db, s.live[u], v, k, s.live[u].version);
  }

  lemma CrashRun(ops: seq<Op>, c: Op, later: seq<Op>)
    ensures Run(INIT, ops + [c] + later) == Run(Step(Run(INIT, ops), c), later)
  {
    RunConcat(INIT, ops, [c] + later);
    assert ops + [c] + later == ops + ([c] + later);
    assert ([c] + later)[1..] == later;
  }

  /**
   A crash between any two engine calls is atomic.  After the restart and any further run,
   a reader sees every version of the interrupted transaction, as it was written, if the
   crash came after its commit cleared the active mark; otherwise none of its versions
   bears on any read.
   */
  lemma CrashIsAtomic(ops: seq<Op>, a: Action, n: nat, later: seq<Op>, v: nat, u: nat)
    requires v in Run(INIT, ops).live
    requires u in Run(INIT, ops + [Crash(a, n)] + later).live
    ensures var s := Run(INIT, ops);
            var s' := Run(INIT, ops + [Crash(a, n)] + later);
            if CommitCompleted(s, a, n, v) then
              && s'.live[u].Sees(v)
              && forall k :: (k, v) in s.db.versions ==>
                   (k, v) in s'.db.versions && s'.db.versions[(k, v)] == s.db.versions[(k, v)]
            else
              forall k :: Get(s'.db, s'.live[u], k) == Get(Without(s'.db, v), s'.live[u], k)
  {
    SnapshotIsolationHolds(ops);
    CrashRun(ops, Crash(a, n), later);
    CrashIsAtomicFrom(Run(INIT, ops), SpecRun(SPEC_INIT, ops), a, n, later, v, u);
  }

  lemma CrashIsAtomicFrom(s: State, p: Spec, a: Action, n: nat, later: seq<Op>, v: nat, u: nat)
    requires Simulates(s, p) && v in s.live && u in Run(Step(s, Crash(a, n)), later).live
    ensures var s' := Run(Step(s, Crash(a, n)), later);
            if CommitCompleted(s, a, n, v) then
              && s'.live[u].Sees(v)
              && forall k :: (k, v) in s.db.versions ==>
                   (k, v) in s'.db.versions && s'.db.versions[(k, v)] == s.db.versions[(k, v)]
            else
              forall k :: Get(s'.db, s'.live[u], k) == Get(Without(s'.db, v), s'.live[u], k)
  {
    var c := Crash(a, n);
    StepSimulates(s, p, c);
    var s1, p1 := Step(s, c), SpecStep(p, c);
    RunSimulates(s1, p1, later);
    var s2, p2 := Run(s1, later), SpecRun(p1, later);
    CrashOutcome(s, p, a, n, v);
    NeverResumed(p1, later, v);
    if CommitCompleted(s, a, n, v) {
      NewHandles(p1, later, |p1.hist|);
      CommittedIsSeen(s, p, s2, p2, v, u);
    } else {
      forall k
        ensures Get(s2.db, s2.live[u], k) == Get(Without(s2.db, v), s2.live[u], k)
      {
        UncommittedIsUnread(s2, p2, v, u, k);
      }
    }
  }

  lemma CommittedIsSeen(s: State, p: Spec, s': State, p': Spec, v: nat, u: nat)
    requires Simulates(s, p) && Simulates(s', p') && v in s.live && u in s'.live
    requires |p.hist| < p'.open[u].start
    requires p'.hist[|p.hist|] == Committed(v, p.open[v].start, p.open[v].own)
    ensures s'.live[u].Sees(v)
    ensures forall k :: (k, v) in s.db.versions ==>
              (k, v) in s'.db.versions && s'.db.versions[(k, v)] == s.db.versions[(k, v)]
  {
    var i := |p.hist|;
    assert s'.live[u].Sees(p'.hist[i].version);
    forall k | (k, v) in s.db.versions
      ensures (k, v) in s'.db.versions && s'.db.versions[(k, v)] == s.db.versions[(k, v)]
    {
      OwnVersions(s, p, v, k);
      assert FromOpen(p, k, v) && k in p'.hist[i].writes;
    }
  }

  /**
   A version a crash leaves behind is never cleaned up: it refuses every later write of its
   key, by every later transaction.
   */
  lemma CrashLocksKeys(ops: seq<Op>, a: Action, n: nat, later: seq<Op>, v: nat, k: Bytes, u: nat, value: Value)
    requires v in Run(INIT, ops).live && !CommitCompleted(Run(INIT, ops), a, n, v)
    requires (k, v) in Run(INIT, ops + [Crash(a, n)]).db.versions
    requires u in Run(INIT, ops + [Crash(a, n)] + later).live
    ensures Answer(Run(INIT, ops + [Crash(a, n)] + later), Do(Write(u, k, value))) == WriteConflict
  {
    var s, p := Run(INIT, ops), SpecRun(SPEC_INIT, ops);
    var c := Crash(a, n);
    SnapshotIsolationHolds(ops);
    StepSimulates(s, p, c);
    CrashRun(ops, c, later);
    CrashRun(ops, c, []);
    assert ops + [c] + [] == ops + [c];
    var s1, p1 := Step(s, c), SpecStep(p, c);
    RunSimulates(s1, p1, later);
    CrashOutcome(s, p, a, n, v);
    NeverResumed(p1, later, v);
    assert FromHist(p1, (k, v).0, (k, v).1) || FromOpen(p1, (k, v).0, (k, v).1);
    LockedByOther(Run(s1, later), SpecRun(p1, later), v, k, u, value);
  }

  lemma LockedByOther(s: State, p: Spec, v: nat, k: Bytes, u: nat, value: Value)
    requires Simulates(s, p) && FromOpen(p, k, v) && u in s.live && u != v
    ensures Answer(s, Do(Write(u, k, value))) == WriteConflict
  {
    AnswerMatches(s, p, Do(Write(u, k, value)));
  }

  /** It does happen: the first transaction writes k, and a crash overtakes its commit. */
  lemma CrashLocksExample(k: Bytes, value: Value, value': Value)
    ensures var ops, c := [Do(Begin), Do(Write(1, k, value))], Crash(Commit(1), 0);
            && 1 in Run(INIT, ops).live && !CommitCompleted(Run(INIT, ops), c.a, c.n, 1)
            && (k, 1) in Run(INIT, ops + [c]).db.versions && 2 in Run(INIT, ops + [c] + [Do(Begin)]).live
            && Answer(Run(INIT, ops + [c] + [Do(Begin)]), Do(Write(2, k, value'))) == WriteConflict
  {
    var ops, c := [Do(Begin), Do(Write(1, k, value))], Crash(Commit(1), 0);
    LockedRun(k, value);
    CrashLocksKeys(ops, c.a, c.n, [Do(Begin)], 1, k, 2, value');
  }

  lemma RunOne(s: State, op: Op)
    ensures Run(s, [op]) == Step(s, op)
  {
    assert [op][1..] == [];
  }

  lemma BeginState(s: State)
    ensures var s' := Step(s, Do(Begin));
            s'.db.next == s.db.next + 1 && s'.db.versions == s.db.versions && s.db.next in s'.live
  {
    ApplyTwo(s.db, SetNext(s.db.next + 1), MarkActive(s.db.next));
  }

  lemma FirstWrite(k: Bytes, value: Value)
    ensures var s := Run(INIT, [Do(Begin), Do(Write(1, k, value))]);
            1 in s.live && s.db.next == 2 && (k, 1) in s.db.versions
  {
    var begin, write := Do(Begin), Do(Write(1, k, value));
    var s := Step(INIT, begin);
    BeginState(INIT);
    ApplyTwo(s.db, RecordWrite(1, k), PutVersion(k, 1, value));
    RunOne(INIT, begin);
    RunOne(s, write);
    RunConcat(INIT, [begin], [write]);
    assert [begin] + [write] == [begin, write];
  }

  lemma CrashBeforeCalls(s: State, a: Action)
    ensures Step(s, Crash(a, 0)).db == s.db
  {
    assert Prefix(CallsOf(s, a), 0) == [];
  }

  lemma LockedRun(k: Bytes, value: Value)
    ensures var ops, c := [Do(Begin), Do(Write(1, k, value))], Crash(Commit(1), 0);
            && 1 in Run(INIT, ops).live && !CommitCompleted(Run(INIT, ops), c.a, c.n, 1)
            && (k, 1) in Run(INIT, ops + [c]).db.versions && 2 in Run(INIT, ops + [c] + [Do(Begin)]).live
  {
    var ops, c := [Do(Begin), Do(Write(1, k, value))], Crash(Commit(1), 0);
    FirstWrite(k, value);
    CrashBeforeCalls(Run(INIT, ops), c.a);
    RunOne(Run(INIT, ops), c);
    RunConcat(INIT, ops, [c]);
    BeginState(Run(INIT, ops + [c]));
    RunOne(Run(INIT, ops + [c]), Do(Begin));
    RunConcat(INIT, ops + [c], [Do(Begin)]);
  }
}
