/**
 A process over a log on disk dies between any two of its engine calls, and another one opens
 what is in the file.
 */
module Restarts {
  import opened MvccKeys
  import opened DiskLogs
  import opened DiskEngines
  import opened Engines
  import opened MvccProtocol
  import opened MvccImages
  import opened LogRoom
  import opened Mvcc
  import opened SnapshotIsolation
  import opened MvccHistories
  import opened MvccService
  import opened Stores

  // ---- When it dies ----

  /** The action a process is at when it has answered i requests. */
  function ActionAt(ops: seq<Op>, i: nat): Action {
    if i < |ops| && ops[i].Do? then ops[i].a else Begin
  }

  /** The process dies after n engine calls of request i. */
  function CrashedAt(ops: seq<Op>, i: nat, n: nat): seq<Op>
    requires i <= |ops|
  {
    ops[..i] + [Crash(ActionAt(ops, i), n)]
  }

  /** A moment in the life of a process that opened the log after the first k requests. */
  predicate Moment(ops: seq<Op>, k: nat, i: nat, n: nat) {
    k <= i <= |ops| && (n > 0 ==> i < |ops| && ops[i].Do?)
  }

  /** The engine calls up to that moment. */
  ghost function CallsUpTo(ops: seq<Op>, k: nat, i: nat, n: nat): seq<Call>
    requires i <= |ops|
  {
    CallsSince(ops[..i], k) + Prefix(CallsOf(Run(INIT, ops[..i]), ActionAt(ops, i)), n)
  }

  lemma {:induction false} CallsPrefix(ops: seq<Op>, k: nat, i: nat)
    requires k <= i <= |ops|
    ensures CallsSince(ops[..i], k) <= CallsSince(ops, k)
    ensures i < |ops| ==> CallsSince(ops[..i], k) + CallsBy(Run(INIT, ops[..i]), ops[i]) <= CallsSince(ops, k)
    decreases |ops|
  {
    if i == |ops| {
      assert ops[..i] == ops;
    } else {
      var init := ops[..|ops| - 1];
      if i < |init| {
        CallsPrefix(init, k, i);
        assert init[..i] == ops[..i] && init[i] == ops[i];
      } else {
        assert init == ops[..i];
      }
    }
  }

  lemma UpToIsPrefix(ops: seq<Op>, k: nat, i: nat, n: nat)
    requires Moment(ops, k, i, n)
    ensures CallsUpTo(ops, k, i, n) <= CallsSince(ops, k)
  {
    CallsPrefix(ops, k, i);
    if n == 0 {
      assert Prefix(CallsOf(Run(INIT, ops[..i]), ActionAt(ops, i)), 0) == [];
      assert CallsUpTo(ops, k, i, n) == CallsSince(ops[..i], k);
    }
  }

  lemma EarlierMoment(init: seq<Op>, op: Op, k: nat, i: nat, n: nat)
    requires Moment(init, k, i, n)
    ensures Moment(init + [op], k, i, n) && CallsUpTo(init + [op], k, i, n) == CallsUpTo(init, k, i, n)
  {
    var ops := init + [op];
    assert ops[..i] == init[..i];
    if n == 0 {
      assert forall cs: seq<Call> :: Prefix(cs, 0) == [];
    } else {
      assert ops[i] == init[i];
    }
  }

  lemma LastMoment(init: seq<Op>, op: Op, k: nat, n: nat)
    requires k <= |init| && 0 < n <= |CallsBy(Run(INIT, init), op)|
    ensures Moment(init + [op], k, |init|, n)
    ensures |CallsUpTo(init + [op], k, |init|, n)| == |CallsSince(init, k)| + n
  {
    assert (init + [op])[..|init|] == init && (init + [op])[|init|] == op;
  }

  /** However many engine calls have been made, that is some moment. */
  lemma {:induction false} MomentOf(ops: seq<Op>, k: nat, m: nat) returns (i: nat, n: nat)
    requires k <= |ops| && m <= |CallsSince(ops, k)|
    ensures Moment(ops, k, i, n) && |CallsUpTo(ops, k, i, n)| == m
    decreases |ops|
  {
    if |ops| == k {
      i, n := k, 0;
    } else {
      var init, op := ops[..|ops| - 1], ops[|ops| - 1];
      assert ops == init + [op];
      CallsSnoc(init, op, k);
      if m <= |CallsSince(init, k)| {
        i, n := MomentOf(init, k, m);
        EarlierMoment(init, op, k, i, n);
      } else {
        i, n := |init|, m - |CallsSince(init, k)|;
        LastMoment(init, op, k, n);
      }
    }
  }

  // ---- What is in the file then ----

  lemma {:induction false} CallsMakeRun(ops: seq<Op>, k: nat)
    requires k <= |ops| && forall i :: k <= i < |ops| ==> !ops[i].Crash?
    ensures ApplyAll(Run(INIT, ops[..k]).db, CallsSince(ops, k)) == Run(INIT, ops).db
    decreases |ops|
  {
    if |ops| == k {
      assert ops[..k] == ops;
    } else {
      var init, op := ops[..|ops| - 1], ops[|ops| - 1];
      CallsMakeRun(init, k);
      assert init[..k] == ops[..k] && ops == init + [op];
      RunSnoc(init, op);
      ApplyAllConcat(Run(INIT, ops[..k]).db, CallsSince(init, k), CallsBy(Run(INIT, init), op));
    }
  }

  lemma UpToMakesRun(ops: seq<Op>, k: nat, i: nat, n: nat)
    requires Moment(ops, k, i, n) && forall j :: k <= j < |ops| ==> !ops[j].Crash?
    ensures ApplyAll(Run(INIT, ops[..k]).db, CallsUpTo(ops, k, i, n)) == Run(INIT, CrashedAt(ops, i, n)).db
    ensures Run(INIT, CrashedAt(ops, i, n)).live == map[]
  {
    var s, a := Run(INIT, ops[..i]), ActionAt(ops, i);
    assert ops[..i][..k] == ops[..k];
    CallsMakeRun(ops[..i], k);
    ApplyAllConcat(Run(INIT, ops[..k]).db, CallsSince(ops[..i], k), Prefix(CallsOf(s, a), n));
    RunSnoc(ops[..i], Crash(a, n));
  }

  lemma {:induction false} RoomStays(db: Db, cs: seq<Call>)
    requires RoomyDb(db) && AllGood(cs)
    ensures RoomyDb(ApplyAll(db, cs))
  {
    if cs != [] {
      RoomStays(db, cs[..|cs| - 1]);
      GoodApplied(ApplyAll(db, cs[..|cs| - 1]), cs[|cs| - 1]);
    }
  }

  /** After some of the calls the file holds the records the protocol has after as many. */
  lemma FileHolds(found: seq<Record>, base: Db, calls: seq<Call>, some: seq<Call>)
    requires Mvcc.OnDisk(found, base, calls) && some <= calls
    ensures AllFit(some) && Mvcc.OnDisk(found + RecordsOf(EncodeCalls(some)), ApplyAll(base, some), [])
  {
    assert forall c :: c in some ==> c in calls && GoodCall(c);
    forall e | e in EncodeCalls(some)
      ensures Takes(e)
    {
      var i :| 0 <= i < |some| && EncodeCalls(some)[i] == e;
      assert GoodCall(some[i]);
    }
    LoadedCalls(found, EncodeCalls(some));
    CallsRepresent(LoadedAll(Replay(found)), base, some);
    RoomStays(base, some);
  }

  /** The engine's updates up to that moment. */
  ghost function UpdatesUpTo(store: Store, i: nat, n: nat): nat
    requires i <= |store.ops|
    reads store
  {
    |CallsUpTo(store.ops, store.earlier, i, n)|
  }

  lemma EncodePrefix(calls: seq<Call>, some: seq<Call>)
    requires AllFit(calls) && some <= calls
    ensures AllFit(some) && |some| <= |EncodeCalls(calls)| && EncodeCalls(calls)[..|some|] == EncodeCalls(some)
  {
    assert forall c :: c in some ==> c in calls;
  }

  /** What the file holds at that moment is what the protocol's records are after the crash. */
  lemma FileAtMoment(store: Store, i: nat, n: nat)
    requires store.Valid() && store.OnDisk() && Moment(store.ops, store.earlier, i, n)
    ensures var engine, m := store.mvcc.state.engine, UpdatesUpTo(store, i, n);
            && m <= |engine.journal| && AllWellFormed(engine.RecordsAfter(m))
            && Mvcc.OnDisk(engine.RecordsAfter(m), Run(INIT, CrashedAt(store.ops, i, n)).db, [])
    ensures Run(INIT, CrashedAt(store.ops, i, n)).live == map[]
  {
    assert Opened(StoreLayer);
    assert Opened(StateLayer);
    var state, some := store.mvcc.state, CallsUpTo(store.ops, store.earlier, i, n);
    UpToIsPrefix(store.ops, store.earlier, i, n);
    UpToMakesRun(store.ops, store.earlier, i, n);
    FileHolds(state.engine.found, state.base, state.calls, some);
    EncodePrefix(state.calls, some);
    state.engine.RecordsAreWellFormed(|some|);
  }

  lemma CrashNext(p: Spec, a: Action, n: nat)
    requires Numbered(p)
    ensures SpecStep(p, Crash(a, n)).next <= SpecStep(p, Do(a)).next
    ensures n == 0 ==> SpecStep(p, Crash(a, n)).next <= p.next
  {
  }

  lemma CrashedNext(ops: seq<Op>, a: Action, n: nat)
    ensures SpecRun(SPEC_INIT, ops + [Crash(a, n)]).next <= SpecRun(SPEC_INIT, ops + [Do(a)]).next
    ensures n == 0 ==> SpecRun(SPEC_INIT, ops + [Crash(a, n)]).next <= SpecRun(SPEC_INIT, ops).next
  {
    SpecRunSnoc(SPEC_INIT, ops, Crash(a, n));
    SpecRunSnoc(SPEC_INIT, ops, Do(a));
    CrashNext(SpecRun(SPEC_INIT, ops), a, n);
  }

  lemma NextAtLeast(ops: seq<Op>, i: nat)
    requires i <= |ops|
    ensures SpecRun(SPEC_INIT, ops[..i]).next <= SpecRun(SPEC_INIT, ops).next
  {
    assert ops == ops[..i] + ops[i..];
    SpecRunConcat(SPEC_INIT, ops[..i], ops[i..]);
    NextGrowsFrom(SpecRun(SPEC_INIT, ops[..i]), ops[i..]);
  }

  /** The next version is no more than it was when the process died. */
  lemma VersionsLeft(ops: seq<Op>, i: nat, n: nat)
    requires i <= |ops| && (n > 0 ==> i < |ops| && ops[i].Do?)
    ensures Run(INIT, CrashedAt(ops, i, n)).db.next <= Run(INIT, ops).db.next
  {
    RunFacts(CrashedAt(ops, i, n));
    RunFacts(ops);
    SpecVersionsLeft(ops, i, n);
  }

  lemma SpecVersionsLeft(ops: seq<Op>, i: nat, n: nat)
    requires i <= |ops| && (n > 0 ==> i < |ops| && ops[i].Do?)
    ensures SpecRun(SPEC_INIT, CrashedAt(ops, i, n)).next <= SpecRun(SPEC_INIT, ops).next
  {
    CrashedNext(ops[..i], ActionAt(ops, i), n);
    if n == 0 {
      NextAtLeast(ops, i);
    } else {
      assert ops[..i + 1] == ops[..i] + [Do(ActionAt(ops, i))];
      NextAtLeast(ops, i + 1);
    }
  }

  // ---- Opening the file again ----

  /** `NewDiskEngine`, or `NewDiskEngineCompact`. */
  method OpenState(file: DiskLog, compact: bool, ghost rs: seq<Record>, ghost db: Db) returns (state: MvccState)
    requires AllWellFormed(rs) && file.bytes == EncodeAll(rs) && Mvcc.OnDisk(rs, db, [])
    ensures state.Valid() && state.base == db && state.calls == [] && state.engine.disk != null
    ensures fresh(state) && fresh(state.engine.Repr() - {file})
  {
    var disk := DiskEngines.Open(file);
    if compact {
      disk.Compact();
    }
    var engine := new Engine.OnDisk(disk, disk.log);
    state := new MvccState(engine, db);
  }

  /** `NewMVCC` over a file that holds the records there were. */
  method OpenLog(file: DiskLog, compact: bool, ghost rs: seq<Record>, ghost ops: seq<Op>) returns (store: Store)
    requires AllWellFormed(rs) && file.bytes == EncodeAll(rs) && Mvcc.OnDisk(rs, Run(INIT, ops).db, [])
    requires Run(INIT, ops).live == map[] && Run(INIT, ops).db.next < MAX_VERSION
    ensures store.Valid() && store.OnDisk() && store.ops == ops && store.earlier == |ops|
    ensures store.begun + 1 == Run(INIT, ops).db.next && fresh(store.Repr() - {file})
  {
    var state := OpenState(file, compact, rs, Run(INIT, ops).db);
    var mvcc := new MVCC(state);
    var next := state.LoadNext();
    assert ops[..|ops|] == ops;
    store := new Store(mvcc, next - 1, ops);
  }

  /** A store over an empty file. */
  method Create() returns (store: Store)
    ensures store.Valid() && store.OnDisk() && store.ops == [] && store.begun == 0 && fresh(store.Repr())
  {
    var file := new DiskLog([]);
    EmptyRepresents();
    assert LoadedAll(Replay([])) == map[];
    store := OpenLog(file, false, [], []);
  }

  /**
   Another process opens the file that a dead one left at some moment: it answers as after the
   crash at that moment.
   */
  method Reopen(file: DiskLog, compact: bool, ghost dead: Store, ghost i: nat, ghost n: nat) returns (store: Store)
    requires dead.Valid() && dead.OnDisk() && Moment(dead.ops, dead.earlier, i, n)
    requires var engine, m := dead.mvcc.state.engine, UpdatesUpTo(dead, i, n);
             m <= |engine.journal| && file.bytes == EncodeAll(engine.RecordsAfter(m))
    ensures store.Valid() && store.OnDisk() && store.ops == CrashedAt(dead.ops, i, n)
    ensures store.begun <= dead.begun && fresh(store.Repr() - {file})
  {
    FileAtMoment(dead, i, n);
    dead.Versions();
    VersionsLeft(dead.ops, i, n);
    ghost var rs := dead.mvcc.state.engine.RecordsAfter(UpdatesUpTo(dead, i, n));
    store := OpenLog(file, compact, rs, CrashedAt(dead.ops, i, n));
  }

  lemma Journal(store: Store)
    requires store.Valid()
    ensures store.mvcc.state.engine.Valid() && store.earlier <= |store.ops|
    ensures |store.mvcc.state.engine.journal| == |CallsSince(store.ops, store.earlier)|
  {
    assert Opened(StoreLayer);
    assert Opened(StateLayer);
  }

  lemma CallsOfLast(ops: seq<Op>, a: Action, k: nat, n: nat)
    requires k <= |ops|
    ensures var more, cs := ops + [Do(a)], CallsOf(Run(INIT, ops), a);
            && Moment(more, k, |ops|, n) && CrashedAt(more, |ops|, n) == ops + [Crash(a, n)]
            && |CallsSince(more, k)| == |CallsSince(ops, k)| + |cs|
            && |CallsUpTo(more, k, |ops|, n)| == |CallsSince(ops, k)| + if n < |cs| then n else |cs|
  {
    CallsSnoc(ops, Do(a), k);
    assert (ops + [Do(a)])[..|ops|] == ops && (ops + [Do(a)])[|ops|] == Do(a);
  }

  /** The process dies at some moment, after m engine calls in all; another one opens the file. */
  method Restart(store: Store, m: nat, compact: bool, ghost i: nat, ghost n: nat) returns (next: Store)
    requires store.Valid() && store.OnDisk() && Moment(store.ops, store.earlier, i, n) && m == UpdatesUpTo(store, i, n)
    ensures next.Valid() && next.OnDisk() && next.ops == CrashedAt(store.ops, i, n)
    ensures next.begun <= store.begun && fresh(next.Repr())
  {
    Journal(store);
    UpToIsPrefix(store.ops, store.earlier, i, n);
    var bytes := store.mvcc.state.engine.Torn(m);
    var file := new DiskLog(bytes);
    store.StillValid();
    next := Reopen(file, compact, store, i, n);
  }

  /** The process dies inside an action, after n of its engine calls; another one opens the file. */
  method Die(store: Store, a: Action, n: nat, compact: bool) returns (next: Store)
    requires store.Valid() && store.OnDisk() && store.HasRoom() && store.Takes(Do(a))
    modifies store.Repr()
    ensures next.Valid() && next.OnDisk() && next.ops == old(store.ops) + [Crash(a, n)]
    ensures next.begun <= old(store.begun) + 1 && fresh(next.Repr())
  {
    Journal(store);
    CallsOfLast(store.ops, a, store.earlier, n);
    ghost var ops := store.ops;
    var start := |store.mvcc.state.engine.journal|;
    var _ := store.Request(Do(a));
    Journal(store);
    var all := |store.mvcc.state.engine.journal|;
    next := Restart(store, if start + n < all then start + n else all, compact, |ops|, n);
  }

  /** One request or crash, answered as snapshot isolation answers it. */
  method Respond(store: Store, op: Op, compact: bool) returns (r: Response, next: Store)
    requires store.Valid() && store.OnDisk() && store.HasRoom() && RoomyOp(op)
    modifies store.Repr()
    ensures next.Valid() && next.OnDisk() && next.ops == old(store.ops) + [op] && next.begun <= old(store.begun) + 1
    ensures r == SpecAnswer(old(store.Now()), op) && fresh(next.Repr() - store.Repr())
  {
    if op.Crash? {
      next := Die(store, op.a, op.n, compact);
      r := Restarted;
    } else {
      r := store.Request(op);
      next := store;
    }
  }

  /**
   Every script of requests and crashes, in any interleaving, over a log on disk: with nothing
   but the file kept over a crash, and compacted on opening it or not, it is answered as snapshot
   isolation answers it.
   */
  method ServeDurably(script: seq<Op>, compact: nat -> bool) returns (answers: seq<Response>)
    requires |script| + 2 < MAX_VERSION && forall op :: op in script ==> RoomyOp(op)
    ensures answers == SpecTrace(SPEC_INIT, script)
  {
    var store := Create();
    answers := [];
    for i := 0 to |script|
      invariant store.Valid() && store.OnDisk() && fresh(store.Repr())
      invariant store.ops == script[..i] && store.begun <= i && answers == SpecTrace(SPEC_INIT, store.ops)
    {
      assert script[..i + 1] == script[..i] + [script[i]];
      TraceSnoc(SPEC_INIT, store.ops, script[i]);
      var r;
      r, store := Respond(store, script[i], compact(i));
      answers := answers + [r];
    }
    assert script[..|script|] == script;
  }
}
