/** The store as its sessions share it: the byte-level code, and the requests it has answered. */
module Stores {
  import opened MvccKeys
  import opened Engines
  import opened MvccProtocol
  import opened MvccImages
  import opened LogRoom
  import opened Mvcc
  import opened SnapshotIsolation
  import opened MvccSimulation
  import opened MvccHistories
  import opened MvccService

  lemma RunSnoc(ops: seq<Op>, op: Op)
    ensures Run(INIT, ops + [op]) == Step(Run(INIT, ops), op)
  {
    RunConcat(INIT, ops, [op]);
    RunOne(Run(INIT, ops), op);
  }

  lemma RunFacts(ops: seq<Op>)
    ensures Allocated(Run(INIT, ops)) && Run(INIT, ops).db.next == SpecRun(SPEC_INIT, ops).next
  {
    SnapshotIsolationHolds(ops);
  }

  lemma AnswerIsSpec(ops: seq<Op>, op: Op)
    ensures Answer(Run(INIT, ops), op) == SpecAnswer(SpecRun(SPEC_INIT, ops), op)
  {
    SnapshotIsolationHolds(ops);
    AnswerMatches(Run(INIT, ops), SpecRun(SPEC_INIT, ops), op);
  }

  lemma NextAfter(p: Spec, op: Op)
    requires Numbered(p) && !op.Crash?
    ensures SpecStep(p, op).next == p.next + if op == Do(Begin) then 1 else 0
  {
  }

  lemma RequestStep(ops: seq<Op>, op: Op)
    requires !op.Crash?
    ensures Run(INIT, ops + [op]) == Step(Run(INIT, ops), op) && Allocated(Step(Run(INIT, ops), op))
    ensures Answer(Run(INIT, ops), op) == SpecAnswer(SpecRun(SPEC_INIT, ops), op)
    ensures Run(INIT, ops + [op]).db.next == Run(INIT, ops).db.next + if op == Do(Begin) then 1 else 0
    ensures SpecRun(SPEC_INIT, ops + [op]) == SpecStep(SpecRun(SPEC_INIT, ops), op)
  {
    RunSnoc(ops, op);
    SpecRunSnoc(SPEC_INIT, ops, op);
    RunFacts(ops);
    RunFacts(ops + [op]);
    AnswerIsSpec(ops, op);
    NextAfter(SpecRun(SPEC_INIT, ops), op);
  }

  /** From the requests a to the requests b, nobody asked anything on behalf of v, and nothing crashed. */
  ghost predicate Meanwhile(a: seq<Op>, b: seq<Op>, v: nat) {
    a <= b && forall i :: |a| <= i < |b| ==> !Touches(b[i], v)
  }

  /** The engine calls of the requests after the first n. */
  ghost function CallsSince(ops: seq<Op>, n: nat): seq<Call> {
    if |ops| <= n then []
    else
      var init, op := ops[..|ops| - 1], ops[|ops| - 1];
      CallsSince(init, n) + CallsBy(Run(INIT, init), op)
  }

  lemma CallsSnoc(ops: seq<Op>, op: Op, n: nat)
    requires n <= |ops|
    ensures CallsSince(ops + [op], n) == CallsSince(ops, n) + CallsBy(Run(INIT, ops), op)
  {
    assert (ops + [op])[..|ops|] == ops;
  }

  /** A process that opened the engine after the first n requests. */
  ghost predicate InStep(state: MvccState, ops: seq<Op>, n: nat)
    reads state
  {
    && n <= |ops| && state.base == Run(INIT, ops[..n]).db && state.calls == CallsSince(ops, n)
    && forall i :: n <= i < |ops| ==> !ops[i].Crash?
  }

  /** The process is in step with the protocol after these requests, of which begun were to begin. */
  ghost predicate Serving(state: MvccState, handles: map<nat, MvccTransaction>, begun: nat, ops: seq<Op>, n: nat)
    reads state, state.engine.Repr()
  {
    forall layer {:trigger Opened(layer)} :: Opened(layer) && layer.StoreLayer? ==>
      && Tracks(state, handles, Run(INIT, ops)) && InStep(state, ops, n)
      && Run(INIT, ops).db.next == begun + 1 < MAX_VERSION
  }

  function BegunWith(begun: nat, op: Op): nat {
    if op == Do(Begin) then begun + 1 else begun
  }

  method ServeNext(
    mvcc: MVCC, handles: map<nat, MvccTransaction>, op: Op, ghost begun: nat, ghost ops: seq<Op>, ghost n: nat)
    returns (r: Response, handles': map<nat, MvccTransaction>)
    requires Serving(mvcc.state, handles, begun, ops, n) && !op.Crash? && BegunWith(begun, op) + 1 < MAX_VERSION
    requires mvcc.state.engine.disk != null ==> RoomyOp(op)
    modifies mvcc.state`calls, mvcc.state.engine.Repr()
    ensures Serving(mvcc.state, handles', BegunWith(begun, op), ops + [op], n)
    ensures r == SpecAnswer(SpecRun(SPEC_INIT, ops), op)
  {
    assert Opened(StoreLayer);
    RequestStep(ops, op);
    CallsSnoc(ops, op, n);
    assert (ops + [op])[..n] == ops[..n];
    r, handles' := Serve(mvcc, handles, op, Run(INIT, ops));
  }

  /** What one process makes of the requests of its sessions, over an engine that may outlive it. */
  class Store {
    const mvcc: MVCC
    var handles: map<nat, MvccTransaction>
    /** How many transactions have begun. */
    var begun: nat
    /** How many requests earlier processes had answered. */
    ghost const earlier: nat
    /** Everything asked so far, of this process and of earlier ones. */
    ghost var ops: seq<Op>

    /** The objects this one is made of; what they are is part of the invariant. */
    ghost const parts: set<object>

    ghost function Repr(): set<object> {
      {this} + parts
    }

    ghost predicate Apart() {
      forall layer {:trigger Opened(layer)} :: Opened(layer) && layer.FrameLayer? ==>
        this !in parts && {mvcc.state} + mvcc.state.engine.Repr() <= parts
    }

    ghost predicate Valid()
      reads Repr()
    {
      Apart() && assert Opened(FrameLayer); Serving(mvcc.state, handles, begun, ops, earlier)
    }

    ghost function Now(): Spec
      reads this
    {
      SpecRun(SPEC_INIT, ops)
    }

    constructor (mvcc: MVCC, begun: nat, ghost ops: seq<Op>)
      requires Tracks(mvcc.state, map[], Run(INIT, ops)) && InStep(mvcc.state, ops, |ops|)
      requires Run(INIT, ops).db.next == begun + 1 < MAX_VERSION
      ensures Valid() && this.mvcc == mvcc && this.begun == begun && this.ops == ops && earlier == |ops|
      ensures parts == {mvcc.state} + mvcc.state.engine.Repr()
    {
      this.parts := {mvcc.state} + mvcc.state.engine.Repr();
      this.mvcc, this.begun, this.ops := mvcc, begun, ops;
      this.handles, this.earlier := map[], |ops|;
    }

    predicate HasRoom()
      reads this
    {
      begun + 2 < MAX_VERSION
    }

    predicate OnDisk() {
      mvcc.state.engine.disk != null
    }

    /** The engine has room for what the request writes. */
    predicate Takes(op: Op) {
      OnDisk() ==> RoomyOp(op)
    }

    /** One request, answered as snapshot isolation answers it. */
    method Request(op: Op) returns (r: Response)
      requires Valid() && !op.Crash? && Takes(op) && (op == Do(Begin) ==> HasRoom())
      modifies Repr()
      ensures Valid() && ops == old(ops) + [op] && r == SpecAnswer(old(Now()), op)
      ensures Now() == SpecStep(old(Now()), op) && begun <= old(begun) + 1
    {
      assert Opened(FrameLayer);
      Versions();
      SpecRunSnoc(SPEC_INIT, ops, op);
      var next, count := handles, BegunWith(begun, op);
      ghost var asked := ops + [op];
      r, next := ServeNext(mvcc, handles, op, begun, ops, earlier);
      Advance(next, count, asked);
    }

    method Advance(next: map<nat, MvccTransaction>, count: nat, ghost asked: seq<Op>)
      requires Apart() && Serving(mvcc.state, next, count, asked, earlier)
      modifies this
      ensures Valid() && ops == asked && begun == count
    {
      assert Opened(FrameLayer);
      handles, begun, ops := next, count, asked;
    }

    /** Nothing has happened to it in the meantime. */
    twostate lemma StillValid()
      requires old(Valid()) && unchanged(Repr())
      ensures Valid()
    {
      assert Opened(FrameLayer);
    }

    lemma Versions()
      requires Valid()
      ensures Run(INIT, ops).db.next == begun + 1 < MAX_VERSION
    {
      assert Opened(StoreLayer);
    }

    /** The other sessions get on with theirs: any requests that are not on behalf of v. */
    method Others(v: nat, script: seq<Op>)
      requires Valid()
      modifies Repr()
      ensures Valid() && Meanwhile(old(ops), ops, v)
      ensures script == [] ==> ops == old(ops)
    {
      for i := 0 to |script|
        invariant Valid() && Meanwhile(old(ops), ops, v) && (script == [] ==> ops == old(ops))
      {
        if !Touches(script[i], v) && Takes(script[i]) && (script[i] == Do(Begin) ==> HasRoom()) {
          var _ := Request(script[i]);
        }
      }
    }
  }

  /** A store over an empty map. */
  method InMemory() returns (store: Store)
    ensures store.Valid() && store.ops == [] && store.begun == 0 && !store.OnDisk() && fresh(store.Repr())
  {
    var engine := new Engine.InMemory();
    EmptyRepresents();
    var state := new MvccState(engine, EMPTY);
    var mvcc := new MVCC(state);
    store := new Store(mvcc, 0, []);
  }

  lemma {:induction false} TraceSnoc(p: Spec, ops: seq<Op>, op: Op)
    requires Numbered(p)
    ensures SpecTrace(p, ops + [op]) == SpecTrace(p, ops) + [SpecAnswer(SpecRun(p, ops), op)]
    decreases |ops|
  {
    StepNumbered(p, (ops + [op])[0]);
    if ops != [] {
      assert (ops + [op])[1..] == ops[1..] + [op];
      TraceSnoc(SpecStep(p, ops[0]), ops[1..], op);
    }
  }

  method Continue(store: Store, answers: seq<Response>, op: Op) returns (more: seq<Response>)
    requires store.Valid() && store.HasRoom() && !op.Crash? && store.Takes(op)
    requires answers == SpecTrace(SPEC_INIT, store.ops)
    modifies store.Repr()
    ensures store.Valid() && store.ops == old(store.ops) + [op] && store.begun <= old(store.begun) + 1
    ensures more == SpecTrace(SPEC_INIT, store.ops)
  {
    TraceSnoc(SPEC_INIT, store.ops, op);
    var r := store.Request(op);
    more := answers + [r];
  }

  /** Every script of requests, in any interleaving, is answered as snapshot isolation answers it. */
  method ServeAll(script: seq<Op>) returns (answers: seq<Response>)
    requires |script| + 2 < MAX_VERSION && forall op :: op in script ==> !op.Crash?
    ensures answers == SpecTrace(SPEC_INIT, script)
  {
    var store := InMemory();
    answers := [];
    for i := 0 to |script|
      invariant store.Valid() && fresh(store.Repr()) && !store.OnDisk()
      invariant store.ops == script[..i] && store.begun <= i && answers == SpecTrace(SPEC_INIT, store.ops)
    {
      assert script[..i + 1] == script[..i] + [script[i]];
      answers := Continue(store, answers, script[i]);
    }
    assert script[..|script|] == script;
  }
}
