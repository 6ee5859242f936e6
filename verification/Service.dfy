/** The byte-level code as its clients meet it: one request at a time, for any of the open transactions. */
module MvccService {
  import opened ByteStrings
  import opened MvccKeys
  import opened MvccProtocol
  import opened LogRoom
  import opened Mvcc

  /** Handles are keyed by their versions, which have all been allocated. */
  ghost predicate Allocated(s: State) {
    forall v :: v in s.live ==> s.live[v].version == v < s.db.next
  }

  /** The open handles of the byte-level code are those of the protocol state. */
  ghost predicate Tracks(state: MvccState, handles: map<nat, MvccTransaction>, s: State)
    reads state, state.engine.Repr()
  {
    && state.Valid() && state.Contents() == s.db && Allocated(s)
    && handles.Keys == s.live.Keys
    && (forall v :: v in handles ==> handles[v].shared == state && handles[v].state == s.live[v])
  }

  method ServeBegin(mvcc: MVCC, handles: map<nat, MvccTransaction>, ghost s: State)
    returns (r: Response, handles': map<nat, MvccTransaction>)
    requires Tracks(mvcc.state, handles, s) && Allocated(Perform(s, Begin)) && s.db.next < MAX_VERSION
    modifies mvcc.state`calls, mvcc.state.engine.Repr()
    ensures r == Answer(s, Do(Begin)) && Tracks(mvcc.state, handles', Perform(s, Begin))
    ensures mvcc.state.calls == old(mvcc.state.calls) + CallsOf(s, Begin)
  {
    var t := mvcc.Begin();
    handles' := handles[t.state.version := t];
    r := Started(t.state.version);
  }

  method ServeWrite(mvcc: MVCC, handles: map<nat, MvccTransaction>, v: nat, k: Bytes, value: Value, ghost s: State)
    returns (r: Response)
    requires Tracks(mvcc.state, handles, s) && Allocated(Perform(s, Write(v, k, value))) && s.db.next < MAX_VERSION
    requires mvcc.state.engine.disk != null ==> Roomy(k, value)
    modifies mvcc.state`calls, mvcc.state.engine.Repr()
    ensures r == Answer(s, Do(Write(v, k, value))) && Tracks(mvcc.state, handles, Perform(s, Write(v, k, value)))
    ensures mvcc.state.calls == old(mvcc.state.calls) + CallsOf(s, Write(v, k, value))
  {
    if v !in handles {
      return NoSuchHandle;
    }
    var ok := handles[v].Write(k, value);
    r := if ok then Done else WriteConflict;
  }

  method ServeCommit(mvcc: MVCC, handles: map<nat, MvccTransaction>, v: nat, ghost s: State)
    returns (r: Response, handles': map<nat, MvccTransaction>)
    requires Tracks(mvcc.state, handles, s) && Allocated(Perform(s, Commit(v))) && s.db.next < MAX_VERSION
    modifies mvcc.state`calls, mvcc.state.engine.Repr()
    ensures r == Answer(s, Do(Commit(v))) && Tracks(mvcc.state, handles', Perform(s, Commit(v)))
    ensures mvcc.state.calls == old(mvcc.state.calls) + CallsOf(s, Commit(v))
  {
    if v !in handles {
      return NoSuchHandle, handles;
    }
    handles[v].Commit();
    r, handles' := Done, handles - {v};
  }

  method ServeRollback(mvcc: MVCC, handles: map<nat, MvccTransaction>, v: nat, ghost s: State)
    returns (r: Response, handles': map<nat, MvccTransaction>)
    requires Tracks(mvcc.state, handles, s) && Allocated(Perform(s, Rollback(v))) && s.db.next < MAX_VERSION
    modifies mvcc.state`calls, mvcc.state.engine.Repr()
    ensures r == Answer(s, Do(Rollback(v))) && Tracks(mvcc.state, handles', Perform(s, Rollback(v)))
    ensures mvcc.state.calls == old(mvcc.state.calls) + CallsOf(s, Rollback(v))
  {
    if v !in handles {
      return NoSuchHandle, handles;
    }
    handles[v].Rollback();
    r, handles' := Done, handles - {v};
  }

  method ServeAction(mvcc: MVCC, handles: map<nat, MvccTransaction>, a: Action, ghost s: State)
    returns (r: Response, handles': map<nat, MvccTransaction>)
    requires Tracks(mvcc.state, handles, s) && Allocated(Perform(s, a)) && s.db.next < MAX_VERSION
    requires mvcc.state.engine.disk != null ==> RoomyOp(Do(a))
    modifies mvcc.state`calls, mvcc.state.engine.Repr()
    ensures r == Answer(s, Do(a)) && Tracks(mvcc.state, handles', Perform(s, a))
    ensures mvcc.state.calls == old(mvcc.state.calls) + CallsOf(s, a)
  {
    handles' := handles;
    match a
    case Begin => r, handles' := ServeBegin(mvcc, handles, s);
    case Write(v, k, value) => r := ServeWrite(mvcc, handles, v, k, value, s);
    case Commit(v) => r, handles' := ServeCommit(mvcc, handles, v, s);
    case Rollback(v) => r, handles' := ServeRollback(mvcc, handles, v, s);
  }

  method ServeRead(handles: map<nat, MvccTransaction>, op: Op, ghost state: MvccState, ghost s: State)
    returns (r: Response)
    requires Tracks(state, handles, s) && s.db.next < MAX_VERSION && (op.Read? || op.Scan?)
    ensures r == Answer(s, op)
  {
    if op.v !in handles {
      return NoSuchHandle;
    }
    if op.Read? {
      var value := handles[op.v].Get(op.k);
      r := Found(value);
    } else {
      var es := handles[op.v].ScanPrefix(op.p);
      r := Entries(es);
    }
  }

  /** The engine calls a request makes. */
  ghost function CallsBy(s: State, op: Op): seq<Call> {
    if op.Do? then CallsOf(s, op.a) else []
  }

  /** One request, carried out by the byte-level code. */
  method Serve(mvcc: MVCC, handles: map<nat, MvccTransaction>, op: Op, ghost s: State)
    returns (r: Response, handles': map<nat, MvccTransaction>)
    requires Tracks(mvcc.state, handles, s) && Allocated(Step(s, op)) && s.db.next < MAX_VERSION && !op.Crash?
    requires mvcc.state.engine.disk != null ==> RoomyOp(op)
    modifies mvcc.state`calls, mvcc.state.engine.Repr()
    ensures r == Answer(s, op) && Tracks(mvcc.state, handles', Step(s, op))
    ensures mvcc.state.calls == old(mvcc.state.calls) + CallsBy(s, op)
  {
    if op.Do? {
      r, handles' := ServeAction(mvcc, handles, op.a, s);
    } else {
      handles' := handles;
      r := ServeRead(handles, op, mvcc.state, s);
    }
  }
}
