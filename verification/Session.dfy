/** `Session.Execute` (engine/engine.go): a transaction for each statement, committed or rolled back. */
module Sessions {
  import opened RowKeys
  import opened MvccProtocol
  import opened SnapshotIsolation
  import opened Stores
  import opened Schemas
  import opened RowStores
  import opened RowTraces
  import opened KvTransactions
  import opened Statements
  import opened Updates
  import opened Inserts
  import opened RowHistories
  import opened StatementEffects
  import opened Conditions
  import opened StatementRuns

  /** How a statement can come out, in terms of the snapshot it ran on. */
  ghost predicate CameOut(
    c: Codec, snapshot: View, ops: seq<Op>, v: nat, writes: WriteSet, st: Statement, s: Status, count: nat)
    requires Sound(c, snapshot)
  {
    match s
    case Ok => Doable(c, snapshot, st) && Wrote(c, snapshot, st, writes, count)
    case Refused => !Doable(c, snapshot, st)
    case Conflicted => Clashed(ops, v, st.Target())
    case TooLarge => StatementOversized(c, snapshot, st)
  }

  method RunCreate(txn: KvTransaction, st: Statement) returns (s: Status)
    requires txn.Valid() && txn.writes == map[] && txn.view == txn.snapshot && Sound(txn.codec, txn.snapshot)
    requires st.CreateTable? && NoZero(st.t.name)
    modifies txn.Repr()
    ensures txn.Valid() && (s.TooLarge? ==> txn.store.OnDisk())
    ensures CameOut(txn.codec, txn.snapshot, txn.store.ops, txn.version, txn.writes, st, s, 0)
  {
    s := txn.CreateTable(st.t);
  }

  method RunInsert(txn: KvTransaction, st: Statement) returns (s: Status, count: nat)
    requires txn.Valid() && txn.writes == map[] && txn.view == txn.snapshot && Sound(txn.codec, txn.snapshot)
    requires st.InsertInto? && NoZero(st.name)
    modifies txn.Repr()
    ensures txn.Valid() && (s.TooLarge? ==> txn.store.OnDisk())
    ensures CameOut(txn.codec, txn.snapshot, txn.store.ops, txn.version, txn.writes, st, s, count)
  {
    ghost var t, rows;
    s, count, t, rows := Insert(txn, st.name, st.names, st.values);
    if s.Ok? {
      InsertWrote(txn.codec, txn.snapshot, st, t, rows, txn.writes);
    }
  }

  method RunUpdate(txn: KvTransaction, st: Statement) returns (s: Status, count: nat)
    requires txn.Valid() && txn.writes == map[] && txn.view == txn.snapshot && Sound(txn.codec, txn.snapshot)
    requires st.UpdateSet? && NoZero(st.name)
    modifies txn.Repr()
    ensures txn.Valid() && (s.TooLarge? ==> txn.store.OnDisk())
    ensures CameOut(txn.codec, txn.snapshot, txn.store.ops, txn.version, txn.writes, st, s, count)
  {
    ghost var t;
    s, count, t := Update(txn, st.name, st.a, st.where);
    UpdateCameOut(txn.codec, txn.snapshot, txn.store.ops, txn.version, txn.writes, st, s, count, t);
  }

  lemma UpdateCameOut(
    c: Codec, snapshot: View, ops: seq<Op>, v: nat, writes: WriteSet, st: Statement, s: Status, count: nat, t: Table)
    requires Sound(c, snapshot) && st.UpdateSet?
    requires s.Ok? ==> IsTable(c, snapshot, st.name, t) && CanUpdate(c, snapshot, st.name, st.a, st.where)
    requires s.Ok? ==> Updated(c, snapshot, t, st.a, st.where, Overlay(snapshot, writes), writes, count)
    requires s.Refused? ==> !CanUpdate(c, snapshot, st.name, st.a, st.where)
    requires s.Conflicted? ==> Clashed(ops, v, st.name)
    requires s.TooLarge? ==>
               IsTable(c, snapshot, st.name, t) && UpdateOversized(c, t, st.a, Chosen(c, snapshot, t, st.where))
    ensures CameOut(c, snapshot, ops, v, writes, st, s, count)
  {
    if s.Ok? {
      UpdateWrote(c, snapshot, st, t, writes, count);
    }
  }

  method RunDelete(txn: KvTransaction, st: Statement) returns (s: Status, count: nat)
    requires txn.Valid() && txn.writes == map[] && txn.view == txn.snapshot && Sound(txn.codec, txn.snapshot)
    requires st.DeleteFrom? && NoZero(st.name)
    modifies txn.Repr()
    ensures txn.Valid() && (s.TooLarge? ==> txn.store.OnDisk())
    ensures CameOut(txn.codec, txn.snapshot, txn.store.ops, txn.version, txn.writes, st, s, count)
  {
    ghost var t;
    s, count, t := Delete(txn, st.name, st.where);
    if s.Ok? {
      DeleteWrote(txn.codec, txn.snapshot, st, t, Chosen(txn.codec, txn.snapshot, t, st.where), txn.writes);
    }
  }

  method RunStatement(txn: KvTransaction, st: Statement) returns (s: Status, count: nat)
    requires txn.Valid() && txn.writes == map[] && txn.view == txn.snapshot && Sound(txn.codec, txn.snapshot)
    requires NoZero(st.Target())
    modifies txn.Repr()
    ensures txn.Valid() && (s.TooLarge? ==> txn.store.OnDisk())
    ensures CameOut(txn.codec, txn.snapshot, txn.store.ops, txn.version, txn.writes, st, s, count)
  {
    match st
    case CreateTable(_) =>
      count := 0;
      s := RunCreate(txn, st);
    case InsertInto(_, _, _) =>
      s, count := RunInsert(txn, st);
    case UpdateSet(_, _, _) =>
      s, count := RunUpdate(txn, st);
    case DeleteFrom(_, _) =>
      s, count := RunDelete(txn, st);
  }

  lemma CameOutStays(
    c: Codec, snapshot: View, ops: seq<Op>, ops': seq<Op>, v: nat, writes: WriteSet, st: Statement, s: Status,
    count: nat)
    requires Sound(c, snapshot) && CameOut(c, snapshot, ops, v, writes, st, s, count) && ops <= ops'
    ensures CameOut(c, snapshot, ops', v, writes, st, s, count)
  {
    if s.Conflicted? {
      ClashedStays(ops, ops', v, st.Target());
    }
  }

  /** The others proceed once more before the statement is committed or rolled back. */
  method Settle(txn: KvTransaction, st: Statement, s: Status, count: nat)
    requires txn.Valid() && Sound(txn.codec, txn.snapshot)
    requires CameOut(txn.codec, txn.snapshot, txn.store.ops, txn.version, txn.writes, st, s, count)
    modifies txn.Repr()
    ensures txn.Valid()
    ensures CameOut(txn.codec, txn.snapshot, txn.store.ops, txn.version, txn.writes, st, s, count)
  {
    ghost var ops := txn.store.ops;
    txn.Yield();
    CameOutStays(txn.codec, txn.snapshot, ops, txn.store.ops, txn.version, txn.writes, st, s, count);
  }

  // ---- From beginning to end ----

  /** The statement ran as v, begun after the requests `before`, up to its commit or its rollback after ops. */
  ghost predicate Ran(
    c: Codec, before: seq<Op>, ops: seq<Op>, v: nat, writes: WriteSet, st: Statement, s: Status, count: nat)
  {
    var snapshot := StateAfter(At(before).hist);
    && Sound(c, snapshot) && Attached(c, before, ops, v, snapshot, writes)
    && CameOut(c, snapshot, ops, v, writes, st, s, count)
  }

  function Closing(s: Status, v: nat): Op {
    if s.Ok? then Do(Commit(v)) else Do(Rollback(v))
  }

  lemma RanRowRun(
    c: Codec, before: seq<Op>, ops: seq<Op>, v: nat, writes: WriteSet, st: Statement, s: Status, count: nat)
    requires Ran(c, before, ops, v, writes, st, s, count) && RowRun(c, before) && Relies(c, ops, |before|, v)
    ensures RowRun(c, ops) && RowRun(c, ops + [Closing(s, v)])
  {
    assert ops[|before|] == (before + [Do(Begin)])[|before|];
    RowRunGoesOn(c, before, ops, v);
    RowRunSnoc(c, ops, Closing(s, v));
  }

  /** In the history hist: carried out as step n, or not there. */
  ghost predicate Settled(
    c: Codec, snapshot: View, hist: seq<Committed>, n: nat, v: nat, st: Statement, s: Status, count: nat)
    requires Sound(c, snapshot)
  {
    if s.Ok? then
      CarriedOut(c, snapshot, hist, n, v, st, count)
    else
      forall i :: 0 <= i < |hist| ==> hist[i].version != v
  }

  /**
   One that reports success is, for ever after, one step of the history that carries it out with
   the count it reports; one that reports an error is never in the history.
   */
  lemma RanForGood(
    c: Codec, before: seq<Op>, ops: seq<Op>, v: nat, writes: WriteSet, st: Statement, s: Status, count: nat,
    later: seq<Op>)
    requires Lossless(c) && RowRun(c, before) && Relies(c, ops, |before|, v)
    requires Ran(c, before, ops, v, writes, st, s, count)
    ensures var snapshot, hist := StateAfter(At(before).hist), At(ops + [Closing(s, v)] + later).hist;
            Settled(c, snapshot, hist, |At(ops).hist|, v, st, s, count)
  {
    RanRowRun(c, before, ops, v, writes, st, s, count);
    var snapshot := StateAfter(At(before).hist);
    if s.Ok? {
      CompletedIsCarriedOut(c, before, ops, v, snapshot, writes, st, count, Closing(s, v), later);
    } else {
      IncompleteIsNothing(c, before, ops, v, snapshot, writes, Closing(s, v), later);
    }
  }

  lemma AloneRelies(c: Codec, before: seq<Op>, ops: seq<Op>, v: nat)
    requires Alone(before, ops, v)
    ensures Relies(c, ops, |before|, v)
  {
    assert ops[|before|] == (before + [Do(Begin)])[|before|];
  }

  /** With no one else at work and nothing left behind on the table, it succeeds exactly if it can be carried out. */
  lemma AloneSucceeds(
    c: Codec, before: seq<Op>, ops: seq<Op>, v: nat, writes: WriteSet, st: Statement, s: Status, count: nat)
    requires Ran(c, before, ops, v, writes, st, s, count) && Alone(before, ops, v) && !s.TooLarge?
    requires Quiet(At(before), st.Target()) && NoZero(st.Target())
    ensures s.Ok? <==> Possible(c, StateAfter(At(before).hist), st)
  {
    AloneNeverClashes(before, ops, v, st.Target());
    DoableExact(c, StateAfter(At(before).hist), st);
  }

  lemma RanSettled(
    c: Codec, before: seq<Op>, ops: seq<Op>, v: nat, writes: WriteSet, st: Statement, s: Status, count: nat)
    requires Lossless(c) && RowRun(c, before) && Ran(c, before, ops, v, writes, st, s, count)
    ensures var now := ops + [Closing(s, v)];
            Relies(c, ops, |before|, v) ==>
              && RowRun(c, now)
              && Settled(c, StateAfter(At(before).hist), At(now).hist, |At(ops).hist|, v, st, s, count)
  {
    if Relies(c, ops, |before|, v) {
      RanRowRun(c, before, ops, v, writes, st, s, count);
      RanForGood(c, before, ops, v, writes, st, s, count, []);
      assert ops + [Closing(s, v)] + [] == ops + [Closing(s, v)];
    }
  }

  lemma RanAlone(
    c: Codec, before: seq<Op>, ops: seq<Op>, v: nat, writes: WriteSet, st: Statement, s: Status, count: nat)
    requires Ran(c, before, ops, v, writes, st, s, count) && Alone(before, ops, v) && NoZero(st.Target())
    ensures var snapshot := StateAfter(At(before).hist);
            && (s.TooLarge? ==> TooBig(c, snapshot, st))
            && (Quiet(At(before), st.Target()) && !s.TooLarge? ==> (s.Ok? <==> Possible(c, snapshot, st)))
  {
    OversizedExact(c, StateAfter(At(before).hist), st);
    if Quiet(At(before), st.Target()) && !s.TooLarge? {
      AloneSucceeds(c, before, ops, v, writes, st, s, count);
    }
  }

  class Session {
    const codec: Codec
    const store: Store

    constructor (codec: Codec, store: Store)
      ensures this.codec == codec && this.store == store
    {
      this.codec, this.store := codec, store;
    }

    method Start(schedule: nat -> seq<Op>) returns (txn: KvTransaction)
      requires store.Valid() && store.HasRoom() && Lossless(codec) && RowRun(codec, store.ops)
      modifies store.Repr()
      ensures fresh(txn) && txn.codec == codec && txn.store == store && txn.schedule == schedule
      ensures txn.Valid() && txn.before == old(store.ops) && txn.version == old(store.Now()).next
      ensures txn.writes == map[] && txn.view == txn.snapshot == StateAfter(old(store.Now()).hist)
    {
      SoundContents(codec, store.ops);
      ghost var before := store.ops;
      var r := store.Request(Do(Begin));
      txn := new KvTransaction(codec, store, r.v, schedule, before);
    }

    method Finish(txn: KvTransaction, op: Op)
      requires txn.Valid() && txn.store == store && op.Do? && (op.a.Commit? || op.a.Rollback?)
      modifies store.Repr()
      ensures store.Valid() && store.ops == old(store.ops) + [op]
      ensures Attached(txn.codec, txn.before, old(store.ops), txn.version, txn.snapshot, old(txn.writes))
      ensures Undisturbed(txn.schedule) ==> Alone(txn.before, old(store.ops), txn.version)
    {
      txn.Standing();
      var _ := store.Request(op);
    }

    method Transact(st: Statement, schedule: nat -> seq<Op>)
      returns (s: Status, count: nat, ghost ops: seq<Op>, ghost v: nat, ghost writes: WriteSet)
      requires store.Valid() && store.HasRoom() && Lossless(codec) && RowRun(codec, store.ops) && NoZero(st.Target())
      modifies store.Repr()
      ensures store.Valid() && store.ops == ops + [Closing(s, v)]
      ensures Ran(codec, old(store.ops), ops, v, writes, st, s, count)
      ensures s.TooLarge? ==> store.OnDisk()
      ensures Undisturbed(schedule) ==> Alone(old(store.ops), ops, v)
    {
      var txn := Start(schedule);
      s, count := RunStatement(txn, st);
      Settle(txn, st, s, count);
      ops, v, writes := store.ops, txn.version, txn.writes;
      Finish(txn, Closing(s, txn.version));
    }

    /**
     Executes one statement in a transaction of its own, while the other sessions do as the
     schedule says.  As long as these also keep to the row layer's writes, a statement that
     reports success is one step of the history, and carries it out; one that reports an error
     is not in the history.  Alone, with nothing left behind on its table and with room in the
     log, it succeeds exactly if it can be done.
     */
    method Execute(st: Statement, schedule: nat -> seq<Op>)
      returns (s: Status, count: nat, ghost ops: seq<Op>, ghost v: nat, ghost writes: WriteSet)
      requires store.Valid() && store.HasRoom() && Lossless(codec) && RowRun(codec, store.ops) && NoZero(st.Target())
      modifies store.Repr()
      ensures store.Valid() && store.ops == ops + [Closing(s, v)]
      ensures Ran(codec, old(store.ops), ops, v, writes, st, s, count)
      ensures Relies(codec, ops, |old(store.ops)|, v) ==>
                var snapshot := StateAfter(old(store.Now()).hist);
                && RowRun(codec, store.ops)
                && Settled(codec, snapshot, store.Now().hist, |At(ops).hist|, v, st, s, count)
      ensures Undisturbed(schedule) ==> Relies(codec, ops, |old(store.ops)|, v)
      ensures var snapshot := StateAfter(old(store.Now()).hist);
              Undisturbed(schedule) && Quiet(old(store.Now()), st.Target())
              && !(store.OnDisk() && TooBig(codec, snapshot, st)) ==>
                (s.Ok? <==> Possible(codec, snapshot, st))
    {
      ghost var before := store.ops;
      s, count, ops, v, writes := Transact(st, schedule);
      RanSettled(codec, before, ops, v, writes, st, s, count);
      if Undisturbed(schedule) {
        AloneRelies(codec, before, ops, v);
        RanAlone(codec, before, ops, v, writes, st, s, count);
      }
    }
  }
}
