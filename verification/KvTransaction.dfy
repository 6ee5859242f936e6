/** A transaction of the row layer (engine/kv.go): its requests to the store, with other sessions' in between. */
module KvTransactions {
  import opened ByteStrings
  import opened Ordering
  import opened SqlValues
  import opened RowKeys
  import opened Schemas
  import opened RowStores
  import opened MvccProtocol
  import opened SnapshotIsolation
  import opened Engines
  import opened LogRoom
  import opened Stores
  import opened RowTraces

  /** The primary key of a valid row. */
  method ValidPrimary(t: Table, row: Row) returns (primary: Option<SqlValues.Value>)
    requires ValidTable(t)
    ensures primary.Some? <==> ValidRow(t, row)
    ensures primary.Some? ==> PrimaryKey(t, row) == primary
  {
    var valid := ValidateRow(t, row);
    if !valid {
      return None;
    }
    PrimaryKeysComparable(t, row, row);
    primary := PrimaryKeyValue(t, row);
  }

  class KvTransaction {
    const codec: Codec
    const store: Store
    const version: nat
    /** What the others ask before each of our requests. */
    const schedule: nat -> seq<Op>
    var turn: nat
    /** What had been asked before this transaction began. */
    ghost const before: seq<Op>
    ghost const snapshot: View
    ghost var writes: WriteSet
    ghost var view: View

    ghost function Repr(): set<object> {
      {this} + store.Repr()
    }

    /**
     The store answers for this transaction: it is open there, with this snapshot and these
     writes.  The guard keeps the fact closed where only the view matters.
     */
    ghost predicate Linked()
      reads Repr()
    {
      forall layer {:trigger Opened(layer)} :: Opened(layer) && layer.TransactionLayer? ==>
        && this !in store.Repr() && store.Valid() && Attached(codec, before, store.ops, version, snapshot, writes)
        && (Undisturbed(schedule) ==> Alone(before, store.ops, version))
    }

    ghost predicate Valid()
      reads Repr()
    {
      Linked() && Lossless(codec) && view == Overlay(snapshot, writes) && Sound(codec, view)
    }

    /** How it stands with the store. */
    lemma Standing()
      requires Valid()
      ensures store.Valid() && Attached(codec, before, store.ops, version, snapshot, writes)
      ensures Undisturbed(schedule) ==> Alone(before, store.ops, version)
    {
      assert Opened(TransactionLayer);
    }

    /** Nothing has happened to it in the meantime. */
    twostate lemma StillValid()
      requires old(Valid()) && unchanged(Repr())
      ensures Valid()
    {
    }

    /** Takes over the transaction that has just begun. */
    constructor (codec: Codec, store: Store, version: nat, schedule: nat -> seq<Op>, ghost before: seq<Op>)
      requires store.Valid() && store.ops == before + [Do(Begin)] && version == At(before).next
      requires Lossless(codec) && Sound(codec, StateAfter(At(before).hist))
      ensures this.codec == codec && this.store == store && this.version == version && this.before == before
      ensures this.schedule == schedule
      ensures Valid() && snapshot == view == StateAfter(At(before).hist) && writes == map[]
    {
      this.codec, this.store, this.version, this.schedule, this.before := codec, store, version, schedule, before;
      this.turn := 0;
      this.snapshot := StateAfter(At(before).hist);
      this.view := StateAfter(At(before).hist);
      this.writes := map[];
      new;
      BeginAttached(codec, before);
      assert Overlay(snapshot, map[]) == snapshot;
    }

    lemma StillAlone(op: Op)
      requires AskedBy(op, version) && (Undisturbed(schedule) ==> Alone(before, store.ops, version))
      ensures Undisturbed(schedule) ==> Alone(before, store.ops + [op], version)
    {
      if Undisturbed(schedule) {
        AloneSnoc(before, store.ops, op, version);
      }
    }

    /** The others proceed. */
    method Yield()
      requires Valid()
      modifies Repr()
      ensures Valid() && view == old(view) && writes == old(writes) && old(store.ops) <= store.ops
    {
      assert Opened(TransactionLayer);
      assert Undisturbed(schedule) ==> schedule(turn) == [];
      store.Others(version, schedule(turn));
      AttachedMeanwhile(codec, before, old(store.ops), store.ops, version, snapshot, writes);
      turn := turn + 1;
    }

    /** A request of this transaction, after which these are its writes. */
    method Send(op: Op, ghost next: WriteSet) returns (r: Response)
      requires this !in store.Repr() && store.Valid() && !op.Crash? && op != Do(Begin) && store.Takes(op)
      requires Attached(codec, before, store.ops + [op], version, snapshot, next)
      requires Undisturbed(schedule) ==> Alone(before, store.ops + [op], version)
      modifies Repr()
      ensures Linked() && view == old(view) && writes == next
      ensures store.ops == old(store.ops) + [op] && r == SpecAnswer(old(store.Now()), op)
    {
      r := store.Request(op);
      Note(next);
    }

    /** The writes, after a request the store has just answered. */
    ghost method Note(next: WriteSet)
      requires this !in store.Repr() && store.Valid()
      requires Attached(codec, before, store.ops, version, snapshot, next)
      requires Undisturbed(schedule) ==> Alone(before, store.ops, version)
      modifies this`writes
      ensures Linked() && writes == next
    {
      writes := next;
    }

    /** The store is on disk, and its log has no room for the write. */
    predicate Overflows(key: Bytes, value: Option<Bytes>) {
      store.OnDisk() && !Roomy(key, value)
    }

    /** The request for a write. */
    method Ask(key: Bytes, value: Option<Bytes>, ghost name: Bytes) returns (done: bool)
      requires Linked() && RowWrite(codec, Overlay(snapshot, writes), key, value) && KeyOfTable(name, key)
      requires !Overflows(key, value)
      modifies Repr()
      ensures Linked() && view == old(view) && writes == if done then old(writes)[key := value] else old(writes)
      ensures !done ==> Clashed(store.ops, version, name)
    {
      assert Opened(TransactionLayer);
      var op := Do(MvccProtocol.Write(version, key, value));
      WriteAnswered(codec, before, store.ops, version, snapshot, writes, key, value, name);
      StillAlone(op);
      ghost var refused := SpecAnswer(store.Now(), op) == WriteConflict;
      var r := Send(op, if refused then writes else writes[key := value]);
      done := r != WriteConflict;
    }

    method Write(key: Bytes, value: Option<Bytes>, ghost name: Bytes) returns (s: Status)
      requires Valid() && RowWrite(codec, view, key, value) && KeyOfTable(name, key)
      modifies Repr()
      ensures Valid() && forall t :: TableAt(codec, old(view), t) ==> TableAt(codec, view, t)
      ensures s.Ok? ==> writes == old(writes)[key := value] && view == Written(old(view), key, value)
      ensures !s.Ok? ==> writes == old(writes) && view == old(view)
      ensures !s.Refused? && (s.Conflicted? ==> Clashed(store.ops, version, name))
      ensures s.TooLarge? ==> Overflows(key, value)
    {
      Yield();
      if Overflows(key, value) {
        return TooLarge;
      }
      WriteMakesView(codec, snapshot, writes, view, key, value);
      var done := Ask(key, value, name);
      if !done {
        return Conflicted;
      }
      view := Written(view, key, value);
      s := Ok;
    }

    method Get(key: Bytes) returns (value: Option<Bytes>)
      requires Valid()
      modifies Repr()
      ensures Valid() && view == old(view) && writes == old(writes)
      ensures value == if key in view then Some(view[key]) else None
    {
      Yield();
      assert Opened(TransactionLayer);
      AttachedView(codec, before, store.ops, version, snapshot, writes);
      AttachedStep(codec, before, store.ops, Read(version, key), version, snapshot, writes);
      StillAlone(Read(version, key));
      var r := Send(Read(version, key), writes);
      value := r.value;
    }

    method ScanPrefix(prefix: Bytes) returns (es: seq<Pair<Bytes>>)
      requires Valid()
      modifies Repr()
      ensures Valid() && view == old(view) && writes == old(writes)
      ensures es == Listing(WithPrefix(view, prefix))
    {
      Yield();
      assert Opened(TransactionLayer);
      AttachedView(codec, before, store.ops, version, snapshot, writes);
      AttachedStep(codec, before, store.ops, Scan(version, prefix), version, snapshot, writes);
      StillAlone(Scan(version, prefix));
      var r := Send(Scan(version, prefix), writes);
      es := r.es;
    }

    method GetTable(name: Bytes) returns (ok: bool, found: Option<Table>)
      requires Valid() && NoZero(name)
      modifies Repr()
      ensures Valid() && view == old(view) && writes == old(writes)
      ensures ok <==> name != []
      ensures ok ==> (found.Some? <==> TableKey(name) in view)
      ensures ok && found.Some? ==> found.value.name == name && TableAt(codec, view, found.value)
      ensures found.None? ==> forall t :: TableAt(codec, view, t) ==> t.name != name
    {
      if name == [] {
        return false, None;
      }
      var encoded := Get(TableKey(name));
      if encoded.None? {
        return true, None;
      }
      ghost var t := TableEntry(codec, view, name);
      found := codec.decodeTable(encoded.value);
      ok := found.Some?;
    }

    method CreateTable(t: Table) returns (s: Status)
      requires Valid() && NoZero(t.name)
      modifies Repr()
      ensures Valid()
      ensures s.Ok? ==> view == old(view)[TableKey(t.name) := codec.encodeTable(t)] && TableAt(codec, view, t)
      ensures s.Ok? ==> writes == old(writes)[TableKey(t.name) := Some(codec.encodeTable(t))]
      ensures !s.Ok? ==> view == old(view)
      ensures s.Refused? <==> !ValidTable(t) || TableKey(t.name) in old(view)
      ensures s.Conflicted? ==> Clashed(store.ops, version, t.name)
      ensures s.TooLarge? ==> Overflows(TableKey(t.name), Some(codec.encodeTable(t)))
    {
      var valid := Validate(t);
      StillValid();
      if !valid {
        return Refused;
      }
      var ok, found := GetTable(t.name);
      if !ok || found.Some? {
        return Refused;
      }
      assert PutsTable(codec, view, t, TableKey(t.name), Some(codec.encodeTable(t)));
      PutTableSound(codec, view, t);
      s := Write(TableKey(t.name), Some(codec.encodeTable(t)), t.name);
    }

    /** `DeleteRow` and the first half of an update that moves a row. */
    method DeleteRow(t: Table, primary: SqlValues.Value) returns (s: Status)
      requires Valid() && NoZero(t.name)
      modifies Repr()
      ensures Valid() && !s.Refused?
      ensures view == if s.Ok? then old(view) - {RowKey(t.name, primary)} else old(view)
      ensures old(writes).Keys <= writes.Keys && (s.Ok? ==> RowKey(t.name, primary) in writes)
      ensures s.Conflicted? ==> Clashed(store.ops, version, t.name)
      ensures s.TooLarge? ==> Overflows(RowKey(t.name, primary), None)
      ensures forall u :: TableAt(codec, old(view), u) ==> TableAt(codec, view, u)
    {
      RowPrefixSelects(t.name, t.name, primary);
      s := Write(RowKey(t.name, primary), None, t.name);
    }

    method PutRow(t: Table, row: Row) returns (s: Status)
      requires Valid() && TableAt(codec, view, t) && ValidRow(t, row) && PrimaryKey(t, row).Some?
      modifies Repr()
      ensures Valid() && !s.Refused?
      ensures view == if s.Ok? then old(view)[KeyOf(t, row) := codec.encodeRow(row)] else old(view)
      ensures old(writes).Keys <= writes.Keys && (s.Ok? ==> KeyOf(t, row) in writes)
      ensures s.Conflicted? ==> Clashed(store.ops, version, t.name)
      ensures s.TooLarge? ==> Overflows(KeyOf(t, row), Some(codec.encodeRow(row)))
      ensures forall u :: TableAt(codec, old(view), u) ==> TableAt(codec, view, u)
    {
      assert PutsRow(codec, t, row, KeyOf(t, row), Some(codec.encodeRow(row)));
      RowPrefixSelects(t.name, t.name, PrimaryKey(t, row).value);
      s := Write(KeyOf(t, row), Some(codec.encodeRow(row)), t.name);
    }

    method CreateRow(name: Bytes, row: Row) returns (s: Status)
      requires Valid() && NoZero(name)
      modifies Repr()
      ensures Valid()
      ensures s.Refused? <==> !CanCreateRow(codec, old(view), name, row)
      ensures !s.Ok? ==> view == old(view)
      ensures forall t :: s.Ok? && TableAt(codec, old(view), t) && t.name == name ==>
                PrimaryKey(t, row).Some? && view == old(view)[KeyOf(t, row) := codec.encodeRow(row)]
                  && KeyOf(t, row) in writes
      ensures forall t :: s.TooLarge? && TableAt(codec, old(view), t) && t.name == name ==>
                PrimaryKey(t, row).Some? && Overflows(KeyOf(t, row), Some(codec.encodeRow(row)))
      ensures old(writes).Keys <= writes.Keys && (s.Conflicted? ==> Clashed(store.ops, version, name))
      ensures forall u :: TableAt(codec, old(view), u) ==> TableAt(codec, view, u)
    {
      var ok, found := GetTable(name);
      if !ok || found.None? {
        return Refused;
      }
      s := AddValid(found.value, row);
    }

    method AddValid(t: Table, row: Row) returns (s: Status)
      requires Valid() && TableAt(codec, view, t)
      modifies Repr()
      ensures Valid()
      ensures s.Refused? <==> !(ValidRow(t, row) && PrimaryKey(t, row).Some? && KeyOf(t, row) !in old(view))
      ensures !s.Refused? ==> view == if s.Ok? then old(view)[KeyOf(t, row) := codec.encodeRow(row)] else old(view)
      ensures s.Refused? ==> view == old(view)
      ensures forall u :: TableAt(codec, old(view), u) ==> TableAt(codec, view, u)
      ensures old(writes).Keys <= writes.Keys && (s.Ok? ==> KeyOf(t, row) in writes)
      ensures s.Conflicted? ==> Clashed(store.ops, version, t.name)
      ensures s.TooLarge? ==> Overflows(KeyOf(t, row), Some(codec.encodeRow(row)))
    {
      var valid := ValidateRow(t, row);
      StillValid();
      if !valid {
        return Refused;
      }
      s := AddRow(t, row);
    }

    method AddRow(t: Table, row: Row) returns (s: Status)
      requires Valid() && TableAt(codec, view, t) && ValidRow(t, row)
      modifies Repr()
      ensures Valid() && PrimaryKey(t, row).Some? && (s.Refused? <==> KeyOf(t, row) in old(view))
      ensures view == if s.Ok? then old(view)[KeyOf(t, row) := codec.encodeRow(row)] else old(view)
      ensures forall u :: TableAt(codec, old(view), u) ==> TableAt(codec, view, u)
      ensures old(writes).Keys <= writes.Keys && (s.Ok? ==> KeyOf(t, row) in writes)
      ensures s.Conflicted? ==> Clashed(store.ops, version, t.name)
      ensures s.TooLarge? ==> Overflows(KeyOf(t, row), Some(codec.encodeRow(row)))
    {
      PrimaryKeysComparable(t, row, row);
      var primary := PrimaryKeyValue(t, row);
      StillValid();
      var existing := Get(RowKey(t.name, primary.value));
      if existing.Some? {
        return Refused;
      }
      s := PutRow(t, row);
    }

    predicate MoveOverflows(t: Table, oldPrimary: SqlValues.Value, row: Row)
      requires PrimaryKey(t, row).Some?
    {
      Overflows(RowKey(t.name, oldPrimary), None) || Overflows(KeyOf(t, row), Some(codec.encodeRow(row)))
    }

    /** A row whose primary key changes is deleted under the old key and set under the new one. */
    method UpdateRow(t: Table, oldPrimary: SqlValues.Value, row: Row) returns (s: Status)
      requires Valid() && TableAt(codec, view, t)
      modifies Repr()
      ensures Valid() && TableAt(codec, view, t)
      ensures s.Refused? <==> !(ValidRow(t, row) && PrimaryKey(t, row).Some? &&
                                (PrimaryKey(t, row).value == oldPrimary || KeyOf(t, row) !in old(view)))
      ensures s.Refused? ==> view == old(view)
      ensures !s.Ok? && !s.Refused? ==> view == old(view) || view == old(view) - {RowKey(t.name, oldPrimary)}
      ensures s.Ok? ==> view == (old(view) - {RowKey(t.name, oldPrimary)})[KeyOf(t, row) := codec.encodeRow(row)]
      ensures s.Ok? ==> RowKey(t.name, oldPrimary) in writes && KeyOf(t, row) in writes
      ensures old(writes).Keys <= writes.Keys && (s.Conflicted? ==> Clashed(store.ops, version, t.name))
      ensures s.TooLarge? ==> PrimaryKey(t, row).Some? && MoveOverflows(t, oldPrimary, row)
    {
      var newPrimary := ValidPrimary(t, row);
      StillValid();
      if newPrimary.None? {
        return Refused;
      }
      if oldPrimary != newPrimary.value {
        s := MoveRow(t, oldPrimary, row);
      } else {
        PutTwice(view, KeyOf(t, row), codec.encodeRow(row));
        s := PutRow(t, row);
      }
    }

    method MoveRow(t: Table, oldPrimary: SqlValues.Value, row: Row) returns (s: Status)
      requires Valid() && TableAt(codec, view, t) && ValidRow(t, row) && PrimaryKey(t, row).Some?
      modifies Repr()
      ensures Valid() && TableAt(codec, view, t) && (s.Refused? <==> KeyOf(t, row) in old(view))
      ensures s.Refused? ==> view == old(view)
      ensures !s.Ok? && !s.Refused? ==> view == old(view) || view == old(view) - {RowKey(t.name, oldPrimary)}
      ensures s.Ok? ==> view == (old(view) - {RowKey(t.name, oldPrimary)})[KeyOf(t, row) := codec.encodeRow(row)]
      ensures s.Ok? ==> RowKey(t.name, oldPrimary) in writes && KeyOf(t, row) in writes
      ensures old(writes).Keys <= writes.Keys && (s.Conflicted? ==> Clashed(store.ops, version, t.name))
      ensures s.TooLarge? ==> MoveOverflows(t, oldPrimary, row)
    {
      var existing := Get(KeyOf(t, row));
      if existing.Some? {
        return Refused;
      }
      s := DeleteRow(t, oldPrimary);
      if s.Ok? {
        s := PutRow(t, row);
      }
    }

    method ScanTable(t: Table) returns (rows: Option<seq<Row>>)
      requires Valid() && TableAt(codec, view, t)
      modifies Repr()
      ensures Valid() && view == old(view) && writes == old(writes)
      ensures rows == Some(RowsOf(codec, view, t))
    {
      var es := ScanPrefix(RowPrefix(t.name));
      label scanned:
      rows := DecodeTable(codec, t, es, view);
      StillValid@scanned();
    }
  }
}
