/**
 storage/storage.go over the byte keys of an engine.  Each method makes exactly the engine
 calls of the corresponding protocol operation, in that order, and answers what it answers.
 */
module Mvcc {
  import opened ByteStrings
  import opened Ordering
  import opened MvccKeys
  import opened MemoryEngines
  import opened DiskLogs
  import opened Engines
  import opened MvccProtocol
  import opened MvccImages
  import opened MvccScans
  import opened LogRoom

  /** The log held the records of base when it was opened, and took the calls since. */
  ghost predicate OnDisk(found: seq<Record>, base: Db, calls: seq<Call>) {
    Represents(LoadedAll(Replay(found)), base) && RoomyDb(base) && AllGood(calls)
  }

  /** The engine shared by all transactions, with the calls made since it was opened. */
  class MvccState {
    const engine: Engine
    /** The records the engine held when it was opened. */
    ghost const base: Db
    ghost var calls: seq<Call>

    ghost function Contents(): Db
      reads this
    {
      ApplyAll(base, calls)
    }

    ghost predicate Valid()
      reads this, engine.Repr()
    {
      forall layer {:trigger Opened(layer)} :: Opened(layer) && layer.StateLayer? ==>
        && this !in engine.parts && engine.Valid() && Represents(engine.data, Contents())
        && AllFit(calls) && engine.journal == EncodeCalls(calls)
        && (engine.disk != null ==> OnDisk(engine.found, base, calls) && RoomyDb(Contents()))
    }

    lemma Standing()
      requires Valid()
      ensures engine.Valid() && Represents(engine.data, Contents())
    {
      assert Opened(StateLayer);
    }

    constructor (engine: Engine, ghost base: Db)
      requires engine.Valid() && engine.journal == [] && Represents(engine.data, base)
      requires engine.disk != null ==> OnDisk(engine.found, base, [])
      ensures this.engine == engine && calls == [] && Contents() == base && Valid()
    {
      this.engine := engine;
      this.base := base;
      this.calls := [];
      new;
      assert engine.journal == EncodeCalls(calls);
    }

    /** The call that the engine has just received. */
    ghost method Note(c: Call)
      requires this !in engine.parts && engine.Valid() && Represents(engine.data, Apply(Contents(), c))
      requires AllFit(calls + [c]) && engine.journal == EncodeCalls(calls + [c])
      requires engine.disk != null ==> OnDisk(engine.found, base, calls) && RoomyDb(Contents()) && GoodCall(c)
      modifies this`calls
      ensures Valid() && calls == old(calls) + [c]
    {
      if engine.disk != null {
        GoodApplied(Contents(), c);
      }
      calls := calls + [c];
      assert calls[..|calls| - 1] == old(calls);
    }

    method Put(key: MvccKey, value: Slice, ghost c: Call)
      requires Valid() && CallFits(c) && EncodeCall(c) == SetCall(Encode(key), value)
      requires engine.disk != null ==> GoodCall(c)
      modifies engine.Repr(), this`calls
      ensures Valid() && calls == old(calls) + [c]
    {
      assert Opened(StateLayer);
      CallRepresents(engine.data, Contents(), c);
      EncodeSnoc(calls, c);
      engine.Set(Encode(key), value);
      Note(c);
    }

    method Remove(key: Bytes, ghost c: Call)
      requires Valid() && CallFits(c) && EncodeCall(c) == DeleteCall(key)
      requires engine.disk != null ==> GoodCall(c)
      modifies engine.Repr(), this`calls
      ensures Valid() && calls == old(calls) + [c]
    {
      assert Opened(StateLayer);
      CallRepresents(engine.data, Contents(), c);
      EncodeSnoc(calls, c);
      engine.Delete(key);
      Note(c);
    }

    method RemoveAll(keys: seq<Bytes>, ghost cs: seq<Call>)
      requires Valid() && AllFit(cs) && |keys| == |cs| && (engine.disk != null ==> AllGood(cs))
      requires forall i :: 0 <= i < |cs| ==> EncodeCall(cs[i]) == DeleteCall(keys[i])
      modifies engine.Repr(), this`calls
      ensures Valid() && calls == old(calls) + cs
    {
      for i := 0 to |keys|
        invariant Valid() && calls == old(calls) + cs[..i]
      {
        assert cs[i] in cs;
        Remove(keys[i], cs[i]);
        assert cs[..i + 1] == cs[..i] + [cs[i]];
      }
      assert cs[..|keys|] == cs;
    }

    /** The engine calls of a transaction that ends: these keys, then its active mark. */
    method RemoveWith(keys: seq<Bytes>, v: Version, ghost cs: seq<Call>)
      requires Valid() && AllFit(cs) && |keys| == |cs|
      requires engine.disk != null ==> AllGood(cs) && GoodCall(ClearActive(v))
      requires forall i :: 0 <= i < |cs| ==> EncodeCall(cs[i]) == DeleteCall(keys[i])
      modifies engine.Repr(), this`calls
      ensures Valid() && calls == old(calls) + (cs + [ClearActive(v)])
      ensures Contents() == ApplyAll(old(Contents()), cs + [ClearActive(v)])
    {
      RemoveAll(keys, cs);
      Remove(Encode(TxnActive(v)), ClearActive(v));
      assert calls == old(calls) + (cs + [ClearActive(v)]);
      ApplyAllConcat(base, old(calls), cs + [ClearActive(v)]);
    }

    /** The two engine calls of a transaction that begins. */
    method Claim(next: Version)
      requires Valid() && 1 <= next < MAX_VERSION
      modifies engine.Repr(), this`calls
      ensures Valid() && calls == old(calls) + [SetNext(next + 1), MarkActive(next)]
      ensures Contents() == ApplyAll(old(Contents()), [SetNext(next + 1), MarkActive(next)])
    {
      GoodMark(next);
      GoodMark(next + 1);
      Put(NextVersion, Slice(EncodeVersion(next + 1)), SetNext(next + 1));
      Put(TxnActive(next), Nil, MarkActive(next));
      assert calls == old(calls) + [SetNext(next + 1), MarkActive(next)];
      ApplyAllConcat(base, old(calls), [SetNext(next + 1), MarkActive(next)]);
    }

    method LoadNext() returns (next: Version)
      requires Valid()
      ensures 1 <= next == Contents().next
    {
      Standing();
      next := 1;
      var encoded := engine.Get(Encode(NextVersion));
      ghost var db := Contents();
      if Encode(NextVersion) in engine.data {
        var key := EntryIsRecord(engine.data, db, Encode(NextVersion));
        EncodeInjective(key, NextVersion);
        VersionRoundTrip(db.next);
      } else {
        assert !Holds(db, NextVersion);
      }
      if encoded != Nil {
        next := DecodeVersion(encoded.bytes).value;
      }
    }

    method LoadActive() returns (active: set<nat>)
      requires Valid()
      ensures active == Contents().active
    {
      Standing();
      var es := engine.ScanPrefix(KindPrefix(1));
      ghost var vs := ActiveEntries(engine.data, Contents(), es);
      active := CollectVersions(es, vs);
    }
  }

  class MVCC {
    const state: MvccState

    constructor (state: MvccState)
      ensures this.state == state
    {
      this.state := state;
    }

    /** Takes the next version and a snapshot of the active marks; then two engine calls. */
    method Begin() returns (t: MvccTransaction)
      requires state.Valid() && state.Contents().next < MAX_VERSION
      modifies state`calls, state.engine.Repr()
      ensures state.Valid()
      ensures t.shared == state && t.state == Txn(old(state.Contents()).next, old(state.Contents()).active)
      ensures state.calls == old(state.calls) + BeginCalls(old(state.Contents()))
      ensures state.Contents() == ApplyAll(old(state.Contents()), BeginCalls(old(state.Contents())))
    {
      var next := state.LoadNext();
      var active := state.LoadActive();
      state.Claim(next);
      t := new MvccTransaction(state, Txn(next, active));
    }
  }

  class MvccTransaction {
    const shared: MvccState
    const state: Txn

    constructor (shared: MvccState, state: Txn)
      ensures this.shared == shared && this.state == state
    {
      this.shared := shared;
      this.state := state;
    }

    /** The write records of this transaction, in scan order. */
    method WriteRecords() returns (keys: seq<Bytes>)
      requires shared.Valid() && state.version <= MAX_VERSION
      ensures var ks := Sorted(Recorded(shared.Contents(), state.version));
              |keys| == |ks| && forall i :: 0 <= i < |ks| ==> keys[i] == Encode(TxnWrite(state.version, ks[i]))
    {
      shared.Standing();
      var es := shared.engine.ScanPrefix(TxnWritePrefix(state.version));
      keys := EntryKeys(es);
      WriteRecordsSorted(shared.engine.data, shared.Contents(), state.version, keys);
    }

    lemma EndsGood(v: Version)
      requires shared.Valid()
      ensures var ks := Sorted(Recorded(shared.Contents(), v));
              shared.engine.disk != null ==>
                AllGood(ClearWrites(v, ks)) && AllGood(UndoWrites(v, ks)) && GoodCall(ClearActive(v))
    {
      assert Opened(StateLayer);
      if shared.engine.disk != null {
        GoodEnd(shared.Contents(), v);
        GoodMark(v);
      }
    }

    /** Deletes the write records, then the active mark. */
    method Commit()
      requires shared.Valid() && state.version <= MAX_VERSION
      modifies shared`calls, shared.engine.Repr()
      ensures shared.Valid()
      ensures shared.calls == old(shared.calls) + CommitCalls(old(shared.Contents()), state.version)
      ensures shared.Contents() == ApplyAll(old(shared.Contents()), CommitCalls(old(shared.Contents()), state.version))
    {
      ghost var v := state.version;
      ghost var ks := Sorted(Recorded(shared.Contents(), v));
      var keys := WriteRecords();
      ClearsFit(v, ks, keys);
      EndsGood(v);
      shared.RemoveWith(keys, state.version, ClearWrites(v, ks));
    }

    /** Deletes each write record and the version it names, then the active mark. */
    method Rollback()
      requires shared.Valid() && state.version <= MAX_VERSION
      modifies shared`calls, shared.engine.Repr()
      ensures shared.Valid()
      ensures shared.calls == old(shared.calls) + RollbackCalls(old(shared.Contents()), state.version)
      ensures shared.Contents() ==
              ApplyAll(old(shared.Contents()), RollbackCalls(old(shared.Contents()), state.version))
    {
      ghost var v := state.version;
      ghost var ks := Sorted(Recorded(shared.Contents(), v));
      var keys := WriteRecords();
      var all := WithVersions(keys, state.version, ks);
      UndosFit(v, ks, all);
      EndsGood(v);
      shared.RemoveWith(all, state.version, UndoWrites(v, ks));
    }

    /** The newest visible version of a key; None when that is a deletion or there is none. */
    method Get(key: Bytes) returns (r: Value)
      requires shared.Valid() && state.version < MAX_VERSION
      ensures r == MvccProtocol.Get(shared.Contents(), state, key)
    {
      shared.Standing();
      var from := Encode(Versioned(key, 0));
      var to := Encode(Versioned(key, state.version + 1));
      var es := shared.engine.ScanReverse(Some(from), Some(to));
      r := ReadVisible(state, es, key, shared.engine.data, shared.Contents());
    }

    /** The visible pairs under a prefix, in ascending key order. */
    method ScanPrefix(prefix: Bytes) returns (es: seq<Pair<Bytes>>)
      requires shared.Valid()
      ensures es == MvccProtocol.ScanPrefix(shared.Contents(), state, prefix)
    {
      shared.Standing();
      var escaped := AppendEscapedRawKey(KindPrefix(3), prefix);
      var raw := shared.engine.ScanPrefix(escaped);
      ghost var raws, vs := PrefixEntries(shared.engine.data, shared.Contents(), prefix, raw);
      es := AggregateVersions(state, raw, prefix, raws, vs, shared.Contents());
    }

    /** min(version + 1, active versions) */
    method WindowStart() returns (from: nat)
      ensures from <= state.version + 1
      ensures forall v: nat :: state.InWindow(v) <==> from <= v
    {
      from := state.version + 1;
      var rest := state.active;
      while rest != {}
        invariant rest <= state.active && from <= state.version + 1
        invariant from == state.version + 1 || from in state.active
        invariant forall a :: a in state.active && a !in rest ==> from <= a
        decreases |rest|
      {
        var a :| a in rest;
        rest := rest - {a};
        if a < from {
          from := a;
        }
      }
      forall v: nat
        ensures state.InWindow(v) <==> from <= v
      {
      }
    }

    method CanWrite(rawKey: Bytes) returns (ok: bool)
      requires shared.Valid() && state.version < MAX_VERSION
      ensures ok <==> !Conflict(shared.Contents(), state, rawKey)
    {
      shared.Standing();
      ghost var db := shared.Contents();
      var fromVersion := WindowStart();
      var from := Encode(Versioned(rawKey, fromVersion));
      var to := Encode(Versioned(rawKey, MAX_VERSION)) + [0];
      var es := shared.engine.ScanReverse(Some(from), Some(to));
      WindowToTop(rawKey, fromVersion);
      ghost var vs := VersionEntries(shared.engine.data, db, rawKey, fromVersion, to, MAX_VERSION + 1, es);
      ok := NewestIsVisible(state, es, rawKey, vs, db, fromVersion);
    }

    /** Sets or (None) deletes a key, unless the newest version in the window is invisible. */
    method Write(rawKey: Bytes, value: Value) returns (ok: bool)
      requires shared.Valid() && state.version < MAX_VERSION
      requires shared.engine.disk != null ==> Roomy(rawKey, value)
      modifies shared`calls, shared.engine.Repr()
      ensures shared.Valid()
      ensures ok <==> !Conflict(old(shared.Contents()), state, rawKey)
      ensures shared.calls == old(shared.calls) + if ok then WriteCalls(state.version, rawKey, value) else []
      ensures shared.Contents() ==
              ApplyAll(old(shared.Contents()), if ok then WriteCalls(state.version, rawKey, value) else [])
    {
      ok := CanWrite(rawKey);
      if ok {
        if shared.engine.disk != null {
          GoodWrite(state.version, rawKey, value);
        }
        shared.Put(TxnWrite(state.version, rawKey), Nil, RecordWrite(state.version, rawKey));
        shared.Put(Versioned(rawKey, state.version), Slice(EncodeValue(value)),
          PutVersion(rawKey, state.version, value));
        ApplyAllConcat(shared.base, old(shared.calls), WriteCalls(state.version, rawKey, value));
      }
    }
  }
}
