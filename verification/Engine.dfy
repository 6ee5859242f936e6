/** The engine behind the transactions (storage/engine.go): a map in memory, or a log on disk. */
module Engines {
  import opened ByteStrings
  import opened Ordering
  import opened MemoryEngines
  import opened DiskLogs
  import opened DiskEngines
  import opened DiskScans

  datatype Layer = FrameLayer | EngineLayer | StateLayer | StoreLayer | TransactionLayer

  /** Guards the invariants of a layer: they are closed until `assert Opened(...)` opens them. */
  ghost predicate Opened(layer: Layer) {
    true
  }

  // ---- What a log on disk holds ----

  function RecordsOf(calls: seq<EngineCall>): (rs: seq<Record>)
    ensures |rs| == |calls|
  {
    seq(|calls|, i requires 0 <= i < |calls| => RecordOf(calls[i]))
  }

  /** On disk a nil value and an empty one are the same; the values stored here are nil or not empty. */
  function Loaded(b: Bytes): Slice {
    if b == [] then Nil else Slice(b)
  }

  ghost function LoadedAll(contents: map<Bytes, Bytes>): map<Bytes, Slice> {
    map k | k in contents :: Loaded(contents[k])
  }

  /** The log has room for the record, and reading it back gives the value again. */
  predicate Takes(c: EngineCall) {
    Fits(c) && (c.SetCall? ==> c.value != Slice([]))
  }

  lemma LoadedCall(contents: map<Bytes, Bytes>, c: EngineCall)
    requires Takes(c)
    ensures var after := match c case SetCall(k, v) => contents[k := v.Contents()] case DeleteCall(k) => contents - {k};
            LoadedAll(after) == ApplyCall(LoadedAll(contents), c)
  {
  }

  lemma LoadedListing(contents: map<Bytes, Bytes>, start: Option<Bytes>, end: Option<Bytes>)
    ensures var a, b := Listing(InBounds(contents, start, end)), Listing(InBounds(LoadedAll(contents), start, end));
            |a| == |b| && forall i :: 0 <= i < |a| ==> b[i] == Pair(a[i].key, Loaded(a[i].value))
  {
    ListingKeys(InBounds(contents, start, end), InBounds(LoadedAll(contents), start, end));
  }

  function LoadedEntries(ps: seq<Pair<Bytes>>): (es: seq<Entry>)
    ensures |es| == |ps| && forall i :: 0 <= i < |ps| ==> es[i] == Pair(ps[i].key, Loaded(ps[i].value))
  {
    seq(|ps|, i requires 0 <= i < |ps| => Pair(ps[i].key, Loaded(ps[i].value)))
  }

  lemma {:induction false} LoadedCalls(rs: seq<Record>, calls: seq<EngineCall>)
    requires forall c :: c in calls ==> Takes(c)
    ensures LoadedAll(Replay(rs + RecordsOf(calls))) == ApplyCalls(LoadedAll(Replay(rs)), calls)
  {
    if calls == [] {
      assert rs + RecordsOf(calls) == rs;
    } else {
      var init, c := calls[..|calls| - 1], calls[|calls| - 1];
      LoadedCalls(rs, init);
      assert rs + RecordsOf(calls) == rs + RecordsOf(init) + [RecordOf(c)];
      LoadedCall(Replay(rs + RecordsOf(init)), c);
    }
  }

  lemma RecordsSplit(found: seq<Record>, calls: seq<EngineCall>, m: nat)
    requires m <= |calls|
    ensures EncodeAll(found + RecordsOf(calls)) ==
            EncodeAll(found + RecordsOf(calls[..m])) + EncodeAll(RecordsOf(calls[m..]))
    ensures |EncodeAll(RecordsOf(calls[m..]))| == Size(RecordsOf(calls[m..]))
  {
    assert found + RecordsOf(calls) == found + RecordsOf(calls[..m]) + RecordsOf(calls[m..]);
    EncodeAllConcat(found + RecordsOf(calls[..m]), RecordsOf(calls[m..]));
    SizeOfEncoded(RecordsOf(calls[m..]));
  }

  class Engine {
    const memory: MemoryEngine?
    const disk: DiskEngine?
    const log: DiskLog?
    /** The objects this one is made of; what they are is part of the invariant. */
    ghost const parts: set<object>
    /** The records in the log when it was opened. */
    ghost const found: seq<Record>
    ghost var data: map<Bytes, Slice>
    /** Every update so far, in order. */
    var journal: seq<EngineCall>

    ghost function Repr(): set<object> {
      {this} + parts
    }

    ghost predicate Valid()
      reads Repr()
    {
      forall layer {:trigger Opened(layer)} :: Opened(layer) && layer.EngineLayer? ==>
        if disk == null then
          memory != null && memory in parts && memory.data == data
        else
          && log != null && {disk, log} <= parts && disk.log == log && disk.Valid()
          && data == LoadedAll(disk.Contents()) && disk.records == found + RecordsOf(journal)
    }

    constructor InMemory()
      ensures Valid() && disk == null && data == map[] && journal == [] && fresh(Repr())
    {
      var m := new MemoryEngine();
      memory := m;
      disk, log := null, null;
      parts := {m};
      found := [];
      data := map[];
      journal := [];
    }

    constructor OnDisk(disk: DiskEngine, log: DiskLog)
      requires disk.log == log && disk.Valid()
      ensures Valid() && this.disk == disk && this.log == log && parts == {disk, log}
      ensures data == LoadedAll(disk.Contents()) && found == disk.records && journal == []
    {
      this.memory, this.disk, this.log := null, disk, log;
      this.parts := {disk, log};
      this.found := disk.records;
      this.data := LoadedAll(disk.Contents());
      this.journal := [];
      new;
      assert disk.records == found + RecordsOf(journal);
    }

    /** The records in the file after the first m updates. */
    ghost function RecordsAfter(m: nat): seq<Record>
      requires m <= |journal|
      reads this
    {
      found + RecordsOf(journal[..m])
    }

    lemma RecordsAreWellFormed(m: nat)
      requires Valid() && disk != null && m <= |journal|
      ensures AllWellFormed(RecordsAfter(m))
    {
      assert Opened(EngineLayer);
      forall r | r in RecordsAfter(m)
        ensures r in disk.records
      {
        if r in RecordsOf(journal[..m]) {
          var i :| 0 <= i < m && RecordsOf(journal[..m])[i] == r;
          assert RecordsOf(journal)[i] == r;
        }
      }
    }

    /** The file as it was after the first m updates: updates only append to it. */
    method Torn(m: nat) returns (bytes: Bytes)
      requires Valid() && disk != null && m <= |journal|
      ensures bytes == EncodeAll(RecordsAfter(m))
    {
      assert Opened(EngineLayer);
      RecordsSplit(found, journal, m);
      bytes := log.bytes[..|log.bytes| - Size(RecordsOf(journal[m..]))];
    }

    method Set(key: Bytes, value: Slice)
      requires Valid() && (disk != null ==> Takes(SetCall(key, value)))
      modifies Repr()
      ensures Valid() && data == ApplyCall(old(data), SetCall(key, value))
      ensures journal == old(journal) + [SetCall(key, value)]
    {
      assert Opened(EngineLayer);
      if disk == null {
        memory.Set(key, value);
      } else {
        LoadedCall(disk.Contents(), SetCall(key, value));
        var _ := disk.Set(key, value);
      }
      data := data[key := value];
      journal := journal + [SetCall(key, value)];
    }

    method Delete(key: Bytes)
      requires Valid() && (disk != null ==> Takes(DeleteCall(key)))
      modifies Repr()
      ensures Valid() && data == ApplyCall(old(data), DeleteCall(key))
      ensures journal == old(journal) + [DeleteCall(key)]
    {
      assert Opened(EngineLayer);
      if disk == null {
        memory.Delete(key);
      } else {
        LoadedCall(disk.Contents(), DeleteCall(key));
        var _ := disk.Delete(key);
      }
      data := data - {key};
      journal := journal + [DeleteCall(key)];
    }

    /** The value of a key; of one stored with nil, nil in memory and an empty slice on disk. */
    method Get(key: Bytes) returns (value: Slice)
      requires Valid()
      ensures key !in data ==> value == Nil
      ensures key in data && data[key] != Nil ==> value == data[key]
      ensures key in data && data[key] == Nil ==> value.Contents() == []
    {
      assert Opened(EngineLayer);
      if disk == null {
        value := memory.Get(key);
      } else {
        value := disk.Get(key);
      }
    }

    method ScanRange(start: Option<Bytes>, end: Option<Bytes>, reverse: bool) returns (es: seq<Entry>)
      requires Valid()
      ensures var all := Listing(InBounds(data, start, end)); es == if reverse then Reversed(all) else all
    {
      assert Opened(EngineLayer);
      if disk == null {
        es := memory.ScanRange(start, end, reverse);
      } else {
        var ps := ScanNow(disk, start, end, reverse);
        LoadedListing(disk.Contents(), start, end);
        es := LoadedEntries(ps);
      }
    }

    method ScanReverse(start: Option<Bytes>, end: Option<Bytes>) returns (es: seq<Entry>)
      requires Valid()
      ensures es == Reversed(Listing(InBounds(data, start, end)))
    {
      es := ScanRange(start, end, true);
    }

    method ScanPrefix(prefix: Bytes) returns (es: seq<Entry>)
      requires Valid()
      ensures es == Listing(WithPrefix(data, prefix))
    {
      var end := ComputePrefixEnd(prefix);
      es := ScanRange(Some(prefix), end, false);
      PrefixBounds(data, prefix);
    }
  }
}
