/** The log-structured engine of storage/disk.go: an append-only log and an index into it. */
module DiskEngines {
  import opened ByteStrings
  import opened Ordering
  import opened DiskLogs
  import opened MemoryEngines
  import opened Compaction

  class DiskLog {
    var bytes: Bytes

    constructor (bytes: Bytes)
      ensures this.bytes == bytes
    {
      this.bytes := bytes;
    }

    /** Appends one record, a tombstone without the value; None, and nothing written, when it is too large. */
    method WriteEntry(key: Bytes, value: Bytes, deleted: bool) returns (pos: Option<Position>)
      modifies this
      ensures var r := if deleted then Tombstone(key) else Put(key, value);
              if |value| <= MAX_VALUE_SIZE && WellFormed(r) then
                pos == Some(Position(old(|bytes|), EntrySize(r))) && bytes == old(bytes) + EncodeRecord(r)
              else
                pos == None && bytes == old(bytes)
      ensures var stored := if deleted then 0 else |value|;
              pos.Some? <==> |value| < Pow256(4) / 2 && 8 + |key| + stored < Pow256(4)
    {
      Pow256Of4();
      if |value| > MAX_VALUE_SIZE {
        return None;
      }
      var valueField := if deleted then TOMBSTONE_FIELD else |value|;
      var storedSize := if deleted then 0 else |value|;
      var entrySize := HEADER_SIZE + |key| + storedSize;
      if entrySize > MAX_ENTRY_SIZE {
        return None;
      }
      var offset := |bytes|;
      bytes := bytes + (BigEndian(|key|, 4) + BigEndian(valueField, 4) + key + (if deleted then [] else value));
      pos := Some(Position(offset, entrySize));
    }
  }

  /** The checks of `rebuildKeydir` on the record at an offset; None is its error. */
  method CheckEntry(bytes: Bytes, offset: nat, ghost parse: nat -> Option<Record>)
    returns (r: Option<(Bytes, bool, nat)>)
    requires Parses(parse, bytes)
    ensures r == match parse(offset) {
                   case None => None
                   case Some(p) => Some((p.key, p.Tombstone?, EntrySize(p)))
                 }
  {
    SameParse(parse, bytes, offset);
    var entry := ReadEntry(bytes, offset);
    if entry.None? {
      return None;
    }
    var (key, valueSize) := entry.value;
    if valueSize < -1 {
      return None;
    }
    var stored := if valueSize == -1 then 0 else valueSize;
    var entrySize := HEADER_SIZE + |key| + stored;
    if entrySize > MAX_ENTRY_SIZE || entrySize > |bytes| - offset {
      return None;
    }
    r := Some((key, valueSize == -1, entrySize));
  }

  lemma SameParse(parse: nat -> Option<Record>, bytes: Bytes, offset: nat)
    requires Parses(parse, bytes)
    ensures parse(offset) == ParseAt(bytes, offset)
  {
    if r :| parse(offset) == Some(r) {
      ParseAtExact(bytes, offset, r);
    }
    if r :| ParseAt(bytes, offset) == Some(r) {
      ParseAtExact(bytes, offset, r);
      assert parse(offset) == Some(r);
    }
  }

  /** The offset loop of `rebuildKeydir`. */
  method WalkLog(bytes: Bytes, ghost parse: nat -> Option<Record>) returns (kd: Option<Keydir>)
    requires Parses(parse, bytes)
    ensures kd == Walk(parse, |bytes|, 0, map[])
  {
    var offset := 0;
    var keydir: Keydir := map[];
    while offset < |bytes|
      invariant Walk(parse, |bytes|, offset, keydir) == Walk(parse, |bytes|, 0, map[])
      decreases |bytes| - offset
    {
      var entry := CheckEntry(bytes, offset, parse);
      if entry.None? {
        return None;
      }
      var (key, deleted, entrySize) := entry.value;
      if deleted {
        keydir := keydir - {key};
      } else {
        keydir := keydir[key := Position(offset, entrySize)];
      }
      offset := offset + entrySize;
    }
    kd := Some(keydir);
  }

  /** `rebuildKeydir`: replays the log from its start; None is its error. */
  method RebuildKeydir(log: DiskLog) returns (kd: Option<Keydir>)
    ensures kd == Rebuild(log.bytes)
  {
    ParserParses(log.bytes);
    kd := WalkLog(log.bytes, Parser(log.bytes));
  }

  /** Ascending iteration over the index (google/btree is a sorted map here). */
  method Ascend(kd: Keydir) returns (items: seq<Pair<Position>>)
    ensures items == Listing(kd)
  {
    items := Collect(kd, None, None);
    assert InBounds(kd, None, None) == kd;
  }

  class DiskEngine {
    var log: DiskLog
    var keydir: Keydir
    /** Every record in the log, in order. */
    ghost var records: seq<Record>

    ghost predicate Valid()
      reads this, log
    {
      Consistent(log.bytes, keydir, records)
    }

    ghost function Contents(): map<Bytes, Bytes>
      reads this
    {
      Replay(records)
    }

    constructor (log: DiskLog, keydir: Keydir, ghost records: seq<Record>)
      requires Consistent(log.bytes, keydir, records)
      ensures this.log == log && this.records == records && Valid()
    {
      this.log := log;
      this.keydir := keydir;
      this.records := records;
    }

    /** Appends to the log first, then updates the index; a record that is too large changes nothing. */
    method Set(key: Bytes, value: Slice) returns (ok: bool)
      requires Valid()
      modifies this`keydir, this`records, log
      ensures Valid() && old(log.bytes) <= log.bytes
      ensures ok <==> WellFormed(Put(key, value.Contents()))
      ensures records == if ok then old(records) + [Put(key, value.Contents())] else old(records)
      ensures Contents() == if ok then old(Contents())[key := value.Contents()] else old(Contents())
    {
      ghost var r := Put(key, value.Contents());
      var pos := log.WriteEntry(key, value.Contents(), false);
      if pos.None? {
        return false;
      }
      ConsistentAppend(old(log.bytes), keydir, records, r);
      keydir := keydir[key := pos.value];
      records := records + [r];
      ok := true;
    }

    method Delete(key: Bytes) returns (ok: bool)
      requires Valid()
      modifies this`keydir, this`records, log
      ensures Valid() && old(log.bytes) <= log.bytes
      ensures ok <==> WellFormed(Tombstone(key))
      ensures records == if ok then old(records) + [Tombstone(key)] else old(records)
      ensures Contents() == if ok then old(Contents()) - {key} else old(Contents())
    {
      var pos := log.WriteEntry(key, [], true);
      if pos.None? {
        return false;
      }
      ConsistentAppend(old(log.bytes), keydir, records, Tombstone(key));
      keydir := keydir - {key};
      records := records + [Tombstone(key)];
      ok := true;
    }

    /** Looks the key up in the index and reads the value from the log. */
    method Get(key: Bytes) returns (value: Slice)
      requires Valid()
      ensures value == if key in Contents() then Slice(Contents()[key]) else Nil
    {
      IndexPoints(records);
      if key !in keydir {
        return Nil;
      }
      ReadsBack(log.bytes, keydir[key], key, Contents()[key]);
      value := Slice(ReadLogValue(log.bytes, keydir[key]).value);
    }

    /** Rewrites the live keys, in ascending order, into a new log and swaps it in. */
    method Compact()
      requires Valid()
      modifies this
      ensures Valid() && fresh(log)
      ensures Contents() == old(Contents())
      ensures records == Puts(Listing(old(Contents())))
      ensures Rebuild(log.bytes) == Some(keydir)
      ensures |log.bytes| <= old(|log.bytes|)
    {
      ghost var m := Contents();
      IndexPoints(records);
      var items := Ascend(keydir);
      var temp := new DiskLog([]);
      ListedPointAt(log.bytes, keydir, m);
      var newKeydir := Rewrite(items, temp, Listing(m));
      log := temp;
      keydir := newKeydir;
      ReplayPuts(m);
      WeightOfReplay(records);
      WeightOfPuts(m);
      records := Puts(Listing(m));
      RebuildExact(log.bytes);
    }

    method Rewrite(items: seq<Pair<Position>>, temp: DiskLog, ghost live: seq<Pair<Bytes>>) returns (newKeydir: Keydir)
      requires temp != log && temp.bytes == [] && AllPointAt(log.bytes, items, live)
      modifies temp
      ensures Consistent(temp.bytes, newKeydir, Puts(live))
    {
      newKeydir := map[];
      assert live[..0] == [];
      for i := 0 to |items|
        invariant log.bytes == old(log.bytes)
        invariant Consistent(temp.bytes, newKeydir, Puts(live[..i]))
      {
        newKeydir := RewriteItem(items[i], temp, newKeydir, Puts(live[..i]), live[i].value);
        assert Puts(live[..i + 1]) == Puts(live[..i]) + [Put(items[i].key, live[i].value)];
      }
      assert live[..|items|] == live;
    }

    method RewriteItem(item: Pair<Position>, temp: DiskLog, kd: Keydir, ghost rs: seq<Record>, ghost value: Bytes)
      returns (kd': Keydir)
      requires PointsAt(log.bytes, item.value, item.key, value) && temp != log && Consistent(temp.bytes, kd, rs)
      modifies temp
      ensures Consistent(temp.bytes, kd', rs + [Put(item.key, value)])
    {
      ReadsBack(log.bytes, item.value, item.key, value);
      ConsistentAppend(temp.bytes, kd, rs, Put(item.key, value));
      var read := ReadLogValue(log.bytes, item.value).value;
      var pos := temp.WriteEntry(item.key, read, false);
      kd' := kd[item.key := pos.value];
    }
  }

  /** `NewDiskEngine`: opens a log exactly when it is a concatenation of well-formed records. */
  method Open(log: DiskLog) returns (engine: DiskEngine?)
    ensures engine != null <==> exists rs :: AllWellFormed(rs) && log.bytes == EncodeAll(rs)
    ensures engine != null ==> engine.log == log && engine.Valid() && fresh(engine)
    ensures forall rs :: engine != null && AllWellFormed(rs) && log.bytes == EncodeAll(rs) ==>
            engine.Contents() == Replay(rs)
  {
    engine := null;
    var kd := RebuildKeydir(log);
    RebuildExact(log.bytes);
    if kd.Some? {
      ghost var rs :| AllWellFormed(rs) && log.bytes == EncodeAll(rs);
      engine := new DiskEngine(log, kd.value, rs);
      forall a | AllWellFormed(a) && log.bytes == EncodeAll(a)
        ensures a == rs
      {
        LogUnambiguous(a, rs);
      }
    }
  }
}
