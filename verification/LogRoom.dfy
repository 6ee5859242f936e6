/** Whether a log on disk has room for the records of the transactions: its records are limited in size. */
module LogRoom {
  import opened ByteStrings
  import opened Ordering
  import opened MvccKeys
  import opened MvccProtocol
  import opened MvccImages
  import opened DiskLogs
  import opened Engines

  /** The bytes of an encoded key besides the terminated raw key: namespace, kind and version. */
  const KEY_OVERHEAD: nat := 18

  predicate RoomyKey(k: Bytes) {
    HEADER_SIZE + KEY_OVERHEAD + |Terminated(k)| <= MAX_ENTRY_SIZE
  }

  predicate Roomy(k: Bytes, value: Value) {
    var size := |EncodeValue(value)|;
    size <= MAX_VALUE_SIZE && HEADER_SIZE + KEY_OVERHEAD + |Terminated(k)| + size <= MAX_ENTRY_SIZE
  }

  predicate RoomyOp(op: Op) {
    (op.Do? || op.Crash?) && op.a.Write? ==> Roomy(op.a.k, op.a.value)
  }

  lemma EncodeSize(k: Bytes, v: Version)
    ensures |Encode(TxnWrite(v, k))| == |Encode(Versioned(k, v))| == KEY_OVERHEAD + |Terminated(k)|
    ensures |Encode(TxnActive(v))| == KEY_OVERHEAD && |Encode(NextVersion)| < KEY_OVERHEAD
  {
  }

  /** There is room for a write exactly if the log takes both its records. */
  lemma RoomyExact(k: Bytes, v: Version, value: Value)
    ensures Roomy(k, value) <==>
            Takes(EncodeCall(RecordWrite(v, k))) && Takes(EncodeCall(PutVersion(k, v, value)))
    ensures var key, size := |Encode(Versioned(k, v))|, |EncodeValue(value)|;
            Roomy(k, value) <==> size < Pow256(4) / 2 && 8 + key + size < Pow256(4)
  {
    EncodeSize(k, v);
    Pow256Of4();
  }

  /** The keys a rollback may have to clear. */
  ghost predicate RoomyDb(db: Db) {
    forall vk :: vk in db.writes ==> RoomyKey(vk.1)
  }

  /** A call the log takes. */
  ghost predicate GoodCall(c: Call) {
    CallFits(c) && Takes(EncodeCall(c)) && (c.RecordWrite? ==> RoomyKey(c.k))
  }

  ghost predicate AllGood(cs: seq<Call>) {
    forall c :: c in cs ==> GoodCall(c)
  }

  lemma GoodMark(v: Version)
    ensures GoodCall(MarkActive(v)) && GoodCall(ClearActive(v))
    ensures 1 < v ==> GoodCall(SetNext(v))
  {
    EncodeSize([], v);
  }

  lemma GoodWrite(v: Version, k: Bytes, value: Value)
    requires Roomy(k, value)
    ensures GoodCall(RecordWrite(v, k)) && GoodCall(PutVersion(k, v, value))
  {
    EncodeSize(k, v);
  }

  lemma GoodUndo(v: Version, k: Bytes)
    requires RoomyKey(k)
    ensures GoodCall(ClearWrite(v, k)) && GoodCall(DropVersion(k, v))
  {
    EncodeSize(k, v);
  }

  lemma RecordedRoomy(db: Db, v: nat, k: Bytes)
    requires RoomyDb(db) && k in Sorted(Recorded(db, v))
    ensures RoomyKey(k)
  {
    SortedIsListing(Recorded(db, v));
    assert k in Elements(Sorted(Recorded(db, v)));
    assert (v, k) in db.writes;
  }

  lemma {:induction false} GoodClears(v: Version, ks: seq<Bytes>)
    requires forall k :: k in ks ==> RoomyKey(k)
    ensures AllGood(ClearWrites(v, ks)) && AllGood(UndoWrites(v, ks))
  {
    if ks != [] {
      GoodClears(v, ks[..|ks| - 1]);
      GoodUndo(v, ks[|ks| - 1]);
    }
  }

  /** What was written with room can be committed and rolled back with room. */
  lemma GoodEnd(db: Db, v: Version)
    requires RoomyDb(db)
    ensures var ks := Sorted(Recorded(db, v)); AllGood(ClearWrites(v, ks)) && AllGood(UndoWrites(v, ks))
  {
    var ks := Sorted(Recorded(db, v));
    forall k | k in ks
      ensures RoomyKey(k)
    {
      RecordedRoomy(db, v, k);
    }
    GoodClears(v, ks);
  }

  lemma GoodApplied(db: Db, c: Call)
    requires RoomyDb(db) && GoodCall(c)
    ensures RoomyDb(Apply(db, c))
  {
  }
}
