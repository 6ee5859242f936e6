/** The scans and loops of storage/storage.go, over the byte entries an engine returns. */
module MvccScans {
  import opened ByteStrings
  import opened Ordering
  import opened MvccKeys
  import opened MemoryEngines
  import opened MvccProtocol
  import opened MvccImages

  // ---- What the scans find ----

  /** A scanned entry is the encoding of a record that is there. */
  lemma EntryIsRecord(data: map<Bytes, Slice>, db: Db, b: Bytes) returns (key: MvccKey)
    requires Represents(data, db) && b in data
    ensures Decode(b) == Some(key) && Encode(key) == b && Holds(db, key) && data[b] == StoredValue(db, key)
  {
    key := Decode(b).value;
    EncodeDecode(b);
  }

  lemma EncodeSnoc(cs: seq<Call>, c: Call)
    requires AllFit(cs) && CallFits(c)
    ensures AllFit(cs + [c])
    ensures EncodeCalls(cs + [c]) == EncodeCalls(cs) + [EncodeCall(c)]
  {
  }

  /** The scan of the active marks finds one entry for each active version. */
  lemma ActiveEntries(data: map<Bytes, Slice>, db: Db, es: seq<Entry>) returns (vs: seq<Version>)
    requires Represents(data, db) && es == Listing(WithPrefix(data, KindPrefix(1)))
    ensures |vs| == |es| && (forall v :: v in vs <==> v in db.active)
    ensures forall i :: 0 <= i < |es| ==> Decode(es[i].key) == Some(TxnActive(vs[i]))
  {
    vs := DecodeActive(data, db, es);
    forall v
      ensures v in vs <==> v in db.active
    {
      if v in db.active {
        ActiveListed(data, db, es, vs, v);
      }
    }
  }

  lemma DecodeActive(data: map<Bytes, Slice>, db: Db, es: seq<Entry>) returns (vs: seq<Version>)
    requires Represents(data, db) && es == Listing(WithPrefix(data, KindPrefix(1)))
    ensures |vs| == |es| && (forall v :: v in vs ==> v in db.active)
    ensures forall i :: 0 <= i < |es| ==> Decode(es[i].key) == Some(TxnActive(vs[i]))
  {
    ListingFacts(WithPrefix(data, KindPrefix(1)));
    vs := [];
    for i := 0 to |es|
      invariant |vs| == i && forall v :: v in vs ==> v in db.active
      invariant forall j :: 0 <= j < i ==> Decode(es[j].key) == Some(TxnActive(vs[j]))
    {
      var v := ActiveEntry(data, db, es[i].key);
      vs := vs + [v];
    }
  }

  lemma ActiveListed(data: map<Bytes, Slice>, db: Db, es: seq<Entry>, vs: seq<Version>, v: nat)
    requires Represents(data, db) && es == Listing(WithPrefix(data, KindPrefix(1))) && v in db.active
    requires |vs| == |es| && forall i :: 0 <= i < |es| ==> Decode(es[i].key) == Some(TxnActive(vs[i]))
    ensures v in vs
  {
    ActiveHasEntry(data, db, v);
    var i := ListingIndex(WithPrefix(data, KindPrefix(1)), Encode(TxnActive(v)));
    assert Decode(es[i].key) == Some(TxnActive(vs[i]));
  }

  lemma ActiveEntry(data: map<Bytes, Slice>, db: Db, b: Bytes) returns (v: Version)
    requires Represents(data, db) && b in WithPrefix(data, KindPrefix(1))
    ensures Decode(b) == Some(TxnActive(v)) && v in db.active
  {
    var key := EntryIsRecord(data, db, b);
    KindPrefixOnly(1, key, []);
    v := key.version;
  }

  lemma ActiveHasEntry(data: map<Bytes, Slice>, db: Db, v: nat)
    requires Represents(data, db) && v in db.active
    ensures v <= MAX_VERSION && Encode(TxnActive(v)) in WithPrefix(data, KindPrefix(1))
    ensures Decode(Encode(TxnActive(v))) == Some(TxnActive(v))
  {
    assert Holds(db, TxnActive(v));
    KindPrefixOnly(1, TxnActive(v), []);
    DecodeEncode(TxnActive(v));
  }

  method CollectVersions(es: seq<Entry>, ghost vs: seq<Version>) returns (active: set<nat>)
    requires |vs| == |es| && forall i :: 0 <= i < |es| ==> Decode(es[i].key) == Some(TxnActive(vs[i]))
    ensures forall v :: v in active <==> v in vs
  {
    active := {};
    for i := 0 to |es|
      invariant forall v :: v in active <==> v in vs[..i]
    {
      var key := Decode(es[i].key).value;
      active := active + {key.version};
      assert vs[..i + 1] == vs[..i] + [vs[i]];
    }
    assert vs[..|es|] == vs;
  }

  // ---- The versions of one key ----

  lemma KindOrder(key: MvccKey, k: Bytes, v: Version)
    requires !key.Versioned?
    ensures Less(Encode(key), Encode(Versioned(k, v)))
  {
    var a, b := KindPrefix(KindByte(key)), KindPrefix(3);
    LessCommonPrefix(NAMESPACE, [KindByte(key)], [3]);
    LessEqualLength(a, Encode(key)[10..], b, Encode(Versioned(k, v))[10..]);
    assert Encode(key) == a + Encode(key)[10..];
    assert Encode(Versioned(k, v)) == b + Encode(Versioned(k, v))[10..];
  }

  /** The scan range [(k, lo), end) holds the versions lo..hi of k and no other key. */
  ghost predicate KeyWindow(k: Bytes, lo: Version, end: Bytes, hi: nat) {
    forall key {:trigger Encode(key)} ::
      InRange(Encode(key), Some(Encode(Versioned(k, lo))), Some(end)) <==>
      key.Versioned? && key.rawKey == k && lo <= key.version < hi
  }

  lemma WindowBelow(k: Bytes, lo: Version, hi: Version)
    ensures KeyWindow(k, lo, Encode(Versioned(k, hi)), hi)
  {
    forall key {:trigger Encode(key)}
      ensures InRange(Encode(key), Some(Encode(Versioned(k, lo))), Some(Encode(Versioned(k, hi)))) <==>
              key.Versioned? && key.rawKey == k && lo <= key.version < hi
    {
      if key.Versioned? {
        VersionedOrder(key.rawKey, key.version, k, lo);
        VersionedOrder(key.rawKey, key.version, k, hi);
        LessTotal(key.rawKey, k);
      } else {
        KindOrder(key, k, lo);
      }
    }
  }

  lemma {:induction false} LessSuccessor(a: Bytes, b: Bytes)
    ensures Less(a, b + [0]) <==> a == b || Less(a, b)
  {
    if b == [] {
      assert b + [0] == [0];
    } else if a != [] && a[0] == b[0] {
      assert (b + [0])[1..] == b[1..] + [0];
      LessSuccessor(a[1..], b[1..]);
      assert a == [a[0]] + a[1..] && b == [b[0]] + b[1..];
    } else if a != [] {
      assert (b + [0])[0] == b[0];
    }
  }

  lemma WindowToTop(k: Bytes, lo: Version)
    ensures KeyWindow(k, lo, Encode(Versioned(k, MAX_VERSION)) + [0], MAX_VERSION + 1)
  {
    var last := Encode(Versioned(k, MAX_VERSION));
    forall key {:trigger Encode(key)}
      ensures InRange(Encode(key), Some(Encode(Versioned(k, lo))), Some(last + [0])) <==>
              key.Versioned? && key.rawKey == k && lo <= key.version < MAX_VERSION + 1
    {
      LessSuccessor(Encode(key), last);
      EncodeInjective(key, Versioned(k, MAX_VERSION));
      if key.Versioned? {
        VersionedOrder(key.rawKey, key.version, k, lo);
        VersionedOrder(key.rawKey, key.version, k, MAX_VERSION);
        LessTotal(key.rawKey, k);
      } else {
        KindOrder(key, k, lo);
      }
    }
  }

  /** e is the stored version v of k. */
  ghost predicate IsVersion(e: Entry, k: Bytes, v: Version, db: Db) {
    && e.key == Encode(Versioned(k, v)) && Decode(e.key) == Some(Versioned(k, v))
    && (k, v) in db.versions && e.value == Slice(EncodeValue(db.versions[(k, v)]))
  }

  /** es lists the stored versions vs of k, newest first. */
  ghost predicate ListsVersions(es: seq<Entry>, k: Bytes, vs: seq<Version>, db: Db) {
    && |vs| == |es|
    && (forall i :: 0 <= i < |es| ==> IsVersion(es[i], k, vs[i], db))
    && (forall i, j :: 0 <= i < j < |vs| ==> vs[i] > vs[j])
  }

  lemma VersionEntry(data: map<Bytes, Slice>, db: Db, k: Bytes, lo: Version, end: Bytes, hi: nat, b: Bytes)
    returns (v: Version)
    requires Represents(data, db) && KeyWindow(k, lo, end, hi)
    requires b in InBounds(data, Some(Encode(Versioned(k, lo))), Some(end))
    ensures IsVersion(Pair(b, data[b]), k, v, db) && lo <= v < hi
  {
    var key := EntryIsRecord(data, db, b);
    v := key.version;
  }

  lemma ListedBackwards<V>(m: map<Bytes, V>, i: nat)
    requires i < |Listing(m)|
    ensures var e := Reversed(Listing(m))[i]; e.key in m && e.value == m[e.key]
  {
    ListingFacts(m);
  }

  lemma DecodeVersions(data: map<Bytes, Slice>, db: Db, k: Bytes, lo: Version, end: Bytes, hi: nat, es: seq<Entry>)
    returns (vs: seq<Version>)
    requires Represents(data, db) && KeyWindow(k, lo, end, hi)
    requires es == Reversed(Listing(InBounds(data, Some(Encode(Versioned(k, lo))), Some(end))))
    ensures |vs| == |es|
    ensures forall i :: 0 <= i < |es| ==> lo <= vs[i] < hi && IsVersion(es[i], k, vs[i], db)
  {
    vs := [];
    for i := 0 to |es|
      invariant |vs| == i
      invariant forall j :: 0 <= j < i ==> lo <= vs[j] < hi && IsVersion(es[j], k, vs[j], db)
    {
      ListedBackwards(InBounds(data, Some(Encode(Versioned(k, lo))), Some(end)), i);
      var v := VersionEntry(data, db, k, lo, end, hi, es[i].key);
      vs := vs + [v];
    }
  }

  lemma VersionEntries(data: map<Bytes, Slice>, db: Db, k: Bytes, lo: Version, end: Bytes, hi: nat, es: seq<Entry>)
    returns (vs: seq<Version>)
    requires Represents(data, db) && KeyWindow(k, lo, end, hi)
    requires es == Reversed(Listing(InBounds(data, Some(Encode(Versioned(k, lo))), Some(end))))
    ensures ListsVersions(es, k, vs, db)
    ensures forall v :: v in vs <==> lo <= v < hi && (k, v) in db.versions
  {
    vs := DecodeVersions(data, db, k, lo, end, hi, es);
    ListingFacts(InBounds(data, Some(Encode(Versioned(k, lo))), Some(end)));
    forall i, j | 0 <= i < j < |vs|
      ensures vs[i] > vs[j]
    {
      assert Less(es[j].key, es[i].key);
      VersionedOrder(k, vs[j], k, vs[i]);
      LessIrreflexive(k);
    }
    forall v | lo <= v < hi && (k, v) in db.versions
      ensures v in vs
    {
      VersionListed(data, db, k, lo, end, hi, es, vs, v);
    }
  }

  lemma VersionListed(
    data: map<Bytes, Slice>, db: Db, k: Bytes, lo: Version, end: Bytes, hi: nat, es: seq<Entry>, vs: seq<Version>,
    v: nat)
    requires Represents(data, db) && KeyWindow(k, lo, end, hi)
    requires es == Reversed(Listing(InBounds(data, Some(Encode(Versioned(k, lo))), Some(end))))
    requires |vs| == |es| && forall i :: 0 <= i < |es| ==> IsVersion(es[i], k, vs[i], db)
    requires lo <= v < hi && (k, v) in db.versions
    ensures v in vs
  {
    assert (k, v).1 <= MAX_VERSION;
    assert Holds(db, Versioned(k, v));
    var m := InBounds(data, Some(Encode(Versioned(k, lo))), Some(end));
    var i := ListingIndex(m, Encode(Versioned(k, v)));
    DecodeEncode(Versioned(k, v));
    assert es[|es| - 1 - i].key == Encode(Versioned(k, v)) && IsVersion(es[|es| - 1 - i], k, vs[|es| - 1 - i], db);
  }

  lemma ClearsFit(v: Version, ks: seq<Bytes>, keys: seq<Bytes>)
    requires |keys| == |ks| && forall i :: 0 <= i < |ks| ==> keys[i] == Encode(TxnWrite(v, ks[i]))
    ensures AllFit(ClearWrites(v, ks))
    ensures forall i :: 0 <= i < |ks| ==> EncodeCall(ClearWrites(v, ks)[i]) == DeleteCall(keys[i])
  {
    forall i | 0 <= i < |ks|
      ensures ClearWrites(v, ks)[i] == ClearWrite(v, ks[i])
    {
      ClearWritesAt(v, ks, i);
    }
  }

  lemma UndosFit(v: Version, ks: seq<Bytes>, all: seq<Bytes>)
    requires |all| == 2 * |ks|
    requires forall i :: 0 <= i < |ks| ==>
             all[2 * i] == Encode(TxnWrite(v, ks[i])) && all[2 * i + 1] == Encode(Versioned(ks[i], v))
    ensures AllFit(UndoWrites(v, ks))
    ensures forall i :: 0 <= i < |all| ==> EncodeCall(UndoWrites(v, ks)[i]) == DeleteCall(all[i])
  {
    var cs := UndoWrites(v, ks);
    forall i | 0 <= i < |all|
      ensures CallFits(cs[i]) && EncodeCall(cs[i]) == DeleteCall(all[i])
    {
      UndoWritesAt(v, ks, i / 2);
      assert i == 2 * (i / 2) || i == 2 * (i / 2) + 1;
    }
  }

  /** The check of `write`: only the first entry of the descending scan is looked at. */
  method NewestIsVisible(t: Txn, es: seq<Entry>, ghost k: Bytes, ghost vs: seq<Version>, ghost db: Db, ghost from: nat)
    returns (ok: bool)
    requires ListsVersions(es, k, vs, db)
    requires forall v :: v in vs <==> from <= v < MAX_VERSION + 1 && (k, v) in db.versions
    requires forall v: nat :: t.InWindow(v) <==> from <= v
    requires forall kv :: kv in db.versions ==> kv.1 <= MAX_VERSION
    ensures ok <==> !Conflict(db, t, k)
  {
    ok := true;
    if |es| > 0 {
      assert IsVersion(es[0], k, vs[0], db);
      ok := t.Sees(Decode(es[0].key).value.version);
      assert vs[0] in vs;
      forall u | (k, u) in db.versions && t.InWindow(u)
        ensures u <= vs[0]
      {
        assert (k, u).1 <= MAX_VERSION;
        assert u in vs;
      }
      assert NewestInWindow(db, t, k, vs[0]);
    } else {
      forall u | (k, u) in db.versions
        ensures !t.InWindow(u)
      {
        assert (k, u).1 <= MAX_VERSION;
        assert u !in vs;
      }
    }
  }

  /** Each write record followed by the version key it names. */
  method WithVersions(keys: seq<Bytes>, v: Version, ghost ks: seq<Bytes>) returns (all: seq<Bytes>)
    requires |keys| == |ks| && forall i :: 0 <= i < |ks| ==> keys[i] == Encode(TxnWrite(v, ks[i]))
    ensures |all| == 2 * |ks|
    ensures forall i :: 0 <= i < |ks| ==>
            all[2 * i] == Encode(TxnWrite(v, ks[i])) && all[2 * i + 1] == Encode(Versioned(ks[i], v))
  {
    all := [];
    for i := 0 to |keys|
      invariant |all| == 2 * i
      invariant forall j :: 0 <= j < i ==>
                all[2 * j] == Encode(TxnWrite(v, ks[j])) && all[2 * j + 1] == Encode(Versioned(ks[j], v))
    {
      DecodeEncode(TxnWrite(v, ks[i]));
      var decoded := Decode(keys[i]).value;
      all := all + [keys[i], Encode(Versioned(decoded.rawKey, decoded.version))];
    }
  }

  // ---- The versions of all keys with a prefix ----

  /** (raws[i], vs[i]) are the stored versions of the keys starting with p, in ascending order. */
  ghost predicate ListsPrefix(p: Bytes, raws: seq<Bytes>, vs: seq<Version>, db: Db) {
    && |raws| == |vs|
    && (forall i :: 0 <= i < |vs| ==> (raws[i], vs[i]) in db.versions && p <= raws[i])
    && (forall i, j :: 0 <= i < j < |vs| ==> Less(raws[i], raws[j]) || (raws[i] == raws[j] && vs[i] < vs[j]))
    && (forall k, v :: (k, v) in db.versions && p <= k ==> exists i :: 0 <= i < |vs| && raws[i] == k && vs[i] == v)
  }

  lemma PrefixEntry(data: map<Bytes, Slice>, db: Db, p: Bytes, es: seq<Entry>, i: nat) returns (k: Bytes, v: Version)
    requires Represents(data, db) && es == Listing(WithPrefix(data, VersionedPrefix(p))) && i < |es|
    ensures IsVersion(es[i], k, v, db) && p <= k
  {
    ListingFacts(WithPrefix(data, VersionedPrefix(p)));
    var key := EntryIsRecord(data, db, es[i].key);
    VersionedPrefixSelects(p, key);
    k, v := key.rawKey, key.version;
  }

  lemma DecodePrefix(data: map<Bytes, Slice>, db: Db, p: Bytes, es: seq<Entry>)
    returns (raws: seq<Bytes>, vs: seq<Version>)
    requires Represents(data, db) && es == Listing(WithPrefix(data, VersionedPrefix(p)))
    ensures |raws| == |vs| == |es|
    ensures forall i :: 0 <= i < |es| ==> p <= raws[i] && IsVersion(es[i], raws[i], vs[i], db)
  {
    raws, vs := [], [];
    for i := 0 to |es|
      invariant |raws| == |vs| == i
      invariant forall j :: 0 <= j < i ==> p <= raws[j] && IsVersion(es[j], raws[j], vs[j], db)
    {
      var k, v := PrefixEntry(data, db, p, es, i);
      raws, vs := raws + [k], vs + [v];
    }
  }

  lemma PrefixListed(data: map<Bytes, Slice>, db: Db, p: Bytes, es: seq<Entry>, k: Bytes, v: nat) returns (i: nat)
    requires Represents(data, db) && es == Listing(WithPrefix(data, VersionedPrefix(p)))
    requires (k, v) in db.versions && p <= k
    ensures v <= MAX_VERSION && i < |es| && es[i].key == Encode(Versioned(k, v))
    ensures Decode(es[i].key) == Some(Versioned(k, v))
  {
    assert (k, v).1 <= MAX_VERSION;
    assert Holds(db, Versioned(k, v));
    VersionedPrefixSelects(p, Versioned(k, v));
    i := ListingIndex(WithPrefix(data, VersionedPrefix(p)), Encode(Versioned(k, v)));
    DecodeEncode(Versioned(k, v));
  }

  lemma PrefixEntries(data: map<Bytes, Slice>, db: Db, p: Bytes, es: seq<Entry>)
    returns (raws: seq<Bytes>, vs: seq<Version>)
    requires Represents(data, db) && es == Listing(WithPrefix(data, VersionedPrefix(p)))
    ensures |es| == |vs| && ListsPrefix(p, raws, vs, db)
    ensures forall i :: 0 <= i < |es| ==> IsVersion(es[i], raws[i], vs[i], db)
  {
    raws, vs := DecodePrefix(data, db, p, es);
    ListingFacts(WithPrefix(data, VersionedPrefix(p)));
    forall i, j | 0 <= i < j < |es|
      ensures Less(raws[i], raws[j]) || (raws[i] == raws[j] && vs[i] < vs[j])
    {
      assert Less(es[i].key, es[j].key);
      VersionedOrder(raws[i], vs[i], raws[j], vs[j]);
    }
    forall k, v | (k, v) in db.versions && p <= k
      ensures exists i :: 0 <= i < |es| && raws[i] == k && vs[i] == v
    {
      var i := PrefixListed(data, db, p, es, k, v);
      assert raws[i] == k && vs[i] == v;
    }
  }

  /** The newest version of k that t sees among the first n scanned ones. */
  ghost function LatestOf(t: Txn, raws: seq<Bytes>, vs: seq<Version>, db: Db, k: Bytes, n: nat): Value
    requires n <= |raws| == |vs| && forall i :: 0 <= i < |vs| ==> (raws[i], vs[i]) in db.versions
  {
    if n == 0 then None
    else if raws[n - 1] == k && t.Sees(vs[n - 1]) then db.versions[(k, vs[n - 1])]
    else LatestOf(t, raws, vs, db, k, n - 1)
  }

  lemma {:induction false} LatestFrom(t: Txn, raws: seq<Bytes>, vs: seq<Version>, db: Db, k: Bytes, n: nat)
    returns (i: int)
    requires n <= |raws| == |vs| && forall i :: 0 <= i < |vs| ==> (raws[i], vs[i]) in db.versions
    ensures -1 <= i < n
    ensures i >= 0 ==> raws[i] == k && t.Sees(vs[i]) && LatestOf(t, raws, vs, db, k, n) == db.versions[(k, vs[i])]
    ensures i < 0 ==> LatestOf(t, raws, vs, db, k, n) == None
    ensures forall j :: i < j < n && raws[j] == k ==> !t.Sees(vs[j])
  {
    if n == 0 {
      i := -1;
    } else if raws[n - 1] == k && t.Sees(vs[n - 1]) {
      i := n - 1;
    } else {
      i := LatestFrom(t, raws, vs, db, k, n - 1);
    }
  }

  /** Once all versions of k are scanned, the newest seen is what `Get` reads. */
  lemma LatestIsGet(t: Txn, p: Bytes, raws: seq<Bytes>, vs: seq<Version>, db: Db, k: Bytes)
    requires ListsPrefix(p, raws, vs, db) && p <= k
    ensures LatestOf(t, raws, vs, db, k, |vs|) == Get(db, t, k)
  {
    var i := LatestFrom(t, raws, vs, db, k, |vs|);
    forall u | (k, u) in db.versions && t.Sees(u)
      ensures i >= 0 && u <= vs[i]
    {
      var j :| 0 <= j < |vs| && raws[j] == k && vs[j] == u;
      LessIrreflexive(k);
    }
    if i >= 0 {
      ReadNewest(db, t, k, vs[i], t.version);
    } else {
      ReadNothing(db, t, k, t.version);
    }
  }

  /** The reads of `Get`: newest first, skip what the transaction does not see. */
  lemma SeenFirst(t: Txn, k: Bytes, vs: seq<Version>, db: Db, i: nat)
    requires i < |vs| && (forall a, b :: 0 <= a < b < |vs| ==> vs[a] > vs[b])
    requires forall v :: v in vs <==> 0 <= v < t.version + 1 && (k, v) in db.versions
    requires t.Sees(vs[i]) && forall j :: 0 <= j < i ==> !t.Sees(vs[j])
    ensures vs[i] in vs && Get(db, t, k) == db.versions[(k, vs[i])]
  {
    forall u | vs[i] < u <= t.version && (k, u) in db.versions
      ensures !t.Sees(u)
    {
      assert u in vs;
    }
    ReadNewest(db, t, k, vs[i], t.version);
  }

  lemma SeenNone(t: Txn, k: Bytes, vs: seq<Version>, db: Db)
    requires forall v :: v in vs <==> 0 <= v < t.version + 1 && (k, v) in db.versions
    requires forall j :: 0 <= j < |vs| ==> !t.Sees(vs[j])
    ensures Get(db, t, k) == None
  {
    forall u | u <= t.version && (k, u) in db.versions
      ensures !t.Sees(u)
    {
      assert u in vs;
    }
    ReadNothing(db, t, k, t.version);
  }

  method FirstVisible(t: Txn, es: seq<Entry>, ghost k: Bytes, ghost vs: seq<Version>, ghost db: Db) returns (r: Value)
    requires ListsVersions(es, k, vs, db)
    requires forall v :: v in vs <==> 0 <= v < t.version + 1 && (k, v) in db.versions
    ensures r == Get(db, t, k)
  {
    for i := 0 to |es|
      invariant forall j :: 0 <= j < i ==> !t.Sees(vs[j])
    {
      assert IsVersion(es[i], k, vs[i], db);
      var key := Decode(es[i].key).value;
      if !t.Sees(key.version) {
        continue;
      }
      ValueRoundTrip(db.versions[(k, vs[i])]);
      SeenFirst(t, k, vs, db, i);
      return DecodeValue(es[i].value.bytes).value;
    }
    SeenNone(t, k, vs, db);
    r := None;
  }

  /** What a reader finds in the range of a key's versions up to its own. */
  method ReadVisible(t: Txn, es: seq<Entry>, k: Bytes, ghost data: map<Bytes, Slice>, ghost db: Db) returns (r: Value)
    requires Represents(data, db) && t.version < MAX_VERSION
    requires es == Reversed(Listing(InBounds(
                     data, Some(Encode(Versioned(k, 0))), Some(Encode(Versioned(k, t.version + 1))))))
    ensures r == Get(db, t, k)
  {
    WindowBelow(k, 0, t.version + 1);
    ghost var vs := VersionEntries(data, db, k, 0, Encode(Versioned(k, t.version + 1)), t.version + 1, es);
    r := FirstVisible(t, es, k, vs, db);
  }

  // ---- The aggregation loop of `ScanPrefix` ----

  /** `flush`: the finished key joins the result if its newest visible version is a value. */
  function Flush(out: seq<Pair<Bytes>>, key: Bytes, value: Value): seq<Pair<Bytes>> {
    if value.Some? then out + [Pair(key, value.value)] else out
  }

  /** out holds, in key order, the newest seen values of the keys among the first n versions, `but` left out. */
  ghost predicate Collected(
    out: seq<Pair<Bytes>>, t: Txn, raws: seq<Bytes>, vs: seq<Version>, db: Db, n: nat, but: Option<Bytes>)
    requires n <= |raws| == |vs| && forall i :: 0 <= i < |vs| ==> (raws[i], vs[i]) in db.versions
  {
    && Ascending(Keys(out))
    && (forall e :: e in out ==> e.key in raws[..n] && LatestOf(t, raws, vs, db, e.key, n) == Some(e.value))
    && (but.Some? ==> forall e :: e in out ==> Less(e.key, but.value))
    && (forall j :: 0 <= j < n && Some(raws[j]) != but && LatestOf(t, raws, vs, db, raws[j], n).Some? ==>
          Pair(raws[j], LatestOf(t, raws, vs, db, raws[j], n).value) in out)
  }

  lemma FlushCollects(out: seq<Pair<Bytes>>, t: Txn, raws: seq<Bytes>, vs: seq<Version>, db: Db, n: nat, key: Bytes)
    requires n <= |raws| == |vs| && forall i :: 0 <= i < |vs| ==> (raws[i], vs[i]) in db.versions
    requires Collected(out, t, raws, vs, db, n, Some(key))
    requires LatestOf(t, raws, vs, db, key, n).Some? ==> key in raws[..n]
    ensures Collected(Flush(out, key, LatestOf(t, raws, vs, db, key, n)), t, raws, vs, db, n, None)
  {
    var value := LatestOf(t, raws, vs, db, key, n);
    if value.Some? {
      var out' := out + [Pair(key, value.value)];
      forall i, j | 0 <= i < j < |out'|
        ensures Less(Keys(out')[i], Keys(out')[j])
      {
        if j < |out| {
          assert Less(Keys(out)[i], Keys(out)[j]);
        } else {
          assert out[i] in out;
        }
      }
    }
  }

  lemma {:induction false} LatestOfOther(t: Txn, raws: seq<Bytes>, vs: seq<Version>, db: Db, k: Bytes, n: nat)
    requires n <= |raws| == |vs| && forall i :: 0 <= i < |vs| ==> (raws[i], vs[i]) in db.versions
    requires k !in raws[..n]
    ensures LatestOf(t, raws, vs, db, k, n) == None
  {
    if n != 0 {
      assert raws[n - 1] in raws[..n];
      assert forall x :: x in raws[..n - 1] ==> x in raws[..n];
      LatestOfOther(t, raws, vs, db, k, n - 1);
    }
  }

  /** One more version, of a key the result does not hold yet. */
  lemma CollectNext(
    out: seq<Pair<Bytes>>, t: Txn, raws: seq<Bytes>, vs: seq<Version>, db: Db, n: nat, but: Option<Bytes>)
    requires n < |raws| == |vs| && forall i :: 0 <= i < |vs| ==> (raws[i], vs[i]) in db.versions
    requires Collected(out, t, raws, vs, db, n, but)
    requires but == Some(raws[n]) || (but == None && forall j :: 0 <= j < n ==> Less(raws[j], raws[n]))
    ensures Collected(out, t, raws, vs, db, n + 1, Some(raws[n]))
  {
    forall e | e in out
      ensures e.key in raws[..n + 1] && e.key != raws[n] && Less(e.key, raws[n])
    {
      assert forall x :: x in raws[..n] ==> x in raws[..n + 1];
      var j :| 0 <= j < n && raws[j] == e.key;
      LessIrreflexive(e.key);
    }
  }

  method AggregateVersions(
    t: Txn, es: seq<Entry>, ghost p: Bytes, ghost raws: seq<Bytes>, ghost vs: seq<Version>, ghost db: Db)
    returns (out: seq<Pair<Bytes>>)
    requires |es| == |vs| && ListsPrefix(p, raws, vs, db)
    requires forall i :: 0 <= i < |es| ==> IsVersion(es[i], raws[i], vs[i], db)
    ensures out == ScanPrefix(db, t, p)
  {
    out := [];
    var currentKey: Bytes := [];
    var currentValue: Value := None;
    for n := 0 to |es|
      invariant currentKey == if n == 0 then [] else raws[n - 1]
      invariant currentValue == LatestOf(t, raws, vs, db, currentKey, n)
      invariant Collected(out, t, raws, vs, db, n, Some(currentKey))
    {
      assert IsVersion(es[n], raws[n], vs[n], db);
      var key := Decode(es[n].key).value;
      if key.rawKey != currentKey {
        LatestNeedsKey(t, raws, vs, db, currentKey, n);
        FlushCollects(out, t, raws, vs, db, n, currentKey);
        out := Flush(out, currentKey, currentValue);
        currentKey := key.rawKey;
        currentValue := None;
        EarlierKeys(p, raws, vs, db, n);
        LatestOfOther(t, raws, vs, db, currentKey, n);
        CollectNext(out, t, raws, vs, db, n, None);
      } else {
        CollectNext(out, t, raws, vs, db, n, Some(currentKey));
      }
      if !t.Sees(key.version) {
        continue;
      }
      ValueRoundTrip(db.versions[(raws[n], vs[n])]);
      currentValue := DecodeValue(es[n].value.bytes).value;
    }
    LatestNeedsKey(t, raws, vs, db, currentKey, |es|);
    FlushCollects(out, t, raws, vs, db, |es|, currentKey);
    out := Flush(out, currentKey, currentValue);
    CollectedIsScan(out, t, p, raws, vs, db);
  }

  lemma LatestNeedsKey(t: Txn, raws: seq<Bytes>, vs: seq<Version>, db: Db, k: Bytes, n: nat)
    requires n <= |raws| == |vs| && forall i :: 0 <= i < |vs| ==> (raws[i], vs[i]) in db.versions
    ensures LatestOf(t, raws, vs, db, k, n).Some? ==> k in raws[..n]
  {
    if k !in raws[..n] {
      LatestOfOther(t, raws, vs, db, k, n);
    }
  }

  lemma EarlierKeys(p: Bytes, raws: seq<Bytes>, vs: seq<Version>, db: Db, n: nat)
    requires ListsPrefix(p, raws, vs, db) && n < |raws| && (n > 0 ==> raws[n] != raws[n - 1])
    ensures forall j :: 0 <= j < n ==> Less(raws[j], raws[n])
    ensures raws[n] !in raws[..n]
  {
    forall j | 0 <= j < n
      ensures Less(raws[j], raws[n])
    {
      if j < n - 1 && raws[j] != raws[n - 1] {
        LessTransitive(raws[j], raws[n - 1], raws[n]);
      }
    }
    LessIrreflexive(raws[n]);
  }

  lemma KeyCollected(out: seq<Pair<Bytes>>, t: Txn, p: Bytes, raws: seq<Bytes>, vs: seq<Version>, db: Db, k: Bytes)
    requires ListsPrefix(p, raws, vs, db) && Collected(out, t, raws, vs, db, |vs|, None)
             && k in WithPrefix(View(db, t), p)
    ensures k in Elements(Keys(out))
  {
    ViewIsGet(db, t, k);
    LatestIsGet(t, p, raws, vs, db, k);
    LatestNeedsKey(t, raws, vs, db, k, |vs|);
    var j :| 0 <= j < |raws| && raws[j] == k;
    assert Pair(k, Get(db, t, k).value) in out;
    var i :| 0 <= i < |out| && out[i] == Pair(k, Get(db, t, k).value);
    assert Keys(out)[i] == k;
  }

  lemma CollectedIsScan(out: seq<Pair<Bytes>>, t: Txn, p: Bytes, raws: seq<Bytes>, vs: seq<Version>, db: Db)
    requires ListsPrefix(p, raws, vs, db) && Collected(out, t, raws, vs, db, |vs|, None)
    ensures out == ScanPrefix(db, t, p)
  {
    var m := WithPrefix(View(db, t), p);
    forall e | e in out
      ensures e.key in m && m[e.key] == e.value
    {
      var j :| 0 <= j < |raws| && raws[j] == e.key;
      LatestIsGet(t, p, raws, vs, db, e.key);
      ViewIsGet(db, t, e.key);
    }
    forall i | 0 <= i < |out|
      ensures out[i].key in m && out[i].value == m[out[i].key]
    {
      assert out[i] in out;
    }
    forall k
      ensures k in Elements(Keys(out)) <==> k in m
    {
      if k in m {
        KeyCollected(out, t, p, raws, vs, db, k);
      }
    }
    ListingUnique(out, m);
  }

  method EntryKeys(es: seq<Entry>) returns (keys: seq<Bytes>)
    ensures keys == Keys(es)
  {
    keys := [];
    for i := 0 to |es|
      invariant |keys| == i && forall j :: 0 <= j < i ==> keys[j] == es[j].key
    {
      keys := keys + [es[i].key];
    }
  }

  lemma WriteRecordsSorted(data: map<Bytes, Slice>, db: Db, v: Version, keys: seq<Bytes>)
    requires Represents(data, db)
    requires keys == Keys(Listing(WithPrefix(data, TxnWritePrefix(v))))
    ensures var ks := Sorted(Recorded(db, v));
            |keys| == |ks| && forall i :: 0 <= i < |ks| ==> keys[i] == Encode(TxnWrite(v, ks[i]))
  {
    var enc := WriteKey(v);
    WriteKeysListed(data, db, v, keys);
    forall j, k | Less(j, k)
      ensures Less(enc(j), enc(k))
    {
      WriteKeyOrder(v, j, k);
    }
    SortedImage(keys, Recorded(db, v), enc);
  }

  ghost function WriteKey(v: Version): Bytes -> Bytes {
    k => Encode(TxnWrite(v, k))
  }

  lemma WriteKeysListed(data: map<Bytes, Slice>, db: Db, v: Version, keys: seq<Bytes>)
    requires Represents(data, db)
    requires keys == Keys(Listing(WithPrefix(data, TxnWritePrefix(v))))
    ensures Ascending(keys)
    ensures forall b :: b in Elements(keys) <==> exists k :: k in Recorded(db, v) && WriteKey(v)(k) == b
  {
    ListingFacts(WithPrefix(data, TxnWritePrefix(v)));
    forall b
      ensures b in Elements(keys) <==> exists k :: k in Recorded(db, v) && WriteKey(v)(k) == b
    {
      if b in Elements(keys) {
        var k := WriteEntry(data, db, v, b);
        assert WriteKey(v)(k) == b;
      }
      if k :| k in Recorded(db, v) && WriteKey(v)(k) == b {
        WriteHasEntry(data, db, v, k);
      }
    }
  }

  lemma WriteEntry(data: map<Bytes, Slice>, db: Db, v: Version, b: Bytes) returns (k: Bytes)
    requires Represents(data, db) && b in WithPrefix(data, TxnWritePrefix(v))
    ensures Encode(TxnWrite(v, k)) == b && k in Recorded(db, v)
  {
    var key := EntryIsRecord(data, db, b);
    TxnWritePrefixSelects(v, key);
    k := key.rawKey;
    assert (v, k) in db.writes;
  }

  lemma WriteHasEntry(data: map<Bytes, Slice>, db: Db, v: Version, k: Bytes)
    requires Represents(data, db) && k in Recorded(db, v)
    ensures Encode(TxnWrite(v, k)) in WithPrefix(data, TxnWritePrefix(v))
  {
    assert Holds(db, TxnWrite(v, k));
    TxnWritePrefixSelects(v, TxnWrite(v, k));
  }

  lemma WriteKeyOrder(v: Version, a: Bytes, b: Bytes)
    ensures Less(Encode(TxnWrite(v, a)), Encode(TxnWrite(v, b))) <==> Less(a, b)
  {
    var h := KindPrefix(2) + EncodeVersion(v);
    assert Encode(TxnWrite(v, a)) == h + (Terminated(a) + []);
    assert Encode(TxnWrite(v, b)) == h + (Terminated(b) + []);
    LessCommonPrefix(h, Terminated(a) + [], Terminated(b) + []);
    TerminatedOrder(a, [], b, []);
  }
}
