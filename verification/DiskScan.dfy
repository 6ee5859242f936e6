/** Scans of the disk engine: a snapshot of the index, then one log read per entry. */
module DiskScans {
  import opened ByteStrings
  import opened Ordering
  import opened DiskLogs
  import opened MemoryEngines
  import opened DiskEngines

  ghost function Ranged<V>(m: map<Bytes, V>, start: Option<Bytes>, end: Option<Bytes>, reverse: bool): seq<Pair<V>> {
    var ps := Listing(InBounds(m, start, end));
    if reverse then Reversed(ps) else ps
  }

  ghost function Filter(items: seq<Pair<Position>>, start: Option<Bytes>, end: Option<Bytes>): seq<Pair<Position>> {
    if items == [] then []
    else (if InRange(items[0].key, start, end) then [items[0]] else []) + Filter(items[1..], start, end)
  }

  lemma {:induction false} FilterConcat(
    a: seq<Pair<Position>>, b: seq<Pair<Position>>, start: Option<Bytes>, end: Option<Bytes>)
    ensures Filter(a + b, start, end) == Filter(a, start, end) + Filter(b, start, end)
  {
    if a == [] {
      assert a + b == b;
    } else {
      assert (a + b)[1..] == a[1..] + b;
      FilterConcat(a[1..], b, start, end);
    }
  }

  lemma {:induction false} FilterFacts(items: seq<Pair<Position>>, start: Option<Bytes>, end: Option<Bytes>)
    requires Ascending(Keys(items))
    ensures var out := Filter(items, start, end);
            Ascending(Keys(out)) && forall p :: p in out <==> p in items && InRange(p.key, start, end)
  {
    if items != [] {
      var rest := items[1..];
      assert Keys(rest) == Keys(items)[1..];
      AscendingTail(Keys(items));
      FilterFacts(rest, start, end);
      FirstIsBelow(items);
      PrependAscending(items[0], Filter(rest, start, end));
      assert items == [items[0]] + rest;
    }
  }

  lemma FirstIsBelow<V>(items: seq<Pair<V>>)
    requires Ascending(Keys(items)) && items != []
    ensures forall q :: q in items[1..] ==> Less(items[0].key, q.key)
  {
    forall q | q in items[1..]
      ensures Less(items[0].key, q.key)
    {
      var i :| 0 <= i < |items[1..]| && items[1..][i] == q;
      assert Less(Keys(items)[0], Keys(items)[i + 1]);
    }
  }

  lemma PrependAscending<V>(p: Pair<V>, up: seq<Pair<V>>)
    requires Ascending(Keys(up)) && forall q :: q in up ==> Less(p.key, q.key)
    ensures Ascending(Keys([p] + up))
  {
    forall i, j | 0 <= i < j < |[p] + up|
      ensures Less(Keys([p] + up)[i], Keys([p] + up)[j])
    {
      if i > 0 {
        assert Less(Keys(up)[i - 1], Keys(up)[j - 1]);
      } else {
        assert up[j - 1] in up;
      }
    }
  }

  /** Filtering the listing of an index lists the entries in the range. */
  lemma FilterIsListing(kd: Keydir, start: Option<Bytes>, end: Option<Bytes>)
    ensures Filter(Listing(kd), start, end) == Listing(InBounds(kd, start, end))
  {
    var items := Listing(kd);
    ListingFacts(kd);
    FilterFacts(items, start, end);
    var out := Filter(items, start, end);
    forall k | k in kd && InRange(k, start, end)
      ensures Pair(k, kd[k]) in out
    {
      var i := ListingIndex(kd, k);
      assert items[i] in items;
    }
    forall i | 0 <= i < |out|
      ensures out[i].key in kd && out[i].value == kd[out[i].key] && InRange(out[i].key, start, end)
    {
      assert out[i] in out && out[i] in items;
      var j :| 0 <= j < |items| && items[j] == out[i];
    }
    SortedFoundIsListing(kd, start, end, out, out);
  }

  /** The four forward ranges of `snapshotRange`. */
  method AscendRange(items: seq<Pair<Position>>, start: Option<Bytes>, end: Option<Bytes>)
    returns (out: seq<Pair<Position>>)
    ensures out == Filter(items, start, end)
  {
    out := [];
    for i := 0 to |items|
      invariant out == Filter(items[..i], start, end)
    {
      FilterLast(items, i, start, end);
      if InRange(items[i].key, start, end) {
        out := out + [items[i]];
      }
    }
    assert items[..|items|] == items;
  }

  lemma FilterLast(items: seq<Pair<Position>>, i: nat, start: Option<Bytes>, end: Option<Bytes>)
    requires i < |items|
    ensures Filter(items[..i + 1], start, end) ==
            Filter(items[..i], start, end) + (if InRange(items[i].key, start, end) then [items[i]] else [])
  {
    assert items[..i + 1] == items[..i] + [items[i]];
    FilterConcat(items[..i], [items[i]], start, end);
    assert [items[i]][1..] == [];
  }

  /** The descending walk: skip what is not below the end, stop below the start. */
  method DescendRange(items: seq<Pair<Position>>, start: Option<Bytes>, end: Option<Bytes>)
    returns (out: seq<Pair<Position>>)
    requires Ascending(Keys(items))
    ensures out == Reversed(Filter(items, start, end))
  {
    out := [];
    var i := |items|;
    while i > 0
      invariant 0 <= i <= |items|
      invariant out == Reversed(Filter(items[i..], start, end))
    {
      var item := items[i - 1];
      FilterAbove(items, i, start, end);
      if end.Some? && !Less(item.key, end.value) {
        i := i - 1;
        continue;
      }
      if start.Some? && Less(item.key, start.value) {
        NoneLeft(items, i, start.value, end);
        return;
      }
      i := i - 1;
      out := out + [item];
    }
    assert items[0..] == items;
  }

  /** One more item from the top. */
  lemma FilterAbove(items: seq<Pair<Position>>, i: nat, start: Option<Bytes>, end: Option<Bytes>)
    requires 0 < i <= |items|
    ensures var item := items[i - 1];
            Reversed(Filter(items[i - 1..], start, end)) ==
            Reversed(Filter(items[i..], start, end)) + if InRange(item.key, start, end) then [item] else []
  {
    FilterHead(items, i - 1, start, end);
  }

  lemma FilterHead(items: seq<Pair<Position>>, i: nat, start: Option<Bytes>, end: Option<Bytes>)
    requires i < |items|
    ensures Filter(items[i..], start, end) ==
            (if InRange(items[i].key, start, end) then [items[i]] else []) + Filter(items[i + 1..], start, end)
  {
    assert items[i..][0] == items[i] && items[i..][1..] == items[i + 1..];
  }

  lemma NoneLeft(items: seq<Pair<Position>>, i: nat, start: Bytes, end: Option<Bytes>)
    requires 0 < i <= |items| && Less(items[i - 1].key, start) && Ascending(Keys(items))
    ensures Filter(items, Some(start), end) == Filter(items[i..], Some(start), end)
  {
    NothingBelow(items, i, start, end);
    assert items == items[..i] + items[i..];
    FilterConcat(items[..i], items[i..], Some(start), end);
  }

  lemma NothingBelow(items: seq<Pair<Position>>, i: nat, start: Bytes, end: Option<Bytes>)
    requires 0 < i <= |items| && Less(items[i - 1].key, start) && Ascending(Keys(items))
    ensures Filter(items[..i], Some(start), end) == []
  {
    assert Keys(items[..i]) == Keys(items)[..i];
    FilterFacts(items[..i], Some(start), end);
    var out := Filter(items[..i], Some(start), end);
    assert out != [] ==> out[0] in out;
    forall p | p in items[..i]
      ensures !InRange(p.key, Some(start), end)
    {
      var j :| 0 <= j < i && items[j] == p;
      AllBelow(items, i, j, start);
    }
  }

  lemma AllBelow<V>(items: seq<Pair<V>>, i: nat, j: nat, start: Bytes)
    requires j < i <= |items| && Less(items[i - 1].key, start) && Ascending(Keys(items))
    ensures Less(items[j].key, start)
  {
    if j < i - 1 {
      assert Less(Keys(items)[j], Keys(items)[i - 1]);
      LessTransitive(items[j].key, items[i - 1].key, start);
    }
  }

  /** `snapshotRange` */
  method SnapshotRange(d: DiskEngine, start: Option<Bytes>, end: Option<Bytes>, reverse: bool)
    returns (items: seq<Pair<Position>>)
    ensures items == Ranged(d.keydir, start, end, reverse)
  {
    if start.Some? && end.Some? && !Less(start.value, end.value) {
      EmptyRange(d.keydir, start.value, end.value);
      return [];
    }
    var all := Ascend(d.keydir);
    ListingFacts(d.keydir);
    FilterIsListing(d.keydir, start, end);
    if !reverse {
      items := AscendRange(all, start, end);
    } else {
      items := DescendRange(all, start, end);
    }
  }

  lemma EmptyRange(kd: Keydir, start: Bytes, end: Bytes)
    requires !Less(start, end)
    ensures Listing(InBounds(kd, Some(start), Some(end))) == []
  {
    var m := InBounds(kd, Some(start), Some(end));
    forall k
      ensures k !in m
    {
      if k in m {
        LessTotal(start, k);
        if k != start {
          LessTransitive(start, k, end);
        }
      }
    }
    assert m == map[];
    ListingFacts(m);
  }

  // ---- Reading the snapshot back ----

  lemma RangedPointAt(
    log: Bytes, kd: Keydir, m: map<Bytes, Bytes>, start: Option<Bytes>, end: Option<Bytes>, reverse: bool)
    requires Points(log, kd, m)
    ensures AllPointAt(log, Ranged(kd, start, end, reverse), Ranged(m, start, end, reverse))
  {
    var a, b := InBounds(kd, start, end), InBounds(m, start, end);
    assert Points(log, a, b) by {
      assert a.Keys == b.Keys;
    }
    ListedPointAt(log, a, b);
  }

  lemma AllPointAtLater(log: Bytes, more: Bytes, items: seq<Pair<Position>>, ps: seq<Pair<Bytes>>)
    requires log <= more && AllPointAt(log, items, ps)
    ensures AllPointAt(more, items, ps)
  {
    forall i | 0 <= i < |items|
      ensures PointsAt(more, items[i].value, ps[i].key, ps[i].value)
    {
      PointsAtLater(log, more, items[i].value, ps[i].key, ps[i].value);
    }
  }

  /** The record an update appends. */
  function RecordOf(c: EngineCall): Record {
    match c
    case SetCall(k, v) => Put(k, v.Contents())
    case DeleteCall(k) => Tombstone(k)
  }

  /** The effect of updates on the contents; one that is too large for a record is refused. */
  ghost function Driven(m: map<Bytes, Bytes>, calls: seq<EngineCall>): map<Bytes, Bytes> {
    if calls == [] then m
    else
      var before := Driven(m, calls[..|calls| - 1]);
      if !WellFormed(RecordOf(calls[|calls| - 1])) then before
      else match calls[|calls| - 1]
        case SetCall(k, v) => before[k := v.Contents()]
        case DeleteCall(k) => before - {k}
  }

  method Drive(d: DiskEngine, calls: seq<EngineCall>)
    requires d.Valid()
    modifies d`keydir, d`records, d.log
    ensures d.Valid() && old(d.log.bytes) <= d.log.bytes
    ensures d.Contents() == Driven(old(d.Contents()), calls)
  {
    for i := 0 to |calls|
      invariant d.Valid() && old(d.log.bytes) <= d.log.bytes
      invariant d.Contents() == Driven(old(d.Contents()), calls[..i])
    {
      assert calls[..i + 1][..i] == calls[..i];
      match calls[i]
      case SetCall(k, v) => var _ := d.Set(k, v);
      case DeleteCall(k) => var _ := d.Delete(k);
    }
    assert calls[..|calls|] == calls;
  }

  /**
   `scan` with updates in between its reads: whatever is set or deleted while the results are
   consumed, they are the pairs that were there when the scan began.
   */
  method Scan(d: DiskEngine, start: Option<Bytes>, end: Option<Bytes>, reverse: bool, between: seq<seq<EngineCall>>)
    returns (es: seq<Pair<Bytes>>)
    requires d.Valid()
    modifies d`keydir, d`records, d.log
    ensures d.Valid()
    ensures es == Ranged(old(d.Contents()), start, end, reverse)
  {
    ghost var ps := Ranged(d.Contents(), start, end, reverse);
    IndexPoints(d.records);
    RangedPointAt(d.log.bytes, d.keydir, d.Contents(), start, end, reverse);
    var items := SnapshotRange(d, start, end, reverse);
    es := ReadItems(d, items, between, ps);
  }

  method ReadItems(d: DiskEngine, items: seq<Pair<Position>>, between: seq<seq<EngineCall>>, ghost ps: seq<Pair<Bytes>>)
    returns (es: seq<Pair<Bytes>>)
    requires d.Valid() && AllPointAt(d.log.bytes, items, ps)
    modifies d`keydir, d`records, d.log
    ensures d.Valid() && es == ps
  {
    es := [];
    for i := 0 to |items|
      invariant d.Valid() && AllPointAt(d.log.bytes, items, ps)
      invariant es == ps[..i]
    {
      if i < |between| {
        ghost var before := d.log.bytes;
        Drive(d, between[i]);
        AllPointAtLater(before, d.log.bytes, items, ps);
      }
      var e := ReadScanItem(d.log.bytes, items[i], ps[i]);
      es := es + [e];
    }
  }

  /** `readScanItem` */
  method ReadScanItem(log: Bytes, item: Pair<Position>, ghost p: Pair<Bytes>) returns (e: Pair<Bytes>)
    requires item.key == p.key && PointsAt(log, item.value, p.key, p.value)
    ensures e == p
  {
    ReadsBack(log, item.value, p.key, p.value);
    e := Pair(item.key, ReadLogValue(log, item.value).value);
  }

  /** A scan whose results are consumed at once. */
  method ScanNow(d: DiskEngine, start: Option<Bytes>, end: Option<Bytes>, reverse: bool) returns (es: seq<Pair<Bytes>>)
    requires d.Valid()
    ensures es == Ranged(d.Contents(), start, end, reverse)
  {
    ghost var ps := Ranged(d.Contents(), start, end, reverse);
    IndexPoints(d.records);
    RangedPointAt(d.log.bytes, d.keydir, d.Contents(), start, end, reverse);
    var items := SnapshotRange(d, start, end, reverse);
    es := ReadNow(d.log.bytes, items, ps);
  }

  method ReadNow(log: Bytes, items: seq<Pair<Position>>, ghost ps: seq<Pair<Bytes>>) returns (es: seq<Pair<Bytes>>)
    requires AllPointAt(log, items, ps)
    ensures es == ps
  {
    es := [];
    for i := 0 to |items|
      invariant es == ps[..i]
    {
      var e := ReadScanItem(log, items[i], ps[i]);
      es := es + [e];
    }
  }

  /** The keys with a prefix, in either direction. */
  method ScanPrefix(d: DiskEngine, prefix: Bytes, reverse: bool, between: seq<seq<EngineCall>>)
    returns (es: seq<Pair<Bytes>>)
    requires d.Valid()
    modifies d`keydir, d`records, d.log
    ensures d.Valid()
    ensures var ps := Listing(WithPrefix(old(d.Contents()), prefix)); es == if reverse then Reversed(ps) else ps
  {
    var end := ComputePrefixEnd(prefix);
    PrefixBounds(d.Contents(), prefix);
    es := Scan(d, Some(prefix), end, reverse, between);
  }

  // ---- Agreement with the map-based engine ----

  predicate Fits(c: EngineCall) {
    WellFormed(RecordOf(c))
  }

  ghost function Bare(data: map<Bytes, Slice>): map<Bytes, Bytes> {
    map k | k in data :: data[k].Contents()
  }

  /** After the same updates both engines hold the same map, nil and empty values being the same bytes. */
  lemma {:induction false} EnginesAgree(calls: seq<EngineCall>)
    requires forall c :: c in calls ==> Fits(c)
    ensures Driven(map[], calls) == Bare(ApplyCalls(map[], calls))
  {
    if calls != [] {
      var init, c := calls[..|calls| - 1], calls[|calls| - 1];
      EnginesAgree(init);
      assert Fits(c);
    }
  }

  /** Get agrees on a key exactly when the map-based engine does not hold it with a nil value. */
  lemma GetAgreesUnlessNil(calls: seq<EngineCall>, k: Bytes)
    requires forall c :: c in calls ==> Fits(c)
    ensures var data, m := ApplyCalls(map[], calls), Driven(map[], calls);
            (if k in data then data[k] else Nil) == (if k in m then Slice(m[k]) else Nil) <==>
              !(k in data && data[k] == Nil)
  {
    EnginesAgree(calls);
  }

  lemma RangedBare(data: map<Bytes, Slice>, start: Option<Bytes>, end: Option<Bytes>, reverse: bool)
    ensures var a, b := Ranged(data, start, end, reverse), Ranged(Bare(data), start, end, reverse);
            |a| == |b| && forall i :: 0 <= i < |a| ==> a[i].key == b[i].key && a[i].value.Contents() == b[i].value
  {
    ListingKeys(InBounds(data, start, end), InBounds(Bare(data), start, end));
  }

  /** Every scan visits the same keys with the same bytes in the same order. */
  lemma ScansAgree(calls: seq<EngineCall>, start: Option<Bytes>, end: Option<Bytes>, reverse: bool)
    requires forall c :: c in calls ==> Fits(c)
    ensures var a := Ranged(ApplyCalls(map[], calls), start, end, reverse);
            var b := Ranged(Driven(map[], calls), start, end, reverse);
            |a| == |b| && forall i :: 0 <= i < |a| ==> a[i].key == b[i].key && a[i].value.Contents() == b[i].value
  {
    EnginesAgree(calls);
    RangedBare(ApplyCalls(map[], calls), start, end, reverse);
  }
}
