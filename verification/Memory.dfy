/** The map-based engine (storage/memory.go), and the calls an engine can receive. */
module MemoryEngines {
  import opened ByteStrings
  import opened Ordering

  type Entry = Pair<Slice>

  datatype EngineCall = SetCall(key: Bytes, value: Slice) | DeleteCall(key: Bytes)

  function ApplyCall(data: map<Bytes, Slice>, c: EngineCall): map<Bytes, Slice> {
    match c
    case SetCall(k, v) => data[k := v]
    case DeleteCall(k) => data - {k}
  }

  ghost function ApplyCalls(data: map<Bytes, Slice>, cs: seq<EngineCall>): map<Bytes, Slice> {
    if cs == [] then data else ApplyCall(ApplyCalls(data, cs[..|cs| - 1]), cs[|cs| - 1])
  }

  ghost function InBounds<V>(m: map<Bytes, V>, lo: Option<Bytes>, hi: Option<Bytes>): map<Bytes, V> {
    map k | k in m && InRange(k, lo, hi) :: m[k]
  }

  function Reversed<T>(s: seq<T>): (r: seq<T>)
    ensures |r| == |s|
    ensures forall i :: 0 <= i < |s| ==> r[i] == s[|s| - 1 - i]
  {
    seq(|s|, i requires 0 <= i < |s| => s[|s| - 1 - i])
  }

  /** A prefix range holds the keys with that prefix. */
  lemma PrefixBounds<V>(m: map<Bytes, V>, p: Bytes)
    ensures InBounds(m, Some(p), PrefixEnd(p)) == WithPrefix(m, p)
  {
    forall k
      ensures p <= k <==> InRange(k, Some(p), PrefixEnd(p))
    {
      PrefixRange(p, k);
    }
  }

  /** `slices.SortFunc` by key, here an insertion sort. */
  method SortByKey<V>(ps: seq<Pair<V>>) returns (sorted: seq<Pair<V>>)
    requires forall i, j :: 0 <= i < j < |ps| ==> ps[i].key != ps[j].key
    ensures Ascending(Keys(sorted))
    ensures forall x :: x in sorted <==> x in ps
  {
    sorted := [];
    for n := 0 to |ps|
      invariant Ascending(Keys(sorted))
      invariant forall x :: x in sorted <==> x in ps[..n]
    {
      var before := sorted;
      var i := 0;
      while i < |sorted| && Less(sorted[i].key, ps[n].key)
        invariant 0 <= i <= |sorted|
        invariant forall j :: 0 <= j < i ==> Less(sorted[j].key, ps[n].key)
      {
        i := i + 1;
      }
      assert forall j :: 0 <= j < |sorted| ==> sorted[j].key != ps[n].key by {
        forall j | 0 <= j < |sorted|
          ensures sorted[j].key != ps[n].key
        {
          assert sorted[j] in ps[..n];
        }
      }
      sorted := sorted[..i] + [ps[n]] + sorted[i..];
      InsertAscending(before, i, ps[n]);
      assert ps[..n + 1] == ps[..n] + [ps[n]];
      assert before == before[..i] + before[i..];
    }
    assert ps[..|ps|] == ps;
  }

  lemma InsertAscending<V>(ps: seq<Pair<V>>, i: nat, p: Pair<V>)
    requires Ascending(Keys(ps)) && i <= |ps|
    requires forall j :: 0 <= j < i ==> Less(ps[j].key, p.key)
    requires i < |ps| ==> !Less(ps[i].key, p.key)
    requires forall j :: 0 <= j < |ps| ==> ps[j].key != p.key
    ensures Ascending(Keys(ps[..i] + [p] + ps[i..]))
  {
    var out := ps[..i] + [p] + ps[i..];
    forall j | i <= j < |ps|
      ensures Less(p.key, ps[j].key)
    {
      LessTotal(p.key, ps[i].key);
      if j > i {
        assert Less(Keys(ps)[i], Keys(ps)[j]);
        LessTransitive(p.key, ps[i].key, ps[j].key);
      }
    }
    forall a, b | 0 <= a < b < |out|
      ensures Less(Keys(out)[a], Keys(out)[b])
    {
      if a < i && b < i {
        assert Less(Keys(ps)[a], Keys(ps)[b]);
      } else if a < i < b {
        assert Less(Keys(ps)[a], Keys(ps)[b - 1]);
      } else if i < a {
        assert Less(Keys(ps)[a - 1], Keys(ps)[b - 1]);
      }
    }
  }

  class MemoryEngine {
    var data: map<Bytes, Slice>

    constructor ()
      ensures data == map[]
    {
      data := map[];
    }

    method Set(key: Bytes, value: Slice)
      modifies this
      ensures data == ApplyCall(old(data), SetCall(key, value))
    {
      data := data[key := value];
    }

    method Get(key: Bytes) returns (value: Slice)
      ensures value == if key in data then data[key] else Nil
    {
      if key !in data {
        return Nil;
      }
      value := data[key];
    }

    method Delete(key: Bytes)
      modifies this
      ensures data == ApplyCall(old(data), DeleteCall(key))
    {
      data := data - {key};
    }

    /** `scan`: collect, sort, and reverse if asked to. */
    method ScanRange(start: Option<Bytes>, end: Option<Bytes>, reverse: bool) returns (es: seq<Entry>)
      ensures var all := Listing(InBounds(data, start, end)); es == if reverse then Reversed(all) else all
    {
      es := Collect(data, start, end);
      if reverse {
        es := Reversed(es);
      }
    }

    method Scan(start: Option<Bytes>, end: Option<Bytes>) returns (es: seq<Entry>)
      ensures es == Listing(InBounds(data, start, end))
    {
      es := ScanRange(start, end, false);
    }

    method ScanReverse(start: Option<Bytes>, end: Option<Bytes>) returns (es: seq<Entry>)
      ensures es == Reversed(Listing(InBounds(data, start, end)))
    {
      es := ScanRange(start, end, true);
    }

    method ScanPrefix(prefix: Bytes) returns (es: seq<Entry>)
      ensures es == Listing(WithPrefix(data, prefix))
    {
      var end := ComputePrefixEnd(prefix);
      es := Scan(Some(prefix), end);
      PrefixBounds(data, prefix);
    }

    method ScanPrefixReverse(prefix: Bytes) returns (es: seq<Entry>)
      ensures es == Reversed(Listing(WithPrefix(data, prefix)))
    {
      var end := ComputePrefixEnd(prefix);
      es := ScanReverse(Some(prefix), end);
      PrefixBounds(data, prefix);
    }
  }

  /** The pairs of a map within bounds: filtered in no particular order, then sorted. */
  method Collect<V>(data: map<Bytes, V>, start: Option<Bytes>, end: Option<Bytes>) returns (es: seq<Pair<V>>)
    ensures es == Listing(InBounds(data, start, end))
  {
    var found: seq<Pair<V>> := [];
    var rest := data.Keys;
    while rest != {}
      invariant rest <= data.Keys
      invariant forall i :: 0 <= i < |found| ==>
                  found[i].key in data && found[i].key !in rest && found[i].value == data[found[i].key]
                  && InRange(found[i].key, start, end)
      invariant forall i, j :: 0 <= i < j < |found| ==> found[i].key != found[j].key
      invariant forall k :: k in data && k !in rest && InRange(k, start, end) ==> Pair(k, data[k]) in found
      decreases |rest|
    {
      var k :| k in rest;
      rest := rest - {k};
      if start.Some? && Less(k, start.value) {
        continue;
      }
      if end.Some? && !Less(k, end.value) {
        continue;
      }
      found := found + [Pair(k, data[k])];
    }
    es := SortByKey(found);
    SortedFoundIsListing(data, start, end, found, es);
  }

  lemma SortedFoundIsListing<V>(
    data: map<Bytes, V>, lo: Option<Bytes>, hi: Option<Bytes>, found: seq<Pair<V>>, es: seq<Pair<V>>)
    requires Ascending(Keys(es)) && forall x :: x in es <==> x in found
    requires forall i :: 0 <= i < |found| ==>
               found[i].key in data && found[i].value == data[found[i].key] && InRange(found[i].key, lo, hi)
    requires forall k :: k in data && InRange(k, lo, hi) ==> Pair(k, data[k]) in found
    ensures es == Listing(InBounds(data, lo, hi))
  {
    var m := InBounds(data, lo, hi);
    forall i | 0 <= i < |es|
      ensures es[i].key in m && es[i].value == m[es[i].key]
    {
      assert es[i] in found;
    }
    forall k
      ensures k in Elements(Keys(es)) <==> k in m
    {
      if k in m {
        assert Pair(k, data[k]) in es;
        var i :| 0 <= i < |es| && es[i] == Pair(k, data[k]);
        assert Keys(es)[i] == k;
      }
      if k in Elements(Keys(es)) {
        var i :| 0 <= i < |Keys(es)| && Keys(es)[i] == k;
        assert es[i].key == k;
      }
    }
    ListingUnique(es, m);
  }
}
