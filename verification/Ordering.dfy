/** Ascending listings of byte-string keys. */
module Ordering {
  import opened ByteStrings

  ghost predicate Ascending(ks: seq<Bytes>) {
    forall i, j :: 0 <= i < j < |ks| ==> Less(ks[i], ks[j])
  }

  ghost function Elements(ks: seq<Bytes>): set<Bytes> {
    set k | k in ks
  }

  lemma {:induction false} LeastExists(s: set<Bytes>)
    requires s != {}
    ensures exists k :: k in s && forall j :: j in s ==> !Less(j, k)
  {
    var x :| x in s;
    LessIrreflexive(x);
    if s != {x} {
      var rest := s - {x};
      LeastExists(rest);
      var k :| k in rest && forall j :: j in rest ==> !Less(j, k);
      LessTotal(x, k);
      var m := if Less(x, k) then x else k;
      forall j | j in s
        ensures !Less(j, m)
      {
        if j != x && m == x && Less(j, x) {
          LessTransitive(j, x, k);
        }
      }
    }
  }

  ghost function Least(s: set<Bytes>): (k: Bytes)
    requires s != {}
    ensures k in s && forall j :: j in s ==> !Less(j, k)
  {
    LeastExists(s);
    var k :| k in s && forall j :: j in s ==> !Less(j, k);
    k
  }

  /** The elements of a set in ascending order. */
  ghost function Sorted(s: set<Bytes>): (ks: seq<Bytes>)
    ensures |ks| == |s|
  {
    if s == {} then [] else [Least(s)] + Sorted(s - {Least(s)})
  }

  lemma LeastFirst(k: Bytes, rest: seq<Bytes>)
    requires Ascending(rest) && forall y :: y in rest ==> Less(k, y)
    ensures Ascending([k] + rest) && Elements([k] + rest) == Elements(rest) + {k}
  {
    var all := [k] + rest;
    forall i, j | 0 <= i < j < |all|
      ensures Less(all[i], all[j])
    {
      assert all[j] == rest[j - 1] && rest[j - 1] in rest;
    }
    assert forall x :: x in all <==> x == k || x in rest;
  }

  lemma {:induction false} SortedIsListing(s: set<Bytes>)
    ensures Elements(Sorted(s)) == s
    ensures Ascending(Sorted(s))
  {
    if s != {} {
      var k := Least(s);
      var rest := Sorted(s - {k});
      SortedIsListing(s - {k});
      forall y | y in rest
        ensures Less(k, y)
      {
        assert y in Elements(rest);
        LessTotal(k, y);
      }
      LeastFirst(k, rest);
    }
  }

  /** An ascending listing is determined by its elements. */
  lemma {:induction false} AscendingUnique(a: seq<Bytes>, b: seq<Bytes>)
    requires Ascending(a) && Ascending(b) && Elements(a) == Elements(b)
    ensures a == b
  {
    assert b != [] ==> b[0] in Elements(b);
    if a != [] {
      assert a[0] in Elements(a) && a[0] in b;
      assert b[0] in a;
      var i :| 0 <= i < |a| && a[i] == b[0];
      var j :| 0 <= j < |b| && b[j] == a[0];
      LessTotal(a[0], b[0]);
      LessIrreflexive(a[0]);
      assert a[0] == b[0];
      AscendingTail(a);
      AscendingTail(b);
      AscendingUnique(a[1..], b[1..]);
      assert a == [a[0]] + a[1..] && b == [b[0]] + b[1..];
    }
  }

  lemma AscendingTail(a: seq<Bytes>)
    requires Ascending(a) && a != []
    ensures Ascending(a[1..])
    ensures Elements(a[1..]) == Elements(a) - {a[0]}
  {
    forall x
      ensures x in Elements(a[1..]) <==> x in Elements(a) && x != a[0]
    {
      if x in a[1..] {
        var i :| 0 <= i < |a[1..]| && a[1..][i] == x;
        assert a[i + 1] == x && Less(a[0], a[i + 1]);
        LessIrreflexive(x);
      }
      if x in a && x != a[0] {
        var i :| 0 <= i < |a| && a[i] == x;
        assert a[1..][i - 1] == x;
      }
    }
  }

  /** A listing in ascending order is the sorted listing of its elements. */
  lemma SortedUnique(a: seq<Bytes>, s: set<Bytes>)
    requires Ascending(a) && Elements(a) == s
    ensures a == Sorted(s)
  {
    SortedIsListing(s);
    AscendingUnique(a, Sorted(s));
  }

  /** A key-value pair, as the scans return them. */
  datatype Pair<+V> = Pair(key: Bytes, value: V)

  ghost function Keys<V>(ps: seq<Pair<V>>): (ks: seq<Bytes>)
    ensures |ks| == |ps|
    ensures forall i :: 0 <= i < |ps| ==> ks[i] == ps[i].key
  {
    seq(|ps|, i requires 0 <= i < |ps| => ps[i].key)
  }

  /** The pairs of m at the keys ks, in that order. */
  ghost function PairsAt<V>(ks: seq<Bytes>, m: map<Bytes, V>): (ps: seq<Pair<V>>)
    requires forall k :: k in ks ==> k in m
    ensures |ps| == |ks|
    ensures forall i :: 0 <= i < |ks| ==> ps[i] == Pair(ks[i], m[ks[i]])
  {
    seq(|ks|, i requires 0 <= i < |ks| => Pair(ks[i], m[ks[i]]))
  }

  ghost function Listing<V>(m: map<Bytes, V>): seq<Pair<V>> {
    SortedIsListing(m.Keys);
    assert forall k :: k in Sorted(m.Keys) ==> k in Elements(Sorted(m.Keys));
    PairsAt(Sorted(m.Keys), m)
  }

  lemma ListingFacts<V>(m: map<Bytes, V>)
    ensures |Listing(m)| == |m|
    ensures forall i :: 0 <= i < |Listing(m)| ==> Listing(m)[i].key in m && Listing(m)[i].value == m[Listing(m)[i].key]
    ensures forall i, j :: 0 <= i < j < |Listing(m)| ==> Less(Listing(m)[i].key, Listing(m)[j].key)
    ensures Ascending(Keys(Listing(m))) && Elements(Keys(Listing(m))) == m.Keys
  {
    SortedIsListing(m.Keys);
    assert Keys(Listing(m)) == Sorted(m.Keys);
    forall i | 0 <= i < |Listing(m)|
      ensures Listing(m)[i].key in m
    {
      assert Sorted(m.Keys)[i] in Elements(Sorted(m.Keys));
    }
  }

  lemma ListingIndex<V>(m: map<Bytes, V>, k: Bytes) returns (i: nat)
    requires k in m
    ensures i < |Listing(m)| && Listing(m)[i] == Pair(k, m[k])
  {
    ListingFacts(m);
    assert k in Elements(Keys(Listing(m)));
    i :| 0 <= i < |Keys(Listing(m))| && Keys(Listing(m))[i] == k;
  }

  /** Maps with the same keys list them in the same order. */
  lemma ListingKeys<U, V>(a: map<Bytes, U>, b: map<Bytes, V>)
    requires a.Keys == b.Keys
    ensures |Listing(a)| == |Listing(b)|
    ensures forall i :: 0 <= i < |Listing(a)| ==> Listing(a)[i].key == Listing(b)[i].key && Listing(a)[i].key in a
    ensures forall i :: 0 <= i < |Listing(a)| ==>
            Listing(a)[i].value == a[Listing(a)[i].key] && Listing(b)[i].value == b[Listing(a)[i].key]
  {
    SortedIsListing(a.Keys);
    var ks := Sorted(a.Keys);
    assert forall i :: 0 <= i < |ks| ==> ks[i] in Elements(ks);
  }

  lemma ListingHead<V>(m: map<Bytes, V>)
    requires m != map[]
    ensures var k := Least(m.Keys); Listing(m) == [Pair(k, m[k])] + Listing(m - {k})
  {
    var k := Least(m.Keys);
    var rest := m - {k};
    assert rest.Keys == m.Keys - {k};
    var ks, js := Sorted(m.Keys), Sorted(rest.Keys);
    assert ks == [k] + js;
    SortedIsListing(m.Keys);
    SortedIsListing(rest.Keys);
    var a, b := Listing(m), [Pair(k, m[k])] + Listing(rest);
    forall i | 0 <= i < |a|
      ensures a[i] == b[i]
    {
      assert ks[i] in Elements(ks) && (i > 0 ==> js[i - 1] in Elements(js));
    }
  }

  /** Pairs in ascending key order that agree with a map are the listing of that map. */
  lemma ListingUnique<V>(ps: seq<Pair<V>>, m: map<Bytes, V>)
    requires Ascending(Keys(ps)) && Elements(Keys(ps)) == m.Keys
    requires forall i :: 0 <= i < |ps| ==> ps[i].key in m && ps[i].value == m[ps[i].key]
    ensures ps == Listing(m)
  {
    SortedUnique(Keys(ps), m.Keys);
  }

  /** The part of m whose keys start with p. */
  ghost function WithPrefix<V>(m: map<Bytes, V>, p: Bytes): map<Bytes, V> {
    map k | k in m && p <= k :: m[k]
  }

  /** An order-preserving encoding lists the encoded keys in the order of the keys. */
  lemma SortedImage(keys: seq<Bytes>, ks: set<Bytes>, enc: Bytes -> Bytes)
    requires Ascending(keys)
    requires forall b :: b in Elements(keys) <==> exists k :: k in ks && enc(k) == b
    requires forall j, k :: Less(j, k) ==> Less(enc(j), enc(k))
    ensures |keys| == |Sorted(ks)| && forall i :: 0 <= i < |keys| ==> keys[i] == enc(Sorted(ks)[i])
  {
    var sorted := Sorted(ks);
    var image := seq(|sorted|, i requires 0 <= i < |sorted| => enc(sorted[i]));
    SortedIsListing(ks);
    forall b
      ensures b in Elements(image) <==> b in Elements(keys)
    {
      if b in Elements(image) {
        var i :| 0 <= i < |image| && image[i] == b;
        assert sorted[i] in Elements(sorted) && enc(sorted[i]) == b;
      }
      if b in Elements(keys) {
        var k :| k in ks && enc(k) == b;
        assert k in Elements(sorted);
        var i :| 0 <= i < |sorted| && sorted[i] == k;
        assert image[i] == b;
      }
    }
    AscendingUnique(keys, image);
  }
}
