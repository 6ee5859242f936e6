/** The log compaction leaves behind: one record for each live key. */
module Compaction {
  import opened ByteStrings
  import opened Ordering
  import opened DiskLogs

  ghost function Puts(ps: seq<Pair<Bytes>>): (rs: seq<Record>)
    ensures |rs| == |ps|
    ensures forall i :: 0 <= i < |ps| ==> rs[i] == Put(ps[i].key, ps[i].value)
  {
    seq(|ps|, i requires 0 <= i < |ps| => Put(ps[i].key, ps[i].value))
  }

  /** Replaying one put for each key of a map gives the map. */
  lemma ReplayPuts(m: map<Bytes, Bytes>)
    ensures Replay(Puts(Listing(m))) == m
  {
    var ps := Listing(m);
    ListingFacts(m);
    ReplaySome(ps, m, |ps|);
    assert ps[..|ps|] == ps;
    forall k | k in m
      ensures k in Replay(Puts(ps))
    {
      var i := ListingIndex(m, k);
      assert ps[i] in ps[..|ps|];
    }
  }

  lemma {:induction false} ReplaySome(ps: seq<Pair<Bytes>>, m: map<Bytes, Bytes>, n: nat)
    requires n <= |ps| && forall i :: 0 <= i < |ps| ==> ps[i].key in m && ps[i].value == m[ps[i].key]
    ensures forall k :: k in Replay(Puts(ps[..n])) ==> k in m && Replay(Puts(ps[..n]))[k] == m[k]
    ensures forall p :: p in ps[..n] ==> p.key in Replay(Puts(ps[..n]))
  {
    if n != 0 {
      ReplaySome(ps, m, n - 1);
      var p := ps[n - 1];
      assert ps[..n] == ps[..n - 1] + [p];
      assert Puts(ps[..n]) == Puts(ps[..n - 1]) + [Put(p.key, p.value)];
      IndexSnoc(Puts(ps[..n - 1]), Put(p.key, p.value));
    }
  }

  // ---- Sizes ----

  /** The bytes one put for each key of m takes. */
  ghost function Weight(m: map<Bytes, Bytes>): nat
    decreases |m|
  {
    if m == map[] then 0
    else
      var k := Least(m.Keys);
      assert |m - {k}| < |m| by { Shrinks(m, k); }
      EntrySize(Put(k, m[k])) + Weight(m - {k})
  }

  lemma Shrinks(m: map<Bytes, Bytes>, k: Bytes)
    requires k in m
    ensures |m - {k}| < |m|
  {
    assert (m - {k}).Keys == m.Keys - {k};
    assert |m - {k}| == |(m - {k}).Keys| && |m| == |m.Keys|;
  }

  lemma {:induction false} WeightRemove(m: map<Bytes, Bytes>, k: Bytes)
    requires k in m
    ensures Weight(m) == EntrySize(Put(k, m[k])) + Weight(m - {k})
    decreases |m|
  {
    var l := Least(m.Keys);
    if k != l {
      Shrinks(m, l);
      WeightRemove(m - {l}, k);
      var rest := m - {k};
      assert rest.Keys == m.Keys - {k};
      assert Least(rest.Keys) == l by {
        LessTotal(l, Least(rest.Keys));
      }
      assert rest - {l} == (m - {l}) - {k};
    }
  }

  lemma WeightUpdate(m: map<Bytes, Bytes>, k: Bytes, value: Bytes)
    ensures Weight(m[k := value]) <= Weight(m) + EntrySize(Put(k, value))
    ensures Weight(m - {k}) <= Weight(m)
  {
    WeightRemove(m[k := value], k);
    assert m[k := value] - {k} == m - {k};
    if k in m {
      WeightRemove(m, k);
    } else {
      assert m - {k} == m;
    }
  }

  /** The live records fit in the log that holds them. */
  lemma {:induction false} WeightOfReplay(rs: seq<Record>)
    ensures Weight(Replay(rs)) <= |EncodeAll(rs)|
  {
    if rs != [] {
      var init, r := rs[..|rs| - 1], rs[|rs| - 1];
      assert rs == init + [r];
      WeightOfReplay(init);
      IndexSnoc(init, r);
      WeightUpdate(Replay(init), r.key, Stored(r));
    }
  }

  lemma {:induction false} WeightOfPuts(m: map<Bytes, Bytes>)
    ensures |EncodeAll(Puts(Listing(m)))| == Weight(m)
    decreases |m|
  {
    if m != map[] {
      var k := Least(m.Keys);
      var rest := m - {k};
      Shrinks(m, k);
      WeightOfPuts(rest);
      ListingHead(m);
      EncodePutsHead(Pair(k, m[k]), Listing(rest));
    }
  }

  lemma EncodePutsHead(p: Pair<Bytes>, ps: seq<Pair<Bytes>>)
    ensures |EncodeAll(Puts([p] + ps))| == EntrySize(Put(p.key, p.value)) + |EncodeAll(Puts(ps))|
  {
    assert Puts([p] + ps) == [Put(p.key, p.value)] + Puts(ps);
    EncodeAllConcat([Put(p.key, p.value)], Puts(ps));
    EncodeOne(Put(p.key, p.value));
  }
}
