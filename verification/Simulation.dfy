/** The protocol gives its callers snapshot isolation, through crashes and restarts. */
module MvccSimulation {
  import opened ByteStrings
  import opened Ordering
  import opened MvccProtocol
  import opened SnapshotIsolation

  // ---- The relation between the engine and the specification ----

  ghost predicate FromHist(p: Spec, k: Bytes, v: nat) {
    exists i :: 0 <= i < |p.hist| && p.hist[i].version == v && k in p.hist[i].writes
  }

  ghost predicate FromOpen(p: Spec, k: Bytes, v: nat) {
    v in p.open && k in p.open[v].own
  }

  /** The stored versions are the writes of the committed and of the open transactions. */
  ghost predicate Stored(db: Db, p: Spec) {
    && (forall kv :: kv in db.versions ==> FromHist(p, kv.0, kv.1) || FromOpen(p, kv.0, kv.1))
    && (forall v, k :: FromOpen(p, k, v) ==> (k, v) in db.versions && db.versions[(k, v)] == p.open[v].own[k])
    && (forall i, k :: 0 <= i < |p.hist| && k in p.hist[i].writes ==>
          (k, p.hist[i].version) in db.versions && db.versions[(k, p.hist[i].version)] == p.hist[i].writes[k])
  }

  /** First updater wins: of two writers of a key, one committed before the other began. */
  ghost predicate Exclusive(p: Spec) {
    && (forall i, j, k :: 0 <= i < j < |p.hist| && k in p.hist[i].writes && k in p.hist[j].writes ==>
          i < p.hist[j].start && p.hist[i].version < p.hist[j].version)
    && (forall i, v, k :: 0 <= i < |p.hist| && k in p.hist[i].writes && FromOpen(p, k, v) ==>
          i < p.open[v].start && p.hist[i].version < v)
    && (forall u, v, k :: FromOpen(p, k, u) && FromOpen(p, k, v) ==> u == v)
  }

  ghost predicate Marks(db: Db, p: Spec) {
    && db.next == p.next
    && db.active == p.open.Keys
    && (forall vk :: vk in db.writes ==> vk.0 in p.open)
  }

  ghost predicate Durable(db: Db, p: Spec) {
    Numbered(p) && Stored(db, p) && Exclusive(p) && Marks(db, p)
  }

  /** A handle sees exactly the commits before its start, and no other open transaction. */
  ghost predicate Snapshot(t: Txn, v: nat, p: Spec)
    requires v in p.open
  {
    && t.version == v
    && (forall i :: 0 <= i < |p.hist| ==> (t.Sees(p.hist[i].version) <==> i < p.open[v].start))
    && (forall u :: u in p.open ==> (t.Sees(u) <==> u == v))
  }

  ghost predicate Handles(s: State, p: Spec)
    requires Numbered(p)
  {
    && s.live.Keys == p.live
    && (forall v :: v in s.live ==> Snapshot(s.live[v], v, p))
    && (forall v :: v in s.live ==> Recorded(s.db, v) == p.open[v].own.Keys)
  }

  ghost predicate Simulates(s: State, p: Spec) {
    Durable(s.db, p) && Handles(s, p)
  }

  // ---- The conflict check ----

  /** Looking at the newest version in the window only, the check misses no invisible version. */
  lemma ConflictIsExact(s: State, p: Spec, v: nat, k: Bytes)
    requires Simulates(s, p) && v in s.live
    ensures Conflict(s.db, s.live[v], k) <==> exists u :: (k, u) in s.db.versions && !s.live[v].Sees(u)
  {
    var t := s.live[v];
    if exists u :: (k, u) in s.db.versions && !t.Sees(u) {
      var u :| (k, u) in s.db.versions && !t.Sees(u);
      assert t.InWindow(u);
      var w := NewestWindowVersion(s.db, t, k, u);
      if t.Sees(w) {
        assert (k, w).0 == k && (k, u).1 == u;
        VisibleAbove(s, p, v, k, u, w);
      }
    }
  }

  lemma {:induction false} NewestWindowVersion(db: Db, t: Txn, k: Bytes, u: nat) returns (w: nat)
    requires (k, u) in db.versions && t.InWindow(u)
    ensures NewestInWindow(db, t, k, w)
    decreases |set kv | kv in db.versions && kv.1 > u|
  {
    w := u;
    if x :| (k, x) in db.versions && t.InWindow(x) && x > u {
      var above := set kv | kv in db.versions && kv.1 > u;
      var less := set kv | kv in db.versions && kv.1 > x;
      assert less <= above && (k, x) in above && (k, x) !in less;
      SmallerSet(less, above);
      w := NewestWindowVersion(db, t, k, x);
    }
  }

  lemma SmallerSet<T>(a: set<T>, b: set<T>)
    requires a < b
    ensures |a| < |b|
  {
    assert a + (b - a) == b && a !! b - a;
    assert !(b <= a);
    assert b - a != {};
  }

  /** No version below a visible version of the same key is invisible. */
  lemma VisibleAbove(s: State, p: Spec, v: nat, k: Bytes, u: nat, w: nat)
    requires Simulates(s, p) && v in s.live
    requires (k, u) in s.db.versions && (k, w) in s.db.versions
    requires u <= w && s.live[v].Sees(w)
    ensures s.live[v].Sees(u)
  {
    var t := s.live[v];
    assert FromHist(p, (k, u).0, (k, u).1) || FromOpen(p, (k, u).0, (k, u).1);
    assert FromHist(p, (k, w).0, (k, w).1) || FromOpen(p, (k, w).0, (k, w).1);
    if FromHist(p, k, u) {
      var i :| 0 <= i < |p.hist| && p.hist[i].version == u && k in p.hist[i].writes;
      if FromHist(p, k, w) {
        var j :| 0 <= j < |p.hist| && p.hist[j].version == w && k in p.hist[j].writes;
        assert j < p.open[v].start;
      } else {
        assert w == v;
      }
    }
  }

  lemma ConflictMatches(s: State, p: Spec, v: nat, k: Bytes)
    requires Simulates(s, p) && v in s.live
    ensures Conflict(s.db, s.live[v], k) <==> SpecConflict(p, v, k)
  {
    ConflictIsExact(s, p, v, k);
    var t := s.live[v];
    if u :| (k, u) in s.db.versions && !t.Sees(u) {
      assert FromHist(p, (k, u).0, (k, u).1) || FromOpen(p, (k, u).0, (k, u).1);
      if !FromOpen(p, k, u) {
        var i :| 0 <= i < |p.hist| && p.hist[i].version == u && k in p.hist[i].writes;
        assert p.open[v].start <= i;
      }
    }
    if u :| u in p.open && u != v && k in p.open[u].own {
      assert FromOpen(p, k, u);
      assert (k, u) in s.db.versions && !t.Sees(u);
    }
    if i :| p.open[v].start <= i < |p.hist| && k in p.hist[i].writes {
      assert (k, p.hist[i].version) in s.db.versions && !t.Sees(p.hist[i].version);
    }
  }

  // ---- Reads ----

  /** The value of k after a history: the last write of it. */
  lemma {:induction false} StateAfterLookup(h: seq<Committed>, k: Bytes) returns (i: int)
    ensures -1 <= i < |h|
    ensures i >= 0 ==> k in h[i].writes && Lookup(StateAfter(h), k) == h[i].writes[k]
    ensures i < 0 ==> k !in StateAfter(h)
    ensures forall j :: i < j < |h| ==> k !in h[j].writes
  {
    if h == [] {
      i := -1;
    } else if k in h[|h| - 1].writes {
      i := |h| - 1;
    } else {
      i := StateAfterLookup(h[..|h| - 1], k);
    }
  }

  lemma ReadMatches(s: State, p: Spec, v: nat, k: Bytes)
    requires Simulates(s, p) && v in s.live
    ensures Get(s.db, s.live[v], k) == Lookup(SpecView(p, v), k)
  {
    if k in p.open[v].own {
      assert FromOpen(p, k, v);
      ReadNewest(s.db, s.live[v], k, v, v);
    } else {
      ReadSnapshot(s.db, s.live[v], p, v, k);
    }
  }

  /** A key the transaction has not written reads as the commits before it began left it. */
  lemma ReadSnapshot(db: Db, t: Txn, p: Spec, v: nat, k: Bytes)
    requires Numbered(p) && Stored(db, p) && Exclusive(p)
    requires v in p.open && Snapshot(t, v, p) && k !in p.open[v].own
    ensures Get(db, t, k) == Lookup(StateAfter(p.hist[..p.open[v].start]), k)
  {
    var h := p.hist[..p.open[v].start];
    var i := StateAfterLookup(h, k);
    assert forall j :: i < j < p.open[v].start ==> h[j] == p.hist[j];
    forall u | (k, u) in db.versions && t.Sees(u)
      ensures i >= 0 && u <= p.hist[i].version
    {
      assert FromHist(p, (k, u).0, (k, u).1) || FromOpen(p, (k, u).0, (k, u).1);
      SeenIsOlder(t, p, v, k, u, i);
    }
    if i >= 0 {
      ReadNewest(db, t, k, p.hist[i].version, v);
    } else {
      ReadNothing(db, t, k, v);
    }
  }

  /** A seen version of k is no newer than the last write of k in the snapshot. */
  lemma SeenIsOlder(t: Txn, p: Spec, v: nat, k: Bytes, u: nat, i: int)
    requires Exclusive(p) && v in p.open && Snapshot(t, v, p) && k !in p.open[v].own
    requires FromHist(p, k, u) || FromOpen(p, k, u)
    requires -1 <= i < p.open[v].start <= |p.hist| && (i >= 0 ==> k in p.hist[i].writes)
    requires forall j :: i < j < p.open[v].start ==> k !in p.hist[j].writes
    ensures t.Sees(u) ==> i >= 0 && u <= p.hist[i].version
  {
    if t.Sees(u) {
      assert FromHist(p, k, u);
      var j :| 0 <= j < |p.hist| && p.hist[j].version == u && k in p.hist[j].writes;
      assert j < p.open[v].start;
    }
  }

  lemma ViewMatches(s: State, p: Spec, v: nat)
    requires Simulates(s, p) && v in s.live
    ensures View(s.db, s.live[v]) == SpecView(p, v)
  {
    forall k
      ensures Lookup(View(s.db, s.live[v]), k) == Lookup(SpecView(p, v), k)
    {
      ReadMatches(s, p, v, k);
      ViewIsGet(s.db, s.live[v], k);
    }
    SameLookups(View(s.db, s.live[v]), SpecView(p, v));
  }

  lemma SameLookups(a: map<Bytes, Bytes>, b: map<Bytes, Bytes>)
    requires forall k :: Lookup(a, k) == Lookup(b, k)
    ensures a == b
  {
    assert forall k :: k in a ==> Lookup(a, k) == Lookup(b, k);
    assert forall k :: k in b ==> Lookup(a, k) == Lookup(b, k);
  }

  lemma AnswerMatches(s: State, p: Spec, op: Op)
    requires Simulates(s, p)
    ensures Answer(s, op) == SpecAnswer(p, op)
  {
    match op
    case Do(Write(v, k, _)) => if v in s.live { ConflictMatches(s, p, v, k); }
    case Read(v, k) => if v in s.live { ReadMatches(s, p, v, k); }
    case Scan(v, q) => if v in s.live { ViewMatches(s, p, v); }
    case _ =>
  }

  // ---- Updates, one engine state at a time ----

  lemma NextDurable(db: Db, p: Spec)
    requires Durable(db, p)
    ensures Durable(db.(next := db.next + 1), p.(next := p.next + 1))
  {
    SameWrites(db, db.(next := db.next + 1), p, p.(next := p.next + 1));
  }

  lemma BeginDurable(db: Db, p: Spec)
    requires Durable(db, p)
    ensures Durable(db.(next := db.next + 1, active := db.active + {db.next}), SpecBegin(p))
  {
    var e, q := db.(next := db.next + 1, active := db.active + {db.next}), SpecBegin(p);
    assert forall k, v :: FromOpen(q, k, v) <==> FromOpen(p, k, v);
    SameWrites(db, e, p, q);
    BeginNumbered(p);
    assert Marks(e, q);
  }

  lemma BeginNumbered(p: Spec)
    requires Numbered(p)
    ensures Numbered(SpecBegin(p))
  {
  }

  /** The stored versions and their exclusiveness depend only on who wrote what. */
  lemma SameWrites(db: Db, e: Db, p: Spec, q: Spec)
    requires Stored(db, p) && Exclusive(p)
    requires db.versions == e.versions && p.hist == q.hist
    requires forall k, v :: FromOpen(q, k, v) <==> FromOpen(p, k, v)
    requires forall v :: v in p.open && v in q.open ==> p.open[v] == q.open[v]
    ensures Stored(e, q) && Exclusive(q)
  {
    assert forall k, v :: FromHist(q, k, v) <==> FromHist(p, k, v);
  }

  lemma WriteDurable(db: Db, p: Spec, t: Txn, v: nat, k: Bytes, value: Value)
    requires Durable(db, p) && v in p.open && Snapshot(t, v, p)
    requires !SpecConflict(p, v, k)
    ensures Durable(db.(writes := db.writes + {(v, k)}, versions := db.versions[(k, v) := value]),
            SpecWrite(p, v, k, value))
  {
    WriteExclusive(p, t, v, k, value);
    WriteStored(db, p, v, k, value);
  }

  lemma WriteStored(db: Db, p: Spec, v: nat, k: Bytes, value: Value)
    requires Numbered(p) && Stored(db, p) && v in p.open
    ensures Stored(db.(writes := db.writes + {(v, k)}, versions := db.versions[(k, v) := value]),
            SpecWrite(p, v, k, value))
  {
    var q := SpecWrite(p, v, k, value);
    var e := db.(writes := db.writes + {(v, k)}, versions := db.versions[(k, v) := value]);
    forall kv | kv in e.versions
      ensures FromHist(q, kv.0, kv.1) || FromOpen(q, kv.0, kv.1)
    {
      if kv != (k, v) {
        assert FromHist(p, kv.0, kv.1) || FromOpen(p, kv.0, kv.1);
        assert FromHist(p, kv.0, kv.1) ==> FromHist(q, kv.0, kv.1);
      }
    }
    forall u: nat, j | FromOpen(q, j, u)
      ensures (j, u) in e.versions && e.versions[(j, u)] == q.open[u].own[j]
    {
      assert (j == k && u == v) || FromOpen(p, j, u);
    }
    forall i, j | 0 <= i < |q.hist| && j in q.hist[i].writes
      ensures (j, q.hist[i].version) in e.versions && e.versions[(j, q.hist[i].version)] == q.hist[i].writes[j]
    {
      assert p.hist[i].version !in p.open;
    }
  }

  lemma WriteExclusive(p: Spec, t: Txn, v: nat, k: Bytes, value: Value)
    requires Numbered(p) && Exclusive(p) && v in p.open && Snapshot(t, v, p)
    requires !SpecConflict(p, v, k)
    ensures Exclusive(SpecWrite(p, v, k, value))
  {
    var q := SpecWrite(p, v, k, value);
    assert forall j, u :: FromOpen(q, j, u) <==> FromOpen(p, j, u) || (j == k && u == v);
    forall i, u, j | 0 <= i < |q.hist| && j in q.hist[i].writes && FromOpen(q, j, u)
      ensures i < q.open[u].start && q.hist[i].version < u
    {
      if j == k && u == v {
        assert t.Sees(p.hist[i].version) && p.hist[i].version !in p.open;
      } else {
        assert FromOpen(p, j, u);
      }
    }
  }

  /** Durability does not depend on the write records, so long as they belong to open transactions. */
  lemma RecordsDurable(db: Db, p: Spec, writes: set<(nat, Bytes)>)
    requires Durable(db, p) && forall vk :: vk in writes ==> vk.0 in p.open
    ensures Durable(db.(writes := writes), p)
  {
  }

  lemma CommitDurable(db: Db, p: Spec, v: nat)
    requires Durable(db, p) && v in p.open
    requires forall vk :: vk in db.writes ==> vk.0 != v
    ensures Durable(db.(active := db.active - {v}), SpecCommit(p, v))
  {
    CommitNumbered(p, v);
    CommitStored(db, p, v);
    CommitExclusive(p, v);
  }

  lemma CommitStored(db: Db, p: Spec, v: nat)
    requires Stored(db, p) && v in p.open
    ensures Stored(db.(active := db.active - {v}), SpecCommit(p, v))
  {
    var q := SpecCommit(p, v);
    var n := |p.hist|;
    assert forall i :: 0 <= i < n ==> q.hist[i] == p.hist[i];
    assert q.hist[n].writes == p.open[v].own && q.hist[n].version == v;
    forall kv | kv in db.versions
      ensures FromHist(q, kv.0, kv.1) || FromOpen(q, kv.0, kv.1)
    {
      if FromHist(p, kv.0, kv.1) {
        var i :| 0 <= i < n && p.hist[i].version == kv.1 && kv.0 in p.hist[i].writes;
        assert q.hist[i].version == kv.1 && kv.0 in q.hist[i].writes;
      }
    }
    forall u, k | FromOpen(q, k, u)
      ensures (k, u) in db.versions && db.versions[(k, u)] == q.open[u].own[k]
    {
      assert FromOpen(p, k, u);
    }
    forall i, k | 0 <= i < |q.hist| && k in q.hist[i].writes
      ensures (k, q.hist[i].version) in db.versions && db.versions[(k, q.hist[i].version)] == q.hist[i].writes[k]
    {
      if i == n {
        assert FromOpen(p, k, v);
      } else {
        assert k in p.hist[i].writes;
      }
    }
  }

  lemma CommitExclusive(p: Spec, v: nat)
    requires Numbered(p) && Exclusive(p) && v in p.open
    ensures Exclusive(SpecCommit(p, v))
  {
    var q := SpecCommit(p, v);
    var n := |p.hist|;
    assert forall i :: 0 <= i < n ==> q.hist[i] == p.hist[i];
    assert forall k, u :: FromOpen(q, k, u) <==> FromOpen(p, k, u) && u != v;
    assert forall k :: k in q.hist[n].writes <==> FromOpen(p, k, v);
  }

  lemma ForgetDurable(db: Db, p: Spec, v: nat, ks: seq<Bytes>)
    requires Durable(db, p) && v in p.open
    ensures Durable(Undone(db, v, ks), SpecForget(p, v, Elements(ks)))
  {
    ForgetStored(db, p, v, ks);
    ForgetExclusive(p, v, ks);
  }

  lemma ForgetExclusive(p: Spec, v: nat, ks: seq<Bytes>)
    requires Exclusive(p) && v in p.open
    ensures Exclusive(SpecForget(p, v, Elements(ks)))
  {
    var q := SpecForget(p, v, Elements(ks));
    assert forall k, u :: FromOpen(q, k, u) ==> FromOpen(p, k, u);
  }

  lemma ForgetStored(db: Db, p: Spec, v: nat, ks: seq<Bytes>)
    requires Numbered(p) && Stored(db, p) && v in p.open
    ensures Stored(Undone(db, v, ks), SpecForget(p, v, Elements(ks)))
  {
    var q := SpecForget(p, v, Elements(ks));
    var e := Undone(db, v, ks);
    assert forall k, u :: FromOpen(q, k, u) <==> FromOpen(p, k, u) && !(u == v && k in ks);
    assert forall k, u :: FromHist(q, k, u) <==> FromHist(p, k, u);
    forall i, k | 0 <= i < |q.hist| && k in q.hist[i].writes
      ensures (k, q.hist[i].version) in e.versions && e.versions[(k, q.hist[i].version)] == q.hist[i].writes[k]
    {
      assert p.hist[i].version !in p.open;
    }
    forall kv | kv in e.versions
      ensures FromHist(q, kv.0, kv.1) || FromOpen(q, kv.0, kv.1)
    {
      assert kv in db.versions;
    }
  }

  lemma CloseDurable(db: Db, p: Spec, v: nat)
    requires Durable(db, p) && v in p.open && p.open[v].own == map[]
    requires forall vk :: vk in db.writes ==> vk.0 != v
    ensures Durable(db.(active := db.active - {v}), SpecClose(p, v))
  {
    SameWrites(db, db.(active := db.active - {v}), p, SpecClose(p, v));
  }

  // ---- A prefix of an operation's calls ----

  lemma BeginDuring(db: Db, p: Spec, n: nat)
    requires Durable(db, p)
    ensures Durable(ApplyAll(db, Prefix(BeginCalls(db), n)),
                    if n == 0 then p else if n == 1 then p.(next := p.next + 1) else SpecBegin(p))
  {
    TwoCallPrefix(db, SetNext(db.next + 1), MarkActive(db.next), n);
    if n == 1 {
      NextDurable(db, p);
    } else if n > 1 {
      BeginDurable(db, p);
    }
  }

  lemma RecordDurable(db: Db, p: Spec, v: nat, k: Bytes)
    requires Durable(db, p) && v in p.open
    ensures Durable(db.(writes := db.writes + {(v, k)}), p)
  {
    RecordsDurable(db, p, db.writes + {(v, k)});
  }

  lemma WriteDuring(db: Db, p: Spec, t: Txn, v: nat, k: Bytes, value: Value, n: nat)
    requires Durable(db, p) && v in p.open && Snapshot(t, v, p) && !SpecConflict(p, v, k)
    ensures Durable(ApplyAll(db, Prefix(WriteCalls(v, k, value), n)), if n < 2 then p else SpecWrite(p, v, k, value))
  {
    TwoCallPrefix(db, RecordWrite(v, k), PutVersion(k, v, value), n);
    if n == 1 {
      RecordDurable(db, p, v, k);
    } else if n > 1 {
      WriteDurable(db, p, t, v, k, value);
    }
  }

  lemma CommitDuring(db: Db, p: Spec, v: nat, n: nat)
    requires Durable(db, p) && v in p.open && Recorded(db, v) == p.open[v].own.Keys
    ensures Durable(ApplyAll(db, Prefix(CommitCalls(db, v), n)), if n <= |p.open[v].own| then p else SpecCommit(p, v))
  {
    CommitPrefix(db, v, n);
    var ks := Sorted(Recorded(db, v));
    if n <= |ks| {
      RecordsDurable(db, p, set vk | vk in db.writes && !(vk.0 == v && vk.1 in ks[..n]));
    } else {
      var writes := set vk | vk in db.writes && vk.0 != v;
      RecordsDurable(db, p, writes);
      CommitDurable(db.(writes := writes), p, v);
    }
  }

  lemma RollbackDuring(db: Db, p: Spec, v: nat, n: nat)
    requires Durable(db, p) && v in p.open && Recorded(db, v) == p.open[v].own.Keys
    ensures var ks := Sorted(p.open[v].own.Keys);
            Durable(ApplyAll(db, Prefix(RollbackCalls(db, v), n)),
                    if n <= 2 * |ks| then SpecForget(p, v, Elements(ks[..n / 2])) else SpecClose(p, v))
  {
    RollbackPrefix(db, v, n);
    var ks := Sorted(Recorded(db, v));
    if n <= 2 * |ks| {
      ForgetDurable(db, p, v, ks[..n / 2]);
      var e := ApplyAll(db, Prefix(RollbackCalls(db, v), n));
      RecordsDurable(Undone(db, v, ks[..n / 2]), SpecForget(p, v, Elements(ks[..n / 2])), e.writes);
    } else {
      ForgottenDurable(db, p, v);
    }
  }

  lemma ForgottenDurable(db: Db, p: Spec, v: nat)
    requires Durable(db, p) && v in p.open && Recorded(db, v) == p.open[v].own.Keys
    ensures Durable(Undone(db, v, Sorted(Recorded(db, v))).(active := db.active - {v}), SpecClose(p, v))
  {
    var ks := Sorted(Recorded(db, v));
    ForgetDurable(db, p, v, ks);
    SortedIsListing(Recorded(db, v));
    AllRecorded(db, v);
    var q := SpecForget(p, v, Elements(ks));
    assert q.open[v].own == map[];
    CloseDurable(Undone(db, v, ks), q, v);
    assert SpecClose(q, v) == SpecClose(p, v);
  }

  lemma BeginDuringDurable(s: State, p: Spec, n: nat)
    requires Simulates(s, p)
    ensures Durable(ApplyAll(s.db, Prefix(CallsOf(s, Begin), n)), SpecDuring(p, Begin, n))
  {
    BeginDuring(s.db, p, n);
  }

  lemma WriteDuringDurable(s: State, p: Spec, v: nat, k: Bytes, value: Value, n: nat)
    requires Simulates(s, p) && v in s.live
    ensures Durable(ApplyAll(s.db, Prefix(CallsOf(s, Write(v, k, value)), n)), SpecDuring(p, Write(v, k, value), n))
  {
    ConflictMatches(s, p, v, k);
    if !Conflict(s.db, s.live[v], k) {
      WriteDuring(s.db, p, s.live[v], v, k, value, n);
    }
  }

  lemma CommitDuringDurable(s: State, p: Spec, v: nat, n: nat)
    requires Simulates(s, p) && v in s.live
    ensures Durable(ApplyAll(s.db, Prefix(CallsOf(s, Commit(v)), n)), SpecDuring(p, Commit(v), n))
  {
    CommitDuring(s.db, p, v, n);
  }

  lemma RollbackDuringDurable(s: State, p: Spec, v: nat, n: nat)
    requires Simulates(s, p) && v in s.live
    ensures Durable(ApplyAll(s.db, Prefix(CallsOf(s, Rollback(v)), n)), SpecDuring(p, Rollback(v), n))
  {
    RollbackDuring(s.db, p, v, n);
  }

  /** Without a handle nothing is called. */
  lemma NothingDuring(s: State, p: Spec, a: Action, n: nat)
    requires Simulates(s, p) && !a.Begin? && a.v !in s.live
    ensures ApplyAll(s.db, Prefix(CallsOf(s, a), n)) == s.db && SpecDuring(p, a, n) == p
  {
  }

  /** After any prefix of the calls of an action the engine still holds what the specification says. */
  lemma DuringDurable(s: State, p: Spec, a: Action, n: nat)
    requires Simulates(s, p)
    ensures Durable(ApplyAll(s.db, Prefix(CallsOf(s, a), n)), SpecDuring(p, a, n))
  {
    if !a.Begin? && a.v !in s.live {
      NothingDuring(s, p, a, n);
    } else {
      match a
      case Begin => BeginDuringDurable(s, p, n);
      case Write(v, k, value) => WriteDuringDurable(s, p, v, k, value, n);
      case Commit(v) => CommitDuringDurable(s, p, v, n);
      case Rollback(v) => RollbackDuringDurable(s, p, v, n);
    }
  }

  // ---- Whole steps ----

  lemma LiveDurable(db: Db, p: Spec, live: set<nat>)
    requires Durable(db, p) && live <= p.open.Keys
    ensures Durable(db, p.(live := live))
  {
    SameWrites(db, db, p, p.(live := live));
  }

  /** A handle keeps its snapshot when others begin, finish or write. */
  lemma SnapshotKept(t: Txn, v: nat, p: Spec, q: Spec)
    requires v in p.open && v in q.open && Snapshot(t, v, p) && p.open[v].start == q.open[v].start <= |p.hist|
    requires |p.hist| <= |q.hist| && forall i :: 0 <= i < |p.hist| ==> q.hist[i] == p.hist[i]
    requires forall i :: |p.hist| <= i < |q.hist| ==> q.hist[i].version in p.open && q.hist[i].version != v
    requires forall u :: u in q.open ==> u in p.open || u > v
    ensures Snapshot(t, v, q)
  {
  }

  lemma BeginHandles(s: State, p: Spec)
    requires Simulates(s, p)
    ensures Numbered(SpecPerform(p, Begin)) && Handles(Perform(s, Begin), SpecPerform(p, Begin))
  {
    var q := SpecPerform(p, Begin);
    var s' := Perform(s, Begin);
    StepNumbered(p, Do(Begin));
    ApplyTwo(s.db, SetNext(s.db.next + 1), MarkActive(s.db.next));
    forall v | v in s'.live
      ensures Snapshot(s'.live[v], v, q) && Recorded(s'.db, v) == q.open[v].own.Keys
    {
      RecordedSame(s.db, s'.db, v);
      if v in s.live {
        SnapshotKept(s.live[v], v, p, q);
      } else {
        NewHandle(s.db, p);
      }
    }
  }

  lemma RecordedSame(db: Db, e: Db, v: nat)
    requires e.writes == db.writes
    ensures Recorded(e, v) == Recorded(db, v)
  {
  }

  /** A new handle sees everything committed so far, and there are no write records of its version. */
  lemma NewHandle(db: Db, p: Spec)
    requires Durable(db, p)
    ensures Snapshot(Txn(db.next, db.active), p.next, SpecPerform(p, Begin)) && Recorded(db, p.next) == {}
  {
    assert forall vk :: vk in db.writes ==> vk.0 in p.open;
  }

  lemma WriteHandles(s: State, p: Spec, v: nat, k: Bytes, value: Value)
    requires Simulates(s, p) && v in s.live
    requires !Conflict(s.db, s.live[v], k) && !SpecConflict(p, v, k)
    ensures var a := Write(v, k, value);
            Numbered(SpecPerform(p, a)) && Handles(Perform(s, a), SpecPerform(p, a))
  {
    var q := SpecPerform(p, Write(v, k, value));
    var s' := Perform(s, Write(v, k, value));
    ApplyTwo(s.db, RecordWrite(v, k), PutVersion(k, v, value));
    assert s'.db.writes == s.db.writes + {(v, k)};
    forall u | u in s.live
      ensures Snapshot(s.live[u], u, q) && Recorded(s'.db, u) == q.open[u].own.Keys
    {
      SnapshotKept(s.live[u], u, p, q);
      RecordedAdd(s.db, s'.db, v, k, u);
    }
  }

  lemma RecordedAdd(db: Db, e: Db, v: nat, k: Bytes, u: nat)
    requires e.writes == db.writes + {(v, k)}
    ensures Recorded(e, u) == Recorded(db, u) + (if u == v then {k} else {})
  {
    if u == v {
      assert (v, k) in e.writes;
    }
    forall x | x in Recorded(db, u)
      ensures x in Recorded(e, u)
    {
      assert (u, x) in e.writes;
    }
  }

  lemma RecordedDrop(db: Db, e: Db, v: nat, u: nat)
    requires e.writes == (set vk | vk in db.writes && vk.0 != v) && u != v
    ensures Recorded(e, u) == Recorded(db, u)
  {
    forall x | x in Recorded(db, u)
      ensures x in Recorded(e, u)
    {
      assert (u, x) in e.writes;
    }
  }

  lemma CommitHandles(s: State, p: Spec, v: nat)
    requires Simulates(s, p) && v in s.live
    ensures Numbered(SpecPerform(p, Commit(v))) && Handles(Perform(s, Commit(v)), SpecPerform(p, Commit(v)))
  {
    var q := SpecPerform(p, Commit(v));
    var s' := Perform(s, Commit(v));
    StepNumbered(p, Do(Commit(v)));
    CommitPrefix(s.db, v, |CommitCalls(s.db, v)|);
    assert s'.db.writes == (set vk | vk in s.db.writes && vk.0 != v);
    forall u | u in s'.live
      ensures Snapshot(s.live[u], u, q) && Recorded(s'.db, u) == q.open[u].own.Keys
    {
      SnapshotKept(s.live[u], u, p, q);
      RecordedDrop(s.db, s'.db, v, u);
    }
  }

  lemma RollbackClears(db: Db, v: nat)
    ensures ApplyAll(db, RollbackCalls(db, v)).writes == (set vk | vk in db.writes && vk.0 != v)
  {
    RollbackWhole(db, v);
    AllRecorded(db, v);
  }

  lemma RollbackHandles(s: State, p: Spec, v: nat)
    requires Simulates(s, p) && v in s.live
    ensures Numbered(SpecPerform(p, Rollback(v))) && Handles(Perform(s, Rollback(v)), SpecPerform(p, Rollback(v)))
  {
    var q := SpecPerform(p, Rollback(v));
    var s' := Perform(s, Rollback(v));
    StepNumbered(p, Do(Rollback(v)));
    RollbackClears(s.db, v);
    forall u | u in s'.live
      ensures Snapshot(s.live[u], u, q) && Recorded(s'.db, u) == q.open[u].own.Keys
    {
      SnapshotKept(s.live[u], u, p, q);
      RecordedDrop(s.db, s'.db, v, u);
    }
  }

  /** The last call of an action completes it. */
  lemma DuringWhole(s: State, p: Spec, a: Action)
    requires Simulates(s, p)
    ensures SpecPerform(p, a).live <= SpecDuring(p, a, |CallsOf(s, a)|).open.Keys
    ensures SpecPerform(p, a) == SpecDuring(p, a, |CallsOf(s, a)|).(live := SpecPerform(p, a).live)
  {
    match a
    case Begin =>
    case Write(v, k, value) => if v in s.live { ConflictMatches(s, p, v, k); }
    case Commit(v) =>
    case Rollback(v) =>
  }

  lemma PerformSimulates(s: State, p: Spec, a: Action)
    requires Simulates(s, p)
    ensures Simulates(Perform(s, a), SpecPerform(p, a))
  {
    var n := |CallsOf(s, a)|;
    DuringDurable(s, p, a, n);
    DuringWhole(s, p, a);
    LiveDurable(Perform(s, a).db, SpecDuring(p, a, n), SpecPerform(p, a).live);
    PerformHandles(s, p, a);
  }

  lemma PerformHandles(s: State, p: Spec, a: Action)
    requires Simulates(s, p)
    ensures Numbered(SpecPerform(p, a)) && Handles(Perform(s, a), SpecPerform(p, a))
  {
    match a
    case Begin => BeginHandles(s, p);
    case Write(v, k, value) =>
      if v in s.live {
        ConflictMatches(s, p, v, k);
        if !Conflict(s.db, s.live[v], k) { WriteHandles(s, p, v, k, value); }
      }
    case Commit(v) => if v in s.live { CommitHandles(s, p, v); }
    case Rollback(v) => if v in s.live { RollbackHandles(s, p, v); }
  }

  lemma StepSimulates(s: State, p: Spec, op: Op)
    requires Simulates(s, p)
    ensures Simulates(Step(s, op), SpecStep(p, op))
  {
    match op
    case Do(a) => PerformSimulates(s, p, a);
    case Read(_, _) =>
    case Scan(_, _) =>
    case Crash(a, n) =>
      DuringDurable(s, p, a, n);
      LiveDurable(Step(s, op).db, SpecDuring(p, a, n), {});
  }

  // ---- Runs ----

  lemma {:induction false} RunSimulates(s: State, p: Spec, ops: seq<Op>)
    requires Simulates(s, p)
    ensures Simulates(Run(s, ops), SpecRun(p, ops))
    ensures Trace(s, ops) == SpecTrace(p, ops)
    decreases |ops|
  {
    if ops != [] {
      AnswerMatches(s, p, ops[0]);
      StepSimulates(s, p, ops[0]);
      RunSimulates(Step(s, ops[0]), SpecStep(p, ops[0]), ops[1..]);
    }
  }

  /** In every interleaving, crashes included, every caller is told what snapshot isolation says. */
  lemma SnapshotIsolationHolds(ops: seq<Op>)
    ensures Trace(INIT, ops) == SpecTrace(SPEC_INIT, ops)
    ensures Simulates(Run(INIT, ops), SpecRun(SPEC_INIT, ops))
  {
    RunSimulates(INIT, SPEC_INIT, ops);
  }
}
