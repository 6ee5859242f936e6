/**
 The MVCC protocol of storage/storage.go over logical records: the next version, the
 active marks, the write records and the stored versions.  Every operation is a list of
 engine calls, so that a crash can stop it between any two of them.
 */
module MvccProtocol {
  import opened ByteStrings
  import opened Ordering

  /** What a version stores: Some bytes, or None for a deletion mark. */
  type Value = Option<Bytes>

  /** `transactionState`: the snapshot a transaction takes when it begins. */
  datatype Txn = Txn(version: nat, active: set<nat>) {
    /** `isVisible` */
    predicate Sees(v: nat) {
      v !in active && v <= version
    }

    /** At or above the first version the conflict check looks at. */
    ghost predicate InWindow(v: nat) {
      version + 1 <= v || exists a :: a in active && a <= v
    }
  }

  datatype Db = Db(
    next: nat,
    active: set<nat>,
    writes: set<(nat, Bytes)>,
    versions: map<(Bytes, nat), Value>)

  const EMPTY := Db(1, {}, {}, map[])

  // ---- Reading ----

  /** The newest version of k at or below `bound` that t sees. */
  ghost function ReadBelow(db: Db, t: Txn, k: Bytes, bound: nat): Value {
    if (k, bound) in db.versions && t.Sees(bound) then db.versions[(k, bound)]
    else if bound == 0 then None
    else ReadBelow(db, t, k, bound - 1)
  }

  ghost function Get(db: Db, t: Txn, k: Bytes): Value {
    ReadBelow(db, t, k, t.version)
  }

  /** Everything t can read, deletions left out. */
  ghost function View(db: Db, t: Txn): map<Bytes, Bytes> {
    var keys := set kv | kv in db.versions && Get(db, t, kv.0).Some? :: kv.0;
    map k | k in keys :: Get(db, t, k).value
  }

  ghost function Lookup(m: map<Bytes, Bytes>, k: Bytes): Value {
    if k in m then Some(m[k]) else None
  }

  ghost function ScanPrefix(db: Db, t: Txn, p: Bytes): seq<Pair<Bytes>> {
    Listing(WithPrefix(View(db, t), p))
  }

  lemma {:induction false} ReadNewest(db: Db, t: Txn, k: Bytes, v: nat, bound: nat)
    requires (k, v) in db.versions && t.Sees(v) && v <= bound
    requires forall u :: v < u <= bound && (k, u) in db.versions ==> !t.Sees(u)
    ensures ReadBelow(db, t, k, bound) == db.versions[(k, v)]
  {
    if bound != v {
      ReadNewest(db, t, k, v, bound - 1);
    }
  }

  lemma {:induction false} ReadNothing(db: Db, t: Txn, k: Bytes, bound: nat)
    requires forall u :: u <= bound && (k, u) in db.versions ==> !t.Sees(u)
    ensures ReadBelow(db, t, k, bound) == None
  {
    if bound != 0 {
      ReadNothing(db, t, k, bound - 1);
    }
  }

  lemma {:induction false} ReadNeedsVersion(db: Db, t: Txn, k: Bytes, bound: nat) returns (v: nat)
    requires ReadBelow(db, t, k, bound).Some?
    ensures v <= bound && (k, v) in db.versions && t.Sees(v)
    ensures forall u :: v < u <= bound && (k, u) in db.versions ==> !t.Sees(u)
    ensures db.versions[(k, v)] == ReadBelow(db, t, k, bound)
  {
    if (k, bound) in db.versions && t.Sees(bound) {
      v := bound;
    } else {
      v := ReadNeedsVersion(db, t, k, bound - 1);
    }
  }

  lemma ViewIsGet(db: Db, t: Txn, k: Bytes)
    ensures Lookup(View(db, t), k) == Get(db, t, k)
  {
    if Get(db, t, k).Some? {
      var v := ReadNeedsVersion(db, t, k, t.version);
      assert (k, v) in db.versions;
    }
  }

  // ---- Engine calls ----

  datatype Call =
    | SetNext(v: nat)
    | MarkActive(v: nat)
    | ClearActive(v: nat)
    | RecordWrite(v: nat, k: Bytes)
    | ClearWrite(v: nat, k: Bytes)
    | PutVersion(k: Bytes, v: nat, value: Value)
    | DropVersion(k: Bytes, v: nat)

  function Apply(db: Db, c: Call): Db {
    match c
    case SetNext(v) => db.(next := v)
    case MarkActive(v) => db.(active := db.active + {v})
    case ClearActive(v) => db.(active := db.active - {v})
    case RecordWrite(v, k) => db.(writes := db.writes + {(v, k)})
    case ClearWrite(v, k) => db.(writes := db.writes - {(v, k)})
    case PutVersion(k, v, value) => db.(versions := db.versions[(k, v) := value])
    case DropVersion(k, v) => db.(versions := db.versions - {(k, v)})
  }

  function ApplyAll(db: Db, cs: seq<Call>): Db {
    if cs == [] then db else Apply(ApplyAll(db, cs[..|cs| - 1]), cs[|cs| - 1])
  }

  lemma {:induction false} ApplyAllConcat(db: Db, a: seq<Call>, b: seq<Call>)
    ensures ApplyAll(db, a + b) == ApplyAll(ApplyAll(db, a), b)
  {
    if b == [] {
      assert a + b == a;
    } else {
      assert (a + b)[..|a + b| - 1] == a + b[..|b| - 1];
      ApplyAllConcat(db, a, b[..|b| - 1]);
    }
  }

  lemma ApplyTwo(db: Db, a: Call, b: Call)
    ensures ApplyAll(db, [a]) == Apply(db, a)
    ensures ApplyAll(db, [a, b]) == Apply(Apply(db, a), b)
  {
    assert [a][..0] == [];
    assert ApplyAll(db, [a]) == Apply(db, a);
    assert [a, b][..1] == [a];
  }

  // ---- The calls of each operation ----

  function BeginCalls(db: Db): seq<Call> {
    [SetNext(db.next + 1), MarkActive(db.next)]
  }

  function WriteCalls(v: nat, k: Bytes, value: Value): seq<Call> {
    [RecordWrite(v, k), PutVersion(k, v, value)]
  }

  function ClearWrites(v: nat, ks: seq<Bytes>): (cs: seq<Call>)
    ensures |cs| == |ks|
  {
    if ks == [] then [] else ClearWrites(v, ks[..|ks| - 1]) + [ClearWrite(v, ks[|ks| - 1])]
  }

  function UndoWrites(v: nat, ks: seq<Bytes>): (cs: seq<Call>)
    ensures |cs| == 2 * |ks|
  {
    if ks == [] then []
    else UndoWrites(v, ks[..|ks| - 1]) + [ClearWrite(v, ks[|ks| - 1]), DropVersion(ks[|ks| - 1], v)]
  }

  /** The keys transaction v has write records for. */
  ghost function Recorded(db: Db, v: nat): set<Bytes> {
    set vk | vk in db.writes && vk.0 == v :: vk.1
  }

  ghost function CommitCalls(db: Db, v: nat): seq<Call> {
    ClearWrites(v, Sorted(Recorded(db, v))) + [ClearActive(v)]
  }

  ghost function RollbackCalls(db: Db, v: nat): seq<Call> {
    UndoWrites(v, Sorted(Recorded(db, v))) + [ClearActive(v)]
  }

  /** w is the last version of k in the window of t's conflict check. */
  ghost predicate NewestInWindow(db: Db, t: Txn, k: Bytes, w: nat) {
    && (k, w) in db.versions && t.InWindow(w)
    && forall u :: (k, u) in db.versions && t.InWindow(u) ==> u <= w
  }

  /** The conflict check of `write`: it looks at that one version only. */
  ghost predicate Conflict(db: Db, t: Txn, k: Bytes) {
    exists w :: NewestInWindow(db, t, k, w) && !t.Sees(w)
  }

  // ---- The interleaved machine ----

  /** The engine's contents and the transaction handles that are in use. */
  datatype State = State(db: Db, live: map<nat, Txn>)

  datatype Action =
    | Begin
    | Write(v: nat, k: Bytes, value: Value)
    | Commit(v: nat)
    | Rollback(v: nat)

  /** Crash(a, n) stops the process after the first n engine calls of a. */
  datatype Op =
    | Do(a: Action)
    | Read(v: nat, k: Bytes)
    | Scan(v: nat, p: Bytes)
    | Crash(a: Action, n: nat)

  datatype Response =
    | Started(v: nat)
    | Done
    | WriteConflict
    | Found(value: Value)
    | Entries(es: seq<Pair<Bytes>>)
    | NoSuchHandle
    | Restarted

  const INIT := State(EMPTY, map[])

  ghost function CallsOf(s: State, a: Action): seq<Call> {
    match a
    case Begin => BeginCalls(s.db)
    case Write(v, k, value) =>
      if v !in s.live || Conflict(s.db, s.live[v], k) then [] else WriteCalls(v, k, value)
    case Commit(v) => if v !in s.live then [] else CommitCalls(s.db, v)
    case Rollback(v) => if v !in s.live then [] else RollbackCalls(s.db, v)
  }

  ghost function LiveAfter(s: State, a: Action): map<nat, Txn> {
    match a
    case Begin => s.live[s.db.next := Txn(s.db.next, s.db.active)]
    case Write(_, _, _) => s.live
    case Commit(v) => s.live - {v}
    case Rollback(v) => s.live - {v}
  }

  ghost function Perform(s: State, a: Action): State {
    State(ApplyAll(s.db, CallsOf(s, a)), LiveAfter(s, a))
  }

  function Prefix<T>(s: seq<T>, n: nat): seq<T> {
    if n < |s| then s[..n] else s
  }

  /** The process dies inside a: a prefix of the calls is in the engine, the handles are gone. */
  ghost function CrashIn(s: State, a: Action, n: nat): State {
    State(ApplyAll(s.db, Prefix(CallsOf(s, a), n)), map[])
  }

  ghost function Step(s: State, op: Op): State {
    match op
    case Do(a) => Perform(s, a)
    case Read(_, _) => s
    case Scan(_, _) => s
    case Crash(a, n) => CrashIn(s, a, n)
  }

  ghost function Answer(s: State, op: Op): Response {
    match op
    case Do(Begin) => Started(s.db.next)
    case Do(Write(v, k, _)) =>
      if v !in s.live then NoSuchHandle
      else if Conflict(s.db, s.live[v], k) then WriteConflict else Done
    case Do(Commit(v)) => if v in s.live then Done else NoSuchHandle
    case Do(Rollback(v)) => if v in s.live then Done else NoSuchHandle
    case Read(v, k) => if v in s.live then Found(Get(s.db, s.live[v], k)) else NoSuchHandle
    case Scan(v, p) => if v in s.live then Entries(ScanPrefix(s.db, s.live[v], p)) else NoSuchHandle
    case Crash(_, _) => Restarted
  }

  ghost function Run(s: State, ops: seq<Op>): State
    decreases |ops|
  {
    if ops == [] then s else Run(Step(s, ops[0]), ops[1..])
  }

  /** What the callers are told along a run. */
  ghost function Trace(s: State, ops: seq<Op>): seq<Response>
    decreases |ops|
  {
    if ops == [] then [] else [Answer(s, ops[0])] + Trace(Step(s, ops[0]), ops[1..])
  }

  // ---- What the call lists do ----

  lemma {:induction false} ClearWritesEffect(db: Db, v: nat, ks: seq<Bytes>)
    ensures ApplyAll(db, ClearWrites(v, ks)) == db.(writes := set vk | vk in db.writes && !(vk.0 == v && vk.1 in ks))
  {
    if ks != [] {
      var init, k := ks[..|ks| - 1], ks[|ks| - 1];
      ClearWritesEffect(db, v, init);
      assert ClearWrites(v, ks)[..|ks| - 1] == ClearWrites(v, init);
      assert forall x :: x in ks <==> x in init || x == k;
    } else {
      assert (set vk | vk in db.writes && !(vk.0 == v && vk.1 in ks)) == db.writes;
    }
  }

  ghost function Undone(db: Db, v: nat, ks: seq<Bytes>): Db {
    db.(writes := (set vk | vk in db.writes && !(vk.0 == v && vk.1 in ks)),
        versions := map kv | kv in db.versions && !(kv.1 == v && kv.0 in ks) :: db.versions[kv])
  }

  lemma {:induction false} UndoWritesEffect(db: Db, v: nat, ks: seq<Bytes>)
    ensures ApplyAll(db, UndoWrites(v, ks)) == Undone(db, v, ks)
  {
    if ks != [] {
      var init, k := ks[..|ks| - 1], ks[|ks| - 1];
      UndoWritesEffect(db, v, init);
      ApplyAllConcat(db, UndoWrites(v, init), [ClearWrite(v, k), DropVersion(k, v)]);
      ApplyTwo(Undone(db, v, init), ClearWrite(v, k), DropVersion(k, v));
      assert forall x :: x in ks <==> x in init || x == k;
    } else {
      assert (set vk | vk in db.writes && !(vk.0 == v && vk.1 in ks)) == db.writes;
      assert (map kv | kv in db.versions && !(kv.1 == v && kv.0 in ks) :: db.versions[kv]) == db.versions;
    }
  }

  lemma {:induction false} ClearWritesAt(v: nat, ks: seq<Bytes>, i: nat)
    requires i < |ks|
    ensures ClearWrites(v, ks)[i] == ClearWrite(v, ks[i])
  {
    if i < |ks| - 1 {
      ClearWritesAt(v, ks[..|ks| - 1], i);
    }
  }

  lemma {:induction false} UndoWritesAt(v: nat, ks: seq<Bytes>, i: nat)
    requires i < |ks|
    ensures UndoWrites(v, ks)[2 * i] == ClearWrite(v, ks[i]) && UndoWrites(v, ks)[2 * i + 1] == DropVersion(ks[i], v)
  {
    if i < |ks| - 1 {
      UndoWritesAt(v, ks[..|ks| - 1], i);
    }
  }

  lemma {:induction false} ClearWritesPrefix(v: nat, ks: seq<Bytes>, n: nat)
    requires n <= |ks|
    ensures ClearWrites(v, ks)[..n] == ClearWrites(v, ks[..n])
  {
    if n == |ks| {
      assert ks[..n] == ks;
    } else {
      var init := ks[..|ks| - 1];
      ClearWritesPrefix(v, init, n);
      assert init[..n] == ks[..n];
    }
  }

  lemma {:induction false} UndoWritesPrefix(v: nat, ks: seq<Bytes>, n: nat)
    requires n <= |ks|
    ensures UndoWrites(v, ks)[..2 * n] == UndoWrites(v, ks[..n])
    ensures n < |ks| ==> UndoWrites(v, ks)[2 * n] == ClearWrite(v, ks[n])
  {
    if n == |ks| {
      assert ks[..n] == ks;
    } else {
      var init := ks[..|ks| - 1];
      UndoWritesPrefix(v, init, n);
      assert init[..n] == ks[..n];
    }
  }

  // ---- What a prefix of an operation's calls leaves in the engine ----

  lemma TwoCallPrefix(db: Db, a: Call, b: Call, n: nat)
    ensures ApplyAll(db, Prefix([a, b], n)) ==
            if n == 0 then db else if n == 1 then Apply(db, a) else Apply(Apply(db, a), b)
  {
    ApplyTwo(db, a, b);
    assert Prefix([a, b], n) == (if n == 0 then [] else if n == 1 then [a] else [a, b]);
  }

  lemma CommitPrefix(db: Db, v: nat, n: nat)
    ensures var ks := Sorted(Recorded(db, v));
            ApplyAll(db, Prefix(CommitCalls(db, v), n)) ==
            if n <= |ks| then db.(writes := set vk | vk in db.writes && !(vk.0 == v && vk.1 in ks[..n]))
            else db.(writes := (set vk | vk in db.writes && vk.0 != v), active := db.active - {v})
  {
    var ks := Sorted(Recorded(db, v));
    var cs := ClearWrites(v, ks);
    if n <= |ks| {
      ClearWritesPrefix(v, ks, n);
      ClearWritesEffect(db, v, ks[..n]);
      assert Prefix(cs + [ClearActive(v)], n) == cs[..n];
    } else {
      ClearWritesEffect(db, v, ks);
      AllRecorded(db, v);
      ApplyAllConcat(db, cs, [ClearActive(v)]);
      ApplyTwo(ApplyAll(db, cs), ClearActive(v), ClearActive(v));
    }
  }

  lemma AllRecorded(db: Db, v: nat)
    ensures (set vk | vk in db.writes && !(vk.0 == v && vk.1 in Sorted(Recorded(db, v)))) ==
            (set vk | vk in db.writes && vk.0 != v)
  {
    SortedIsListing(Recorded(db, v));
    forall vk | vk in db.writes && vk.0 == v
      ensures vk.1 in Sorted(Recorded(db, v))
    {
      assert vk.1 in Recorded(db, v);
      assert vk.1 in Elements(Sorted(Recorded(db, v)));
    }
  }

  lemma RollbackWhole(db: Db, v: nat)
    ensures var ks := Sorted(Recorded(db, v));
            ApplyAll(db, UndoWrites(v, ks) + [ClearActive(v)]) == Undone(db, v, ks).(active := db.active - {v})
  {
    var ks := Sorted(Recorded(db, v));
    UndoWritesEffect(db, v, ks);
    ApplyAllConcat(db, UndoWrites(v, ks), [ClearActive(v)]);
    ApplyTwo(Undone(db, v, ks), ClearActive(v), ClearActive(v));
  }

  /** n calls of the undoing: n / 2 keys undone, and for an odd n the record of the next one cleared. */
  lemma UndoPart(db: Db, v: nat, ks: seq<Bytes>, n: nat)
    requires n <= 2 * |ks|
    ensures var e := ApplyAll(db, UndoWrites(v, ks)[..n]);
            e == Undone(db, v, ks[..n / 2]).(writes := e.writes) && e.writes <= Undone(db, v, ks[..n / 2]).writes
  {
    var m, cs := n / 2, UndoWrites(v, ks);
    UndoWritesPrefix(v, ks, m);
    UndoWritesEffect(db, v, ks[..m]);
    if n % 2 == 1 {
      assert cs[..n] == cs[..2 * m] + [ClearWrite(v, ks[m])];
      ApplyAllConcat(db, cs[..2 * m], [ClearWrite(v, ks[m])]);
      ApplyTwo(Undone(db, v, ks[..m]), ClearWrite(v, ks[m]), ClearWrite(v, ks[m]));
    }
  }

  lemma RollbackPrefix(db: Db, v: nat, n: nat)
    ensures var ks := Sorted(Recorded(db, v));
            var e := ApplyAll(db, Prefix(RollbackCalls(db, v), n));
            if n > 2 * |ks| then e == Undone(db, v, ks).(active := db.active - {v})
            else e == Undone(db, v, ks[..n / 2]).(writes := e.writes) && e.writes <= Undone(db, v, ks[..n / 2]).writes
  {
    var ks := Sorted(Recorded(db, v));
    if n > 2 * |ks| {
      RollbackWhole(db, v);
    } else {
      UndoPart(db, v, ks, n);
      assert Prefix(UndoWrites(v, ks) + [ClearActive(v)], n) == UndoWrites(v, ks)[..n];
    }
  }
}
