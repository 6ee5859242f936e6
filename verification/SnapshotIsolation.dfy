/**
 Snapshot isolation, with no versions, marks or scans: a list of committed write sets and,
 for each open transaction, the length of that list when it began and its own writes.
 */
module SnapshotIsolation {
  import opened ByteStrings
  import opened Ordering
  import opened MvccProtocol

  type WriteSet = map<Bytes, Value>

  datatype Committed = Committed(version: nat, start: nat, writes: WriteSet)

  datatype Open = Open(start: nat, own: WriteSet)

  /** `open` also holds transactions a crash left unfinished; `live` are those that can go on. */
  datatype Spec = Spec(next: nat, hist: seq<Committed>, open: map<nat, Open>, live: set<nat>)

  const SPEC_INIT := Spec(1, [], map[], {})

  ghost function Overlay(base: map<Bytes, Bytes>, w: WriteSet): map<Bytes, Bytes> {
    map k | k in base.Keys + w.Keys && (k in w ==> w[k].Some?) :: if k in w then w[k].value else base[k]
  }

  /** The contents after the committed write sets, applied in commit order. */
  ghost function StateAfter(hist: seq<Committed>): map<Bytes, Bytes> {
    if hist == [] then map[]
    else Overlay(StateAfter(hist[..|hist| - 1]), hist[|hist| - 1].writes)
  }

  /** The snapshot of an open transaction under its own writes. */
  ghost function SpecView(p: Spec, v: nat): map<Bytes, Bytes>
    requires v in p.open && p.open[v].start <= |p.hist|
  {
    Overlay(StateAfter(p.hist[..p.open[v].start]), p.open[v].own)
  }

  /** Another open transaction wrote k, or a transaction that committed after v began did. */
  ghost predicate SpecConflict(p: Spec, v: nat, k: Bytes)
    requires v in p.open
  {
    || (exists u :: u in p.open && u != v && k in p.open[u].own)
    || (exists i :: p.open[v].start <= i < |p.hist| && k in p.hist[i].writes)
  }

  ghost predicate Numbered(p: Spec) {
    && p.live <= p.open.Keys
    && (forall v :: v in p.open ==> v < p.next && p.open[v].start <= |p.hist|)
    && (forall i :: 0 <= i < |p.hist| ==>
          p.hist[i].version < p.next && p.hist[i].version !in p.open && p.hist[i].start <= i)
    && (forall i, j :: 0 <= i < j < |p.hist| ==> p.hist[i].version != p.hist[j].version)
  }

  ghost function SpecBegin(p: Spec): Spec {
    p.(next := p.next + 1, open := p.open[p.next := Open(|p.hist|, map[])])
  }

  ghost function SpecWrite(p: Spec, v: nat, k: Bytes, value: Value): Spec
    requires v in p.open
  {
    p.(open := p.open[v := p.open[v].(own := p.open[v].own[k := value])])
  }

  ghost function SpecCommit(p: Spec, v: nat): Spec
    requires v in p.open
  {
    p.(hist := p.hist + [Committed(v, p.open[v].start, p.open[v].own)], open := p.open - {v}, live := p.live - {v})
  }

  ghost function SpecClose(p: Spec, v: nat): Spec {
    p.(open := p.open - {v}, live := p.live - {v})
  }

  ghost function SpecForget(p: Spec, v: nat, ks: set<Bytes>): Spec
    requires v in p.open
  {
    p.(open := p.open[v := p.open[v].(own := p.open[v].own - ks)])
  }

  ghost function SpecPerform(p: Spec, a: Action): Spec
    requires Numbered(p)
  {
    match a
    case Begin => SpecBegin(p).(live := p.live + {p.next})
    case Write(v, k, value) => if v !in p.live || SpecConflict(p, v, k) then p else SpecWrite(p, v, k, value)
    case Commit(v) => if v !in p.live then p else SpecCommit(p, v)
    case Rollback(v) => if v !in p.live then p else SpecClose(p, v)
  }

  /** What a crash after n engine calls of a amounts to: committed only if the last call was made. */
  ghost function SpecDuring(p: Spec, a: Action, n: nat): Spec
    requires Numbered(p)
  {
    match a
    case Begin => if n == 0 then p else if n == 1 then p.(next := p.next + 1) else SpecBegin(p)
    case Write(v, k, value) =>
      if v !in p.live || SpecConflict(p, v, k) || n < 2 then p else SpecWrite(p, v, k, value)
    case Commit(v) =>
      if v !in p.live || n <= |p.open[v].own| then p else SpecCommit(p, v)
    case Rollback(v) =>
      if v !in p.live then p
      else
        var ks := Sorted(p.open[v].own.Keys);
        if n <= 2 * |ks| then SpecForget(p, v, Elements(ks[..n / 2])) else SpecClose(p, v)
  }

  ghost function SpecStep(p: Spec, op: Op): Spec
    requires Numbered(p)
  {
    match op
    case Do(a) => SpecPerform(p, a)
    case Read(_, _) => p
    case Scan(_, _) => p
    case Crash(a, n) => SpecDuring(p, a, n).(live := {})
  }

  ghost function SpecAnswer(p: Spec, op: Op): Response
    requires Numbered(p)
  {
    match op
    case Do(Begin) => Started(p.next)
    case Do(Write(v, k, _)) =>
      if v !in p.live then NoSuchHandle else if SpecConflict(p, v, k) then WriteConflict else Done
    case Do(Commit(v)) => if v in p.live then Done else NoSuchHandle
    case Do(Rollback(v)) => if v in p.live then Done else NoSuchHandle
    case Read(v, k) => if v in p.live then Found(Lookup(SpecView(p, v), k)) else NoSuchHandle
    case Scan(v, q) =>
      if v in p.live then Entries(Listing(WithPrefix(SpecView(p, v), q))) else NoSuchHandle
    case Crash(_, _) => Restarted
  }

  lemma CommitNumbered(p: Spec, v: nat)
    requires Numbered(p) && v in p.open
    ensures Numbered(SpecCommit(p, v))
  {
    var q := SpecCommit(p, v);
    assert forall i :: 0 <= i < |p.hist| ==> q.hist[i] == p.hist[i];
  }

  lemma PerformNumbered(p: Spec, a: Action)
    requires Numbered(p)
    ensures Numbered(SpecPerform(p, a))
  {
    if a.Commit? && a.v in p.live {
      CommitNumbered(p, a.v);
    }
  }

  lemma DuringNumbered(p: Spec, a: Action, n: nat)
    requires Numbered(p)
    ensures Numbered(SpecDuring(p, a, n).(live := {}))
  {
    if a.Commit? && a.v in p.live {
      CommitNumbered(p, a.v);
    }
  }

  lemma StepNumbered(p: Spec, op: Op)
    requires Numbered(p)
    ensures Numbered(SpecStep(p, op))
  {
    match op
    case Do(a) => PerformNumbered(p, a);
    case Read(_, _) =>
    case Scan(_, _) =>
    case Crash(a, n) => DuringNumbered(p, a, n);
  }

  ghost function SpecRun(p: Spec, ops: seq<Op>): (q: Spec)
    requires Numbered(p)
    ensures Numbered(q)
    decreases |ops|
  {
    if ops == [] then p
    else
      StepNumbered(p, ops[0]);
      SpecRun(SpecStep(p, ops[0]), ops[1..])
  }

  ghost function SpecTrace(p: Spec, ops: seq<Op>): seq<Response>
    requires Numbered(p)
    decreases |ops|
  {
    if ops == [] then []
    else
      StepNumbered(p, ops[0]);
      [SpecAnswer(p, ops[0])] + SpecTrace(SpecStep(p, ops[0]), ops[1..])
  }
}
