/** What the row layer's transactions ask of the store, in the run of everything that is asked. */
module RowTraces {
  import opened ByteStrings
  import opened RowKeys
  import opened RowStores
  import opened MvccProtocol
  import opened SnapshotIsolation
  import opened MvccHistories
  import opened Stores

  ghost function At(ops: seq<Op>): Spec {
    SpecRun(SPEC_INIT, ops)
  }

  predicate WritesFor(op: Op, v: nat) {
    op.Do? && op.a.Write? && op.a.v == v
  }

  /** A write that is asked for is one the row layer makes, on the view of its transaction. */
  ghost predicate WritesRows(c: Codec, p: Spec, op: Op)
    requires Numbered(p)
  {
    op.Do? && op.a.Write? && op.a.v in p.live ==> RowWrite(c, SpecView(p, op.a.v), op.a.k, op.a.value)
  }

  /** From position n on, all that v writes is what the row layer writes. */
  ghost predicate Guarantees(c: Codec, ops: seq<Op>, n: nat, v: nat) {
    forall i :: n <= i < |ops| && WritesFor(ops[i], v) ==> WritesRows(c, At(ops[..i]), ops[i])
  }

  /** v is open, with this snapshot and these writes. */
  ghost predicate Holding(p: Spec, v: nat, start: nat, snapshot: View, writes: WriteSet)
    requires Numbered(p)
  {
    && v in p.live && p.open[v] == Open(start, writes)
    && StateAfter(p.hist[..start]) == snapshot
  }

  /** The transaction v, begun after the requests `before`, as it stands after the requests ops. */
  ghost predicate Attached(c: Codec, before: seq<Op>, ops: seq<Op>, v: nat, snapshot: View, writes: WriteSet) {
    && before + [Do(Begin)] <= ops && v == At(before).next && snapshot == StateAfter(At(before).hist)
    && Holding(At(ops), v, |At(before).hist|, snapshot, writes)
    && Guarantees(c, ops, |before| + 1, v)
  }

  lemma AttachedView(c: Codec, before: seq<Op>, ops: seq<Op>, v: nat, snapshot: View, writes: WriteSet)
    requires Attached(c, before, ops, v, snapshot, writes)
    ensures v in At(ops).live && SpecView(At(ops), v) == Overlay(snapshot, writes)
  {
  }

  lemma BeginAttached(c: Codec, before: seq<Op>)
    ensures Attached(c, before, before + [Do(Begin)], At(before).next, StateAfter(At(before).hist), map[])
  {
    var p := At(before);
    SpecRunSnoc(SPEC_INIT, before, Do(Begin));
    assert p.hist[..|p.hist|] == p.hist;
  }

  lemma HoldingStep(p: Spec, op: Op, v: nat, start: nat, snapshot: View, writes: WriteSet)
    requires Numbered(p) && Holding(p, v, start, snapshot, writes) && !Touches(op, v)
    ensures Numbered(SpecStep(p, op)) && Holding(SpecStep(p, op), v, start, snapshot, writes)
  {
    StepNumbered(p, op);
    ViewStep(p, op, v);
    var q := SpecStep(p, op);
    assert q.hist[..start] == p.hist[..start];
  }

  lemma GuaranteesSnoc(c: Codec, ops: seq<Op>, op: Op, n: nat, v: nat)
    requires Guarantees(c, ops, n, v) && n <= |ops| && (WritesFor(op, v) ==> WritesRows(c, At(ops), op))
    ensures Guarantees(c, ops + [op], n, v)
  {
    var more := ops + [op];
    forall i | n <= i < |more| && WritesFor(more[i], v)
      ensures WritesRows(c, At(more[..i]), more[i])
    {
      assert more[..i] == if i < |ops| then ops[..i] else ops;
    }
  }

  lemma AttachedStep(c: Codec, before: seq<Op>, ops: seq<Op>, op: Op, v: nat, snapshot: View, writes: WriteSet)
    requires Attached(c, before, ops, v, snapshot, writes) && !Touches(op, v)
    ensures Attached(c, before, ops + [op], v, snapshot, writes)
  {
    SpecRunSnoc(SPEC_INIT, ops, op);
    HoldingStep(At(ops), op, v, |At(before).hist|, snapshot, writes);
    GuaranteesSnoc(c, ops, op, |before| + 1, v);
  }

  /** Whatever the others ask meanwhile, the transaction stays as it is. */
  lemma {:induction false} AttachedMeanwhile(
    c: Codec, before: seq<Op>, ops: seq<Op>, ops': seq<Op>, v: nat, snapshot: View, writes: WriteSet)
    requires Attached(c, before, ops, v, snapshot, writes) && Meanwhile(ops, ops', v)
    ensures Attached(c, before, ops', v, snapshot, writes)
    decreases |ops'|
  {
    if |ops| == |ops'| {
      assert ops == ops';
    } else {
      var init, op := ops'[..|ops'| - 1], ops'[|ops'| - 1];
      assert Meanwhile(ops, init, v) && ops' == init + [op];
      AttachedMeanwhile(c, before, ops, init, v, snapshot, writes);
      AttachedStep(c, before, init, op, v, snapshot, writes);
    }
  }

  /** A write of the row layer is refused by a conflict, or becomes part of the transaction's writes. */
  lemma AttachedWrite(
    c: Codec, before: seq<Op>, ops: seq<Op>, v: nat, snapshot: View, writes: WriteSet, k: Bytes, value: Option<Bytes>)
    requires Attached(c, before, ops, v, snapshot, writes) && RowWrite(c, Overlay(snapshot, writes), k, value)
    ensures var op := Do(Write(v, k, value));
            if SpecConflict(At(ops), v, k) then
              SpecAnswer(At(ops), op) == WriteConflict && Attached(c, before, ops + [op], v, snapshot, writes)
            else
              SpecAnswer(At(ops), op) == Done && Attached(c, before, ops + [op], v, snapshot, writes[k := value])
  {
    var op := Do(Write(v, k, value));
    AttachedView(c, before, ops, v, snapshot, writes);
    SpecRunSnoc(SPEC_INIT, ops, op);
    GuaranteesSnoc(c, ops, op, |before| + 1, v);
  }

  // ---- Alone ----

  predicate AskedBy(op: Op, v: nat) {
    match op
    case Do(Begin) => false
    case Do(a) => a.v == v
    case Read(u, _) => u == v
    case Scan(u, _) => u == v
    case Crash(_, _) => false
  }

  /** Since it began, only v has asked for anything. */
  ghost predicate Alone(before: seq<Op>, ops: seq<Op>, v: nat) {
    before + [Do(Begin)] <= ops && forall i :: |before| < i < |ops| ==> AskedBy(ops[i], v)
  }

  lemma AloneSnoc(before: seq<Op>, ops: seq<Op>, op: Op, v: nat)
    requires Alone(before, ops, v) && AskedBy(op, v)
    ensures Alone(before, ops + [op], v)
  {
    var more := ops + [op];
    assert forall i :: |before| < i < |more| ==> more[i] == if i < |ops| then ops[i] else op;
  }

  /** The others ask for nothing. */
  ghost predicate Undisturbed(schedule: nat -> seq<Op>) {
    forall n :: schedule(n) == []
  }

  // ---- Conflicts ----

  predicate KeyOfTable(name: Bytes, k: Bytes) {
    k == TableKey(name) || RowPrefix(name) <= k
  }

  ghost predicate ClashesAt(ops: seq<Op>, i: nat, v: nat, name: Bytes) {
    && i < |ops| && WritesFor(ops[i], v) && KeyOfTable(name, ops[i].a.k)
    && v in At(ops[..i]).live && SpecConflict(At(ops[..i]), v, ops[i].a.k)
  }

  /** Some write of v to the table or its rows met a conflict. */
  ghost predicate Clashed(ops: seq<Op>, v: nat, name: Bytes) {
    exists i: nat :: ClashesAt(ops, i, v, name)
  }

  lemma JustClashed(ops: seq<Op>, v: nat, k: Bytes, value: Option<Bytes>, name: Bytes)
    requires KeyOfTable(name, k) && v in At(ops).live && SpecConflict(At(ops), v, k)
    ensures Clashed(ops + [Do(Write(v, k, value))], v, name)
  {
    var more := ops + [Do(Write(v, k, value))];
    assert more[..|ops|] == ops;
    assert ClashesAt(more, |ops|, v, name);
  }

  /** The answer to a write of the row layer to the table tells whether it became part of the transaction's writes. */
  lemma WriteAnswered(
    c: Codec, before: seq<Op>, ops: seq<Op>, v: nat, snapshot: View, writes: WriteSet, k: Bytes, value: Option<Bytes>,
    name: Bytes)
    requires Attached(c, before, ops, v, snapshot, writes) && RowWrite(c, Overlay(snapshot, writes), k, value)
    requires KeyOfTable(name, k)
    ensures var op := Do(Write(v, k, value));
            if SpecAnswer(At(ops), op) == WriteConflict then
              Attached(c, before, ops + [op], v, snapshot, writes) && Clashed(ops + [op], v, name)
            else
              Attached(c, before, ops + [op], v, snapshot, writes[k := value])
  {
    AttachedWrite(c, before, ops, v, snapshot, writes, k, value);
    if SpecConflict(At(ops), v, k) {
      JustClashed(ops, v, k, value, name);
    }
  }

  lemma ClashedStays(ops: seq<Op>, ops': seq<Op>, v: nat, name: Bytes)
    requires Clashed(ops, v, name) && ops <= ops'
    ensures Clashed(ops', v, name)
  {
    var i: nat :| ClashesAt(ops, i, v, name);
    assert ops'[..i] == ops[..i];
    assert ClashesAt(ops', i, v, name);
  }
}
