/** A batch of row moves: done one after another, and what that is when done at once. */
module Moves {
  import opened ByteStrings
  import opened SnapshotIsolation
  import opened RowStores
  import opened LogRoom

  /** A row taken from one key, or from nowhere, and put under another. */
  datatype Move = Move(from: Option<Bytes>, to: Bytes, value: Bytes)

  /** A log on disk has no room for one of its two writes. */
  predicate Oversized(m: Move) {
    (m.from.Some? && !Roomy(m.from.value, None)) || !Roomy(m.to, Some(m.value))
  }

  ghost function Froms(ms: seq<Move>): set<Bytes> {
    set i | 0 <= i < |ms| && ms[i].from.Some? :: ms[i].from.value
  }

  ghost function Placed(ms: seq<Move>): View {
    if ms == [] then map[] else Placed(ms[..|ms| - 1])[ms[|ms| - 1].to := ms[|ms| - 1].value]
  }

  /** All the moves at once. */
  ghost function Moved(view: View, ms: seq<Move>): View {
    (view - Froms(ms)) + Placed(ms)
  }

  ghost predicate DistinctFroms(ms: seq<Move>) {
    forall i, j :: 0 <= i < j < |ms| && ms[i].from.Some? ==> ms[i].from != ms[j].from
  }

  ghost predicate DistinctTos(ms: seq<Move>) {
    forall i, j :: 0 <= i < j < |ms| ==> ms[i].to != ms[j].to
  }

  ghost predicate LandsFree(view: View, froms: set<Bytes>, ms: seq<Move>) {
    forall i :: 0 <= i < |ms| && ms[i].to in view ==> ms[i].to in froms
  }

  /** The moves start at distinct keys of the view, and end at distinct keys that are free once all have left. */
  ghost predicate Clean(view: View, ms: seq<Move>) {
    Froms(ms) <= view.Keys && DistinctFroms(ms) && DistinctTos(ms) && LandsFree(view, Froms(ms), ms)
  }

  ghost function Tos(ms: seq<Move>): set<Bytes> {
    set i | 0 <= i < |ms| :: ms[i].to
  }

  lemma TosStep(ms: seq<Move>, m: Move)
    ensures Tos(ms + [m]) == Tos(ms) + {m.to}
  {
    var all := ms + [m];
    assert all[|ms|].to == m.to;
    forall k | k in Tos(ms)
      ensures k in Tos(all)
    {
      var i :| 0 <= i < |ms| && ms[i].to == k;
      assert all[i].to == k;
    }
  }

  lemma {:induction false} PlacedKeys(ms: seq<Move>)
    ensures Placed(ms).Keys == Tos(ms)
    ensures DistinctTos(ms) ==> |Placed(ms)| == |ms|
  {
    if ms != [] {
      var init, last := ms[..|ms| - 1], ms[|ms| - 1];
      PlacedKeys(init);
      TosStep(init, last);
      assert init + [last] == ms;
      assert Placed(ms).Keys == Placed(init).Keys + {last.to};
      assert DistinctTos(ms) ==> last.to !in Tos(init);
    }
  }

  lemma {:induction false} PlacedAt(ms: seq<Move>, i: nat)
    requires i < |ms| && DistinctTos(ms)
    ensures ms[i].to in Placed(ms) && Placed(ms)[ms[i].to] == ms[i].value
  {
    if i < |ms| - 1 {
      PlacedAt(ms[..|ms| - 1], i);
    }
  }

  lemma FromsStep(ms: seq<Move>, m: Move)
    ensures Froms(ms + [m]) == Froms(ms) + if m.from.Some? then {m.from.value} else {}
  {
    var all := ms + [m];
    forall k
      ensures k in Froms(all) <==> k in Froms(ms) + if m.from.Some? then {m.from.value} else {}
    {
      if k in Froms(ms) {
        var i :| 0 <= i < |ms| && ms[i].from == Some(k);
        assert all[i].from == Some(k);
      }
      if m.from == Some(k) {
        assert all[|ms|].from == Some(k);
      }
    }
  }

  ghost predicate Movable(view: View, ms: seq<Move>, m: Move) {
    && (m.from.Some? ==> m.from.value in view && m.from.value !in Froms(ms))
    && (m.from == Some(m.to) || m.to !in Moved(view, ms))
  }

  lemma OtherMoves(view: View, ms: seq<Move>, m: Move)
    requires Clean(view, ms) && Movable(view, ms, m)
    ensures m.to !in Placed(ms) && (m.from.Some? ==> m.from.value !in Placed(ms))
    ensures forall i :: 0 <= i < |ms| ==> ms[i].to != m.to && (ms[i].from.Some? ==> ms[i].from != m.from)
  {
    PlacedKeys(ms);
    assert forall i :: 0 <= i < |ms| ==> ms[i].to in Tos(ms);
    assert forall i :: 0 <= i < |ms| && ms[i].from.Some? ==> ms[i].from.value in Froms(ms);
  }

  lemma PlaceOne(view: View, froms: set<Bytes>, placed: View, m: Move)
    requires m.from.Some? ==> m.from.value !in placed
    ensures var now := (view - froms) + placed;
            (view - (froms + if m.from.Some? then {m.from.value} else {})) + placed[m.to := m.value] ==
            (if m.from.Some? then now - {m.from.value} else now)[m.to := m.value]
  {
  }

  /** One more move, made on the result of the ones before it. */
  lemma MoveStep(view: View, ms: seq<Move>, m: Move)
    requires Clean(view, ms) && Movable(view, ms, m)
    ensures Clean(view, ms + [m])
    ensures Moved(view, ms + [m]) ==
            (if m.from.Some? then Moved(view, ms) - {m.from.value} else Moved(view, ms))[m.to := m.value]
  {
    OtherMoves(view, ms, m);
    FromsStep(ms, m);
    PlaceOne(view, Froms(ms), Placed(ms), m);
    assert (ms + [m])[..|ms|] == ms;
    CleanStep(view, ms, m);
  }

  lemma CleanStep(view: View, ms: seq<Move>, m: Move)
    requires Clean(view, ms) && Movable(view, ms, m)
    requires forall i :: 0 <= i < |ms| ==> ms[i].to != m.to && (ms[i].from.Some? ==> ms[i].from != m.from)
    ensures Clean(view, ms + [m])
  {
    FromsStep(ms, m);
    assert m.to in view ==> m.to in Froms(ms + [m]);
  }

  /** If all moves have the same target, a target in use is never going to be free. */
  lemma TargetInUse(view: View, ms: seq<Move>, i: nat)
    requires i < |ms| && Clean(view, ms[..i]) && ms[i].from != Some(ms[i].to) && ms[i].to in Moved(view, ms[..i])
    requires forall j :: 0 <= j < |ms| && ms[j].from.Some? ==> ms[j].to == ms[i].to
    ensures !Clean(view, ms)
  {
    PlacedKeys(ms[..i]);
    if ms[i].to in Placed(ms[..i]) {
      var j :| 0 <= j < i && ms[..i][j].to == ms[i].to;
      assert !DistinctTos(ms);
    } else if ms[i].to in Froms(ms) {
      var j :| 0 <= j < |ms| && ms[j].from == Some(ms[i].to);
      assert ms[j].to == ms[i].to;
      assert !DistinctTos(ms);
    }
  }

  /** Both ends of every move have been written. */
  ghost predicate AllWritten(writes: WriteSet, ms: seq<Move>) {
    forall i :: 0 <= i < |ms| ==> ms[i].to in writes && (ms[i].from.Some? ==> ms[i].from.value in writes)
  }

  lemma AllWrittenStep(writes: WriteSet, more: WriteSet, ms: seq<Move>, m: Move)
    requires AllWritten(writes, ms) && writes.Keys <= more.Keys
    requires m.to in more && (m.from.Some? ==> m.from.value in more)
    ensures AllWritten(more, ms + [m])
  {
    assert forall k :: k in writes ==> k in more;
  }
}
