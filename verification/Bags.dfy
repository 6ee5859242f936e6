/** Concatenating a list for each element of a list, when the order of the results does not matter. */
module Bags {
  function FlatMap<A, B>(s: seq<A>, f: A -> seq<B>): seq<B> {
    if s == [] then [] else FlatMap(s[..|s| - 1], f) + f(s[|s| - 1])
  }

  ghost function Bag<A, B>(s: seq<A>, f: A -> seq<B>): multiset<B> {
    multiset(FlatMap(s, f))
  }

  lemma Snoc<A, B>(s: seq<A>, x: A, f: A -> seq<B>)
    ensures FlatMap(s + [x], f) == FlatMap(s, f) + f(x)
  {
    assert (s + [x])[..|s|] == s;
  }

  lemma {:induction false} Append<A, B>(s: seq<A>, t: seq<A>, f: A -> seq<B>)
    ensures FlatMap(s + t, f) == FlatMap(s, f) + FlatMap(t, f)
  {
    if t == [] {
      assert s + t == s;
    } else {
      var init, x := t[..|t| - 1], t[|t| - 1];
      Append(s, init, f);
      assert t == init + [x];
      AppendSnoc(s, init, x, f);
    }
  }

  lemma AppendSnoc<A, B>(s: seq<A>, init: seq<A>, x: A, f: A -> seq<B>)
    requires FlatMap(s + init, f) == FlatMap(s, f) + FlatMap(init, f)
    ensures FlatMap(s + (init + [x]), f) == FlatMap(s, f) + FlatMap(init + [x], f)
  {
    calc {
      FlatMap(s + (init + [x]), f);
      { assert s + (init + [x]) == (s + init) + [x]; }
      FlatMap((s + init) + [x], f);
      { Snoc(s + init, x, f); }
      (FlatMap(s, f) + FlatMap(init, f)) + f(x);
      FlatMap(s, f) + (FlatMap(init, f) + f(x));
      { Snoc(init, x, f); }
      FlatMap(s, f) + FlatMap(init + [x], f);
    }
  }

  /** Only the bag of the elements matters for the bag of the results. */
  lemma {:induction false} Reordered<A, B>(s: seq<A>, t: seq<A>, f: A -> seq<B>)
    requires multiset(s) == multiset(t)
    ensures Bag(s, f) == Bag(t, f)
  {
    if s == [] {
      assert |multiset(t)| == 0;
    } else {
      var init, x := s[..|s| - 1], s[|s| - 1];
      assert s == init + [x];
      assert x in multiset(t);
      var i :| 0 <= i < |t| && t[i] == x;
      var rest := t[..i] + t[i + 1..];
      WithoutOne(t, i);
      assert multiset(s) == multiset(init) + multiset{x};
      assert multiset(init) == multiset(s) - multiset{x} && multiset(rest) == multiset(t) - multiset{x};
      Reordered(init, rest, f);
      Removed(t, i, f);
    }
  }

  lemma WithoutOne<A>(t: seq<A>, i: nat)
    requires i < |t|
    ensures multiset(t) == multiset(t[..i] + t[i + 1..]) + multiset{t[i]}
  {
    assert t == t[..i] + [t[i]] + t[i + 1..];
  }

  lemma Removed<A, B>(t: seq<A>, i: nat, f: A -> seq<B>)
    requires i < |t|
    ensures Bag(t, f) == Bag(t[..i] + t[i + 1..], f) + multiset(f(t[i]))
  {
    assert t == t[..i] + [t[i]] + t[i + 1..];
    Append(t[..i] + [t[i]], t[i + 1..], f);
    Snoc(t[..i], t[i], f);
    Append(t[..i], t[i + 1..], f);
  }

  lemma {:induction false} Plus<A, B>(s: seq<A>, f: A -> seq<B>, g: A -> seq<B>, h: A -> seq<B>)
    requires forall x :: x in s ==> multiset(h(x)) == multiset(f(x)) + multiset(g(x))
    ensures Bag(s, h) == Bag(s, f) + Bag(s, g)
  {
    if s != [] {
      Plus(s[..|s| - 1], f, g, h);
    }
  }

  function Across<A, B, C>(cell: (A, B) -> seq<C>, a: A): B -> seq<C> {
    b => cell(a, b)
  }

  function Down<A, B, C>(cell: (A, B) -> seq<C>, b: B): A -> seq<C> {
    a => cell(a, b)
  }

  /** Two nested loops may be exchanged. */
  lemma {:induction false} Exchange<A, B, C>(
    s: seq<A>, t: seq<B>, row: A -> seq<C>, column: B -> seq<C>, cell: (A, B) -> seq<C>)
    requires forall a :: a in s ==> row(a) == FlatMap(t, Across(cell, a))
    requires forall b :: b in t ==> column(b) == FlatMap(s, Down(cell, b))
    ensures Bag(s, row) == Bag(t, column)
  {
    if s == [] {
      NoResults(t, column);
    } else {
      var init, x := s[..|s| - 1], s[|s| - 1];
      var rest := b => FlatMap(init, Down(cell, b));
      Exchange(init, t, row, rest, cell);
      Plus(t, rest, Across(cell, x), column);
    }
  }

  lemma {:induction false} NoResults<A, B>(s: seq<A>, f: A -> seq<B>)
    requires forall x :: x in s ==> f(x) == []
    ensures FlatMap(s, f) == []
  {
    if s != [] {
      NoResults(s[..|s| - 1], f);
    }
  }

  function Mapped<A, B>(s: seq<A>, g: A -> B): (t: seq<B>)
    ensures |t| == |s| && forall i :: 0 <= i < |s| ==> t[i] == g(s[i])
  {
    seq(|s|, i requires 0 <= i < |s| => g(s[i]))
  }

  lemma {:induction false} AfterMap<A, B, C>(s: seq<A>, g: A -> B, f: B -> seq<C>, fg: A -> seq<C>)
    requires forall x :: x in s ==> fg(x) == f(g(x))
    ensures FlatMap(Mapped(s, g), f) == FlatMap(s, fg)
  {
    if s != [] {
      var init, x := s[..|s| - 1], s[|s| - 1];
      AfterMap(init, g, f, fg);
      assert Mapped(s, g) == Mapped(init, g) + [g(x)];
      Snoc(Mapped(init, g), g(x), f);
    }
  }

  lemma {:induction false} BeforeMap<A, B, C>(s: seq<A>, f: A -> seq<B>, g: B -> C, gf: A -> seq<C>)
    requires forall x :: x in s ==> gf(x) == Mapped(f(x), g)
    ensures Mapped(FlatMap(s, f), g) == FlatMap(s, gf)
  {
    if s != [] {
      BeforeMap(s[..|s| - 1], f, g, gf);
    }
  }

  lemma {:induction false} SameResults<A, B>(s: seq<A>, f: A -> seq<B>, g: A -> seq<B>)
    requires forall x :: x in s ==> f(x) == g(x)
    ensures FlatMap(s, f) == FlatMap(s, g)
  {
    if s != [] {
      SameResults(s[..|s| - 1], f, g);
    }
  }

  lemma MappedConcat<A, B>(s: seq<A>, t: seq<A>, g: A -> B)
    ensures Mapped(s + t, g) == Mapped(s, g) + Mapped(t, g)
  {
  }
}
