/** Sequences laid end to end, and the smaller of two lengths. */
module Sequences {

  function Least(a: nat, b: nat): nat { if a < b then a else b }

  function Flat<T>(chunks: seq<seq<T>>): seq<T>
  {
    if chunks == [] then [] else chunks[0] + Flat(chunks[1..])
  }

  lemma Assoc<T>(a: seq<T>, b: seq<T>, c: seq<T>)
    ensures (a + b) + c == a + (b + c)
  {
  }

  lemma TakeBoth<T>(d: seq<T>, m: nat, n: nat)
    requires m + n <= |d|
    ensures d[..m] + d[m..][..n] == d[..m + n]
  {
  }

  /** What is in a sequence with x put in front. */
  lemma InFront<T>(x: T, xs: seq<T>)
    ensures forall y :: y in [x] + xs <==> y == x || y in xs
  {
    var all := [x] + xs;
    assert all[0] == x;
    forall y | y in xs
      ensures y in all
    {
      var i :| 0 <= i < |xs| && xs[i] == y;
      assert all[i + 1] == y;
    }
    forall y | y in all && y != x
      ensures y in xs
    {
      var i :| 0 <= i < |all| && all[i] == y;
      assert xs[i - 1] == y;
    }
  }

  lemma LastAmong<T>(xs: seq<T>)
    requires xs != []
    ensures xs[|xs| - 1] in xs && forall x :: x in xs <==> x in xs[..|xs| - 1] || x == xs[|xs| - 1]
  {
    assert xs == xs[..|xs| - 1] + [xs[|xs| - 1]];
  }

  /** A sequence without repetitions is as long as the set of its elements is large. */
  lemma {:induction false} CountDistinct<T>(xs: seq<T>, all: set<T>)
    requires forall i, j :: 0 <= i < j < |xs| ==> xs[i] != xs[j]
    requires forall x :: x in xs <==> x in all
    ensures |xs| == |all|
  {
    if xs == [] {
      assert all == {};
    } else {
      var last := xs[|xs| - 1];
      LastAmong(xs);
      assert last !in xs[..|xs| - 1];
      CountDistinct(xs[..|xs| - 1], all - {last});
    }
  }

  lemma {:induction false} FlatConcat<T>(a: seq<seq<T>>, b: seq<seq<T>>)
    ensures Flat(a + b) == Flat(a) + Flat(b)
  {
    if a == [] {
      assert a + b == b;
    } else {
      FlatConcat(a[1..], b);
      assert (a + b)[1..] == a[1..] + b;
      Assoc(a[0], Flat(a[1..]), Flat(b));
    }
  }

  lemma FlatOne<T>(c: seq<T>)
    ensures Flat([c]) == c
  {
    assert [c][1..] == [];
  }
}
