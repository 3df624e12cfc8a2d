/** What the walks over a tree list, count and find, stated on the value of the tree. */
module TrieListing {
  import opened Prefixes
  import opened Trie
  import opened TrieInsertion
  import opened TrieSteps

  ghost predicate Good(v: Version, s: State)
  {
    Ok(v, s.M, s.K, s.h)
  }

  /** A node of s, or null. */
  ghost predicate At(s: State, n: Node?)
  {
    n != null ==> n in s.K
  }

  ghost function Room(v: Version, s: State, n: Node?): nat
    requires Good(v, s) && At(s, n)
  {
    if n == null then 0 else Width(v) + 1 - |s.K[n]|
  }

  lemma Descent(v: Version, s: State, n: Node, b: bool)
    requires Good(v, s) && n in s.K
    ensures At(s, s.M[n].Child(b)) && Room(v, s, s.M[n].Child(b)) < Room(v, s, n)
    ensures s.M[n].Child(b) != null ==> Below(s.K[n], b, s.K[s.M[n].Child(b)])
  {
    assert LinkedAt(s.M, s.K, n, b);
  }

  /** add_more_specifics: node before left before right, at most depth labelled nodes deep. */
  ghost function Listing(v: Version, s: State, n: Node?, depth: nat): seq<Node>
    requires Good(v, s) && At(s, n)
    decreases Room(v, s, n)
  {
    if n == null || depth == 0 then []
    else
      Descent(v, s, n, false);
      Descent(v, s, n, true);
      var here := if Real(s.M, n) then [n] else [];
      var d := depth - |here|;
      here + Listing(v, s, s.M[n].l, d) + Listing(v, s, s.M[n].r, d)
  }

  lemma ListingUnfolded(v: Version, s: State, n: Node, depth: nat, d: nat)
    requires Good(v, s) && n in s.K && depth > 0 && d == if Real(s.M, n) then depth - 1 else depth
    ensures At(s, s.M[n].l) && At(s, s.M[n].r)
    ensures Listing(v, s, n, depth)
      == (if Real(s.M, n) then [n] else []) + Listing(v, s, s.M[n].l, d) + Listing(v, s, s.M[n].r, d)
  {
    Descent(v, s, n, false);
    Descent(v, s, n, true);
  }

  /** The labelled nodes between n and m, both included. */
  ghost function Between(s: State, n: Node, m: Node): set<Node>
    requires n in s.K && m in s.K
  {
    set x | x in s.K && Real(s.M, x) && s.K[n] <= s.K[x] <= s.K[m]
  }

  /** m lies in the subtree of n. */
  ghost predicate InSubtree(s: State, n: Node?, m: Node)
    requires At(s, n)
  {
    n != null && m in s.K && s.K[n] <= s.K[m]
  }

  /** A node's subtree is itself and the subtrees of its children, which do not meet. */
  lemma SubtreeSplit(v: Version, s: State, n: Node, m: Node)
    requires Good(v, s) && n in s.K
    ensures At(s, s.M[n].l) && At(s, s.M[n].r)
    ensures InSubtree(s, n, m) <==> m == n || InSubtree(s, s.M[n].l, m) || InSubtree(s, s.M[n].r, m)
    ensures InSubtree(s, s.M[n].l, m) ==> m != n && Below(s.K[n], false, s.K[m])
    ensures InSubtree(s, s.M[n].r, m) ==> m != n && Below(s.K[n], true, s.K[m])
  {
    Descent(v, s, n, false);
    Descent(v, s, n, true);
    if InSubtree(s, n, m) && m != n {
      assert |s.K[n]| < |s.K[m]|;
      assert CompleteAt(s.M, s.K, n, s.K[m][|s.K[n]|], m);
    }
  }

  lemma BetweenBelow(v: Version, s: State, n: Node, c: Node, m: Node, x: Node)
    requires Good(v, s) && n in s.K && (s.M[n].l == c || s.M[n].r == c) && c in s.K && InSubtree(s, c, m)
    requires x in Between(s, n, m) && x != n
    ensures x in Between(s, c, m)
  {
    var b := s.M[n].r == c;
    Descent(v, s, n, b);
    assert |s.K[n]| < |s.K[x]|;
    assert CompleteAt(s.M, s.K, n, b, x);
  }

  lemma BetweenStep(v: Version, s: State, n: Node, c: Node, m: Node)
    requires Good(v, s) && n in s.K && (s.M[n].l == c || s.M[n].r == c) && c in s.K && InSubtree(s, c, m)
    ensures m in s.K && Between(s, n, m) == Between(s, c, m) + (if Real(s.M, n) then {n} else {})
    ensures n !in Between(s, c, m)
  {
    Descent(v, s, n, s.M[n].r == c);
    BetweenParent(s, n, c, m);
    forall x | x in Between(s, n, m) && x != n
      ensures x in Between(s, c, m)
    {
      BetweenBelow(v, s, n, c, m, x);
    }
  }

  /** From a node above c there is no less in between. */
  lemma BetweenParent(s: State, n: Node, c: Node, m: Node)
    requires n in s.K && c in s.K && m in s.K && |s.K[n]| < |s.K[c]| && s.K[n] <= s.K[c] <= s.K[m]
    ensures Between(s, c, m) <= Between(s, n, m) && n !in Between(s, c, m)
    ensures n in Between(s, n, m) <==> Real(s.M, n)
  {
  }

  /** Exactly the labelled nodes of the subtree, down to the given number of labelled levels. */
  lemma {:induction false} ListingMembers(v: Version, s: State, n: Node?, depth: nat, m: Node)
    requires Good(v, s) && At(s, n)
    ensures m in Listing(v, s, n, depth) <==> Reached(s, n, m, depth)
    decreases Room(v, s, n)
  {
    if n == null {
    } else if depth == 0 {
      if InSubtree(s, n, m) && Real(s.M, m) {
        assert m in Between(s, n, m);
      }
    } else {
      Descent(v, s, n, false);
      Descent(v, s, n, true);
      var d := if Real(s.M, n) then depth - 1 else depth;
      ListingMembers(v, s, s.M[n].l, d, m);
      ListingMembers(v, s, s.M[n].r, d, m);
      LevelsStep(v, s, n, depth, m);
      ListingUnfolded(v, s, n, depth, d);
      assert m in Listing(v, s, n, depth) <==>
        (Real(s.M, n) && m == n) || m in Listing(v, s, s.M[n].l, d) || m in Listing(v, s, s.M[n].r, d);
    }
  }

  /** Being at most depth labelled levels down, from a node and from its children. */
  ghost predicate Reached(s: State, n: Node?, m: Node, depth: nat)
    requires At(s, n)
  {
    InSubtree(s, n, m) && Real(s.M, m) && |Between(s, n, m)| <= depth
  }

  lemma LevelsStep(v: Version, s: State, n: Node, depth: nat, m: Node)
    requires Good(v, s) && n in s.K && depth > 0
    ensures At(s, s.M[n].l) && At(s, s.M[n].r)
    ensures var d := if Real(s.M, n) then depth - 1 else depth;
      Reached(s, n, m, depth) <==> (Real(s.M, n) && m == n) || Reached(s, s.M[n].l, m, d) || Reached(s, s.M[n].r, m, d)
  {
    SubtreeSplit(v, s, n, m);
    var l, r := s.M[n].l, s.M[n].r;
    if InSubtree(s, l, m) {
      BetweenStep(v, s, n, l, m);
    } else if InSubtree(s, r, m) {
      BetweenStep(v, s, n, r, m);
    } else if m == n && Real(s.M, n) {
      assert Between(s, n, n) == {n};
    }
  }

  /** Ascending address order, a shorter prefix before the longer ones inside it. */
  ghost predicate KeyLess(a: Key, b: Key)
  {
    (a <= b && a != b) || exists d :: 0 <= d < |a| && d < |b| && a[..d] == b[..d] && !a[d] && b[d]
  }

  ghost predicate Ascending(s: State, ns: seq<Node>)
  {
    (forall n :: n in ns ==> n in s.K)
    && forall i, j :: 0 <= i < j < |ns| ==> KeyLess(s.K[ns[i]], s.K[ns[j]])
  }

  lemma SidesOrdered(a: Key, x: Key, y: Key)
    requires Below(a, false, x) && Below(a, true, y)
    ensures KeyLess(x, y)
  {
    var d := |a|;
    assert x[..d] == y[..d];
  }

  lemma KeyLessAsymmetric(a: Key, b: Key)
    requires KeyLess(a, b)
    ensures !KeyLess(b, a) && a != b
  {
  }

  lemma SameFirst(s: State, xs: seq<Node>, ys: seq<Node>)
    requires Ascending(s, xs) && Ascending(s, ys) && xs != [] && forall n :: n in xs <==> n in ys
    ensures ys != [] && xs[0] == ys[0]
  {
    assert xs[0] in ys && ys[0] in xs;
    var i :| 0 <= i < |xs| && xs[i] == ys[0];
    var j :| 0 <= j < |ys| && ys[j] == xs[0];
    if 0 < i && 0 < j {
      KeyLessAsymmetric(s.K[xs[0]], s.K[xs[i]]);
    }
  }

  /** There is only one ascending listing of given nodes. */
  lemma {:induction false} AscendingUnique(s: State, xs: seq<Node>, ys: seq<Node>)
    requires Ascending(s, xs) && Ascending(s, ys) && forall n :: n in xs <==> n in ys
    ensures xs == ys
  {
    if xs != [] {
      SameFirst(s, xs, ys);
      forall n
        ensures n in xs[1..] <==> n in xs && n != xs[0]
        ensures n in ys[1..] <==> n in ys && n != ys[0]
      {
        NotFirst(s, xs, n);
        NotFirst(s, ys, n);
      }
      AscendingUnique(s, xs[1..], ys[1..]);
      assert xs == [xs[0]] + xs[1..] && ys == [ys[0]] + ys[1..];
    }
    if ys != [] {
      assert ys[0] in xs;
    }
  }

  lemma NotFirst(s: State, xs: seq<Node>, n: Node)
    requires Ascending(s, xs) && xs != []
    ensures n in xs[1..] <==> n in xs && n != xs[0]
  {
    if n in xs[1..] {
      var i :| 1 <= i < |xs| && xs[i] == n;
      KeyLessAsymmetric(s.K[xs[0]], s.K[xs[i]]);
    }
  }

  ghost predicate AllBefore(s: State, xs: seq<Node>, ys: seq<Node>)
  {
    forall x, y :: x in xs && y in ys ==> x in s.K && y in s.K && KeyLess(s.K[x], s.K[y])
  }

  lemma AscendingConcat(s: State, xs: seq<Node>, ys: seq<Node>)
    requires Ascending(s, xs) && Ascending(s, ys) && AllBefore(s, xs, ys)
    ensures Ascending(s, xs + ys)
  {
  }

  lemma ListingSide(v: Version, s: State, n: Node, b: bool, depth: nat)
    requires Good(v, s) && n in s.K
    ensures At(s, s.M[n].Child(b))
    ensures forall x :: x in Listing(v, s, s.M[n].Child(b), depth) ==> x in s.K && Below(s.K[n], b, s.K[x])
  {
    Descent(v, s, n, b);
    forall x | x in Listing(v, s, s.M[n].Child(b), depth)
      ensures x in s.K && Below(s.K[n], b, s.K[x])
    {
      ListingMembers(v, s, s.M[n].Child(b), depth, x);
      SubtreeSplit(v, s, n, x);
    }
  }

  /** A node, its left listing and its right listing are in order. */
  lemma InOrder(s: State, n: Node, here: seq<Node>, left: seq<Node>, right: seq<Node>)
    requires n in s.K && here in {[], [n]} && Ascending(s, left) && Ascending(s, right)
    requires forall x :: x in left ==> x in s.K && Below(s.K[n], false, s.K[x])
    requires forall y :: y in right ==> y in s.K && Below(s.K[n], true, s.K[y])
    ensures Ascending(s, here + left + right)
  {
    AscendingConcat(s, here, left);
    forall x, y | x in here + left && y in right
      ensures KeyLess(s.K[x], s.K[y])
    {
      if x in left {
        SidesOrdered(s.K[n], s.K[x], s.K[y]);
      }
    }
    AscendingConcat(s, here + left, right);
  }

  lemma {:induction false} ListingAscending(v: Version, s: State, n: Node?, depth: nat)
    requires Good(v, s) && At(s, n)
    ensures Ascending(s, Listing(v, s, n, depth))
    decreases Room(v, s, n)
  {
    if n != null && depth != 0 {
      Descent(v, s, n, false);
      Descent(v, s, n, true);
      var d := if Real(s.M, n) then depth - 1 else depth;
      ListingAscending(v, s, s.M[n].l, d);
      ListingAscending(v, s, s.M[n].r, d);
      ListingSide(v, s, n, false, d);
      ListingSide(v, s, n, true, d);
      ListingUnfolded(v, s, n, depth, d);
      InOrder(s, n, if Real(s.M, n) then [n] else [], Listing(v, s, s.M[n].l, d), Listing(v, s, s.M[n].r, d));
    }
  }

  // ---------- the depth bound of 129 never cuts a listing short ----------

  /** Nodes on one path have different lengths, so there are at most as many as lengths. */
  lemma {:induction false} ChainBound(K: Keys, chain: set<Node>, top: Key, from: nat)
    requires Distinct(K) && from <= |top| + 1
    requires forall x :: x in chain ==> x in K && K[x] <= top && from <= |K[x]|
    ensures |chain| <= |top| + 1 - from
    decreases |top| + 1 - from
  {
    if from == |top| + 1 {
      assert chain == {};
    } else if x: Node :| x in chain && |K[x]| == from {
      forall y | y in chain - {x}
        ensures from + 1 <= |K[y]|
      {
        assert K[y][..from] == top[..from] == K[x];
      }
      ChainBound(K, chain - {x}, top, from + 1);
    } else {
      ChainBound(K, chain, top, from + 1);
    }
  }

  lemma DepthEnough(v: Version, s: State, n: Node, m: Node)
    requires Good(v, s) && n in s.K && InSubtree(s, n, m)
    ensures |Between(s, n, m)| <= Width(v) + 1 <= 129
  {
    ChainBound(s.K, Between(s, n, m), s.K[m], 0);
  }

  /** get_more_specifics lists exactly the stored prefixes strictly inside node, ascending. */
  lemma MoreSpecificsExact(v: Version, s: State, node: Node)
    requires Good(v, s) && node in s.K
    ensures At(s, s.M[node].l) && At(s, s.M[node].r)
    ensures var found := Listing(v, s, s.M[node].l, 129) + Listing(v, s, s.M[node].r, 129);
      && Ascending(s, found)
      && forall m :: m in found <==> m in s.K && Real(s.M, m) && s.K[node] <= s.K[m] && m != node
  {
    Descent(v, s, node, false);
    Descent(v, s, node, true);
    var l, r := s.M[node].l, s.M[node].r;
    ListingAscending(v, s, l, 129);
    ListingAscending(v, s, r, 129);
    forall m
      ensures m in Listing(v, s, l, 129) <==> InSubtree(s, l, m) && Real(s.M, m)
      ensures m in Listing(v, s, r, 129) <==> InSubtree(s, r, m) && Real(s.M, m)
    {
      ListingMembers(v, s, l, 129, m);
      ListingMembers(v, s, r, 129, m);
      if InSubtree(s, l, m) {
        DepthEnough(v, s, l, m);
      }
      if InSubtree(s, r, m) {
        DepthEnough(v, s, r, m);
      }
    }
    forall m
      ensures InSubtree(s, node, m) <==> m == node || InSubtree(s, l, m) || InSubtree(s, r, m)
      ensures InSubtree(s, l, m) ==> m != node && Below(s.K[node], false, s.K[m])
      ensures InSubtree(s, r, m) ==> m != node && Below(s.K[node], true, s.K[m])
    {
      SubtreeSplit(v, s, node, m);
    }
    forall x, y | x in Listing(v, s, l, 129) && y in Listing(v, s, r, 129)
      ensures KeyLess(s.K[x], s.K[y])
    {
      SidesOrdered(s.K[node], s.K[x], s.K[y]);
    }
    AscendingConcat(s, Listing(v, s, l, 129), Listing(v, s, r, 129));
  }

  lemma Larger<T>(a: set<T>, b: set<T>)
    requires a <= b
    ensures |a| <= |b|
  {
    assert b == a + (b - a);
  }

  /** get_minimum_coverage lists exactly the stored prefixes with no other stored prefix above
      them, ascending. */
  lemma MinimumCoverageExact(v: Version, s: State)
    requires Good(v, s)
    ensures At(s, s.h) && Ascending(s, Listing(v, s, s.h, 1))
    ensures forall m :: m in Listing(v, s, s.h, 1) <==>
      m in s.K && Real(s.M, m) && forall k :: k in Stored(s.M, s.K) && k <= s.K[m] ==> k == s.K[m]
  {
    ListingAscending(v, s, s.h, 1);
    forall m
      ensures m in Listing(v, s, s.h, 1) <==>
        m in s.K && Real(s.M, m) && forall k :: k in Stored(s.M, s.K) && k <= s.K[m] ==> k == s.K[m]
    {
      ListingMembers(v, s, s.h, 1, m);
      if m in s.K && Real(s.M, m) {
        var chain := Between(s, s.h, m);
        assert m in chain;
        if chain == {m} {
          forall k | k in Stored(s.M, s.K) && k <= s.K[m]
            ensures k == s.K[m]
          {
            var x :| x in s.K && Real(s.M, x) && s.K[x] == k;
            assert x in chain;
          }
        } else {
          var x: Node :| x in chain && x != m;
          Larger({x, m}, chain);
          assert s.K[x] in Stored(s.M, s.K) && s.K[x] != s.K[m];
        }
      }
    }
  }

  // ---------- climbing ----------

  /** add_less_specifics: the labelled nodes met while climbing from n, at most depth of them. */
  ghost function Climbing(v: Version, s: State, n: Node?, depth: nat): seq<Node>
    requires Good(v, s) && At(s, n)
    decreases if n == null then 0 else |s.K[n]| + 1
  {
    if n == null || depth == 0 then []
    else
      OnItsSide(v, s.M, s.K, s.h, n);
      if Real(s.M, n) then [n] + Climbing(v, s, s.M[n].parent, depth - 1)
      else Climbing(v, s, s.M[n].parent, depth)
  }

  lemma ClimbingUnfolded(v: Version, s: State, n: Node, depth: nat)
    requires Good(v, s) && n in s.K && depth > 0
    ensures At(s, s.M[n].parent) && Climbing(v, s, n, depth) ==
      if Real(s.M, n) then [n] + Climbing(v, s, s.M[n].parent, depth - 1) else Climbing(v, s, s.M[n].parent, depth)
  {
    OnItsSide(v, s.M, s.K, s.h, n);
  }

  /** A node is above n exactly when it is n or above its parent. */
  lemma AboveSplit(v: Version, s: State, n: Node, m: Node)
    requires Good(v, s) && n in s.K && m in s.K
    ensures At(s, s.M[n].parent)
    ensures s.K[m] <= s.K[n] <==> m == n || (s.M[n].parent != null && s.K[m] <= s.K[s.M[n].parent])
  {
    OnItsSide(v, s.M, s.K, s.h, n);
    var p := s.M[n].parent;
    if p != null {
      assert CompleteAt(s.M, s.K, p, s.M[p].r == n, m);
    }
  }

  /** Nearest first: each listed prefix is shorter than the one before. */
  ghost predicate Shortening(s: State, ns: seq<Node>)
  {
    (forall n :: n in ns ==> n in s.K)
    && forall i, j :: 0 <= i < j < |ns| ==> |s.K[ns[j]]| < |s.K[ns[i]]|
  }

  lemma {:induction false} ClimbingExact(v: Version, s: State, n: Node?, depth: nat)
    requires Good(v, s) && At(s, n)
    requires n != null ==> depth > |s.K[n]|
    ensures forall m :: m in Climbing(v, s, n, depth) <==> n != null && m in s.K && Real(s.M, m) && s.K[m] <= s.K[n]
    ensures Shortening(s, Climbing(v, s, n, depth))
    decreases if n == null then 0 else |s.K[n]| + 1
  {
    if n != null {
      OnItsSide(v, s.M, s.K, s.h, n);
      var p := s.M[n].parent;
      ClimbingExact(v, s, p, if Real(s.M, n) then depth - 1 else depth);
      forall m | m in s.K
        ensures s.K[m] <= s.K[n] <==> m == n || (p != null && s.K[m] <= s.K[p])
      {
        AboveSplit(v, s, n, m);
      }
    }
  }

  lemma {:induction false} ClimbingPrefix(v: Version, s: State, n: Node?, depth: nat, deeper: nat)
    requires Good(v, s) && At(s, n) && depth <= deeper
    ensures Climbing(v, s, n, depth)
      == Climbing(v, s, n, deeper)[..if depth < |Climbing(v, s, n, deeper)| then depth else |Climbing(v, s, n, deeper)|]
    decreases if n == null then 0 else |s.K[n]| + 1
  {
    if n != null && depth != 0 {
      OnItsSide(v, s.M, s.K, s.h, n);
      var less := if Real(s.M, n) then 1 else 0;
      ClimbingPrefix(v, s, s.M[n].parent, depth - less, deeper - less);
    }
  }

  /** get_less_specifics lists exactly the stored prefixes strictly containing node's. */
  lemma LessSpecificsExact(v: Version, s: State, node: Node)
    requires Good(v, s) && node in s.K
    ensures At(s, s.M[node].parent)
    ensures var found := Climbing(v, s, s.M[node].parent, 129);
      && Shortening(s, found)
      && forall m :: m in found <==> m in s.K && Real(s.M, m) && s.K[m] <= s.K[node] && m != node
  {
    OnItsSide(v, s.M, s.K, s.h, node);
    var p := s.M[node].parent;
    ClimbingExact(v, s, p, 129);
    forall m | m in s.K
      ensures s.K[m] <= s.K[node] <==> m == node || (p != null && s.K[m] <= s.K[p])
    {
      AboveSplit(v, s, node, m);
    }
  }

  /** m is the longest stored prefix strictly containing node's. */
  ghost predicate Nearest(s: State, node: Node, m: Node)
    requires node in s.K && m in s.K
  {
    && Real(s.M, m) && s.K[m] <= s.K[node] && m != node
    && forall x :: x in s.K && Real(s.M, x) && s.K[x] <= s.K[node] && x != node ==> |s.K[x]| <= |s.K[m]|
  }

  /** The nearest stored prefix strictly containing node's and nothing else; nothing if none does. */
  ghost predicate NearestOnly(s: State, node: Node, found: seq<Node>)
    requires node in s.K
  {
    && |found| <= 1
    && (forall m :: m in found ==> m in s.K && Nearest(s, node, m))
    && (forall m :: m in s.K && Nearest(s, node, m) ==> m in found)
  }

  lemma NearestAbove(v: Version, s: State, node: Node)
    requires Good(v, s) && node in s.K
    ensures At(s, s.M[node].parent)
    ensures NearestOnly(s, node, Climbing(v, s, s.M[node].parent, 1))
  {
    LessSpecificsExact(v, s, node);
    var all := Climbing(v, s, s.M[node].parent, 129);
    ClimbingPrefix(v, s, s.M[node].parent, 1, 129);
    if all != [] {
      forall m | m in all
        ensures |s.K[m]| <= |s.K[all[0]]|
        ensures |s.K[m]| == |s.K[all[0]]| ==> m == all[0]
      {
        var i :| 0 <= i < |all| && all[i] == m;
      }
    }
  }
}
