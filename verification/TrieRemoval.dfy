/** The cases of a removal as steps on the map, and the shape they keep. */
module TrieRemoval {
  import opened Wrappers
  import opened Prefixes
  import opened Trie
  import opened TrieInsertion

  /** A childless node goes. */
  ghost function RemoveLeaf(M: Heap, n: Node): Heap
    requires n in M && (M[n].parent != null ==> M[n].parent in M)
  {
    Redirect(M, M[n].parent, n, null) - {n}
  }

  /** A node goes and its only child c takes its place. */
  ghost function RemoveUnary(M: Heap, n: Node, c: Node): Heap
    requires n in M && c in M && (M[n].parent != null ==> M[n].parent in M && M[n].parent != c)
  {
    var p := M[n].parent;
    Redirect(M, p, n, c)[c := M[c].(parent := p)] - {n}
  }

  /** A node with both children becomes a glue node. */
  ghost function Unlabel(M: Heap, n: Node): Heap
    requires n in M
  {
    M[n := M[n].(pfx := None)]
  }

  ghost predicate Leaf(v: Version, M: Heap, K: Keys, h: Node?, n: Node)
  {
    Shaped(v, M, K, h) && n in K && M[n].l == null && M[n].r == null
  }

  lemma NothingBelowLeaf(v: Version, M: Heap, K: Keys, h: Node?, n: Node, m: Node)
    requires Leaf(v, M, K, h, n) && m in K && m != n
    ensures !(K[n] <= K[m])
  {
    if |K[n]| < |K[m]| {
      assert CompleteAt(M, K, n, K[m][|K[n]|], m);
    }
  }

  lemma LeafLinked(v: Version, M: Heap, K: Keys, h: Node?, n: Node, m: Node, b: bool)
    requires Leaf(v, M, K, h, n) && m in K && m != n
    requires M[n].parent != null ==> M[n].parent in K
    ensures RemoveLeaf(M, n).Keys == (K - {n}).Keys
    ensures LinkedAt(RemoveLeaf(M, n), K - {n}, m, b)
  {
    OnItsSide(v, M, K, h, n);
    assert LinkedAt(M, K, m, b) && LinkedAt(M, K, m, !b);
  }

  lemma LeafComplete(v: Version, M: Heap, K: Keys, h: Node?, n: Node, a: Node, b: bool, m: Node)
    requires Leaf(v, M, K, h, n) && a in K && a != n && m in K && m != n
    requires M[n].parent != null ==> M[n].parent in K
    ensures RemoveLeaf(M, n).Keys == (K - {n}).Keys
    ensures CompleteAt(RemoveLeaf(M, n), K - {n}, a, b, m)
  {
    OnItsSide(v, M, K, h, n);
    NothingBelowLeaf(v, M, K, h, n, m);
    assert CompleteAt(M, K, a, b, m);
  }

  lemma LeafParented(v: Version, M: Heap, K: Keys, h: Node?, n: Node, m: Node)
    requires Leaf(v, M, K, h, n) && m in K && m != n
    requires M[n].parent != null ==> M[n].parent in K
    ensures m in RemoveLeaf(M, n)
    ensures ParentedAt(RemoveLeaf(M, n), if n == h then null else h, m)
  {
    OnItsSide(v, M, K, h, n);
    OnItsSide(v, M, K, h, m);
    NothingBelowLeaf(v, M, K, h, n, m);
  }

  lemma LeafRooted(v: Version, M: Heap, K: Keys, h: Node?, n: Node)
    requires Leaf(v, M, K, h, n)
    requires M[n].parent != null ==> M[n].parent in K
    ensures RemoveLeaf(M, n).Keys == (K - {n}).Keys
    ensures Rooted(RemoveLeaf(M, n), K - {n}, if n == h then null else h)
  {
    OnItsSide(v, M, K, h, n);
    if n == h {
      forall m | m in K
        ensures m == n
      {
        if m != n {
          NothingBelowLeaf(v, M, K, h, n, m);
        }
      }
      assert K - {n} == map[];
    }
  }

  lemma RemoveLeafShaped(v: Version, M: Heap, K: Keys, h: Node?, n: Node)
    requires Leaf(v, M, K, h, n)
    ensures M[n].parent != null ==> M[n].parent in M
    ensures Shaped(v, RemoveLeaf(M, n), K - {n}, if n == h then null else h)
  {
    OnItsSide(v, M, K, h, n);
    var M', K' := RemoveLeaf(M, n), K - {n};
    LeafRooted(v, M, K, h, n);
    forall m, b | m in K' ensures LinkedAt(M', K', m, b) { LeafLinked(v, M, K, h, n, m, b); }
    forall m | m in M' ensures ParentedAt(M', if n == h then null else h, m) { LeafParented(v, M, K, h, n, m); }
    forall a, b, m | a in K' && m in K' ensures CompleteAt(M', K', a, b, m) { LeafComplete(v, M, K, h, n, a, b, m); }
  }

  /** c is the only child of n, on side b. */
  ghost predicate Unary(v: Version, M: Heap, K: Keys, h: Node?, n: Node, b: bool, c: Node)
  {
    Shaped(v, M, K, h) && n in K && M[n].Child(b) == c && M[n].Child(!b) == null
  }

  lemma OnlyChild(v: Version, M: Heap, K: Keys, h: Node?, n: Node, b: bool, c: Node)
    requires Unary(v, M, K, h, n, b, c)
    ensures c in K && M[c].parent == n && Below(K[n], b, K[c]) && c != n
    ensures M[n].parent == null <==> n == h
    ensures M[n].parent != null ==>
      var p := M[n].parent;
      p in K && p != c && p != n && Below(K[p], M[p].r == n, K[c]) && M[p].Child(M[p].r == n) == n
  {
    OnItsSide(v, M, K, h, n);
    assert LinkedAt(M, K, n, b);
  }

  lemma UnderOnlyChild(v: Version, M: Heap, K: Keys, h: Node?, n: Node, b: bool, c: Node, m: Node)
    requires Unary(v, M, K, h, n, b, c) && m in K && m != n && K[n] <= K[m]
    ensures c in K && K[c] <= K[m]
  {
    assert |K[n]| < |K[m]|;
    assert CompleteAt(M, K, n, K[m][|K[n]|], m);
  }

  lemma UnaryLinked(v: Version, M: Heap, K: Keys, h: Node?, n: Node, b: bool, c: Node, m: Node, d: bool)
    requires Unary(v, M, K, h, n, b, c) && c in K && m in K && m != n
    requires M[n].parent != null ==> M[n].parent in K && M[n].parent != c
    ensures RemoveUnary(M, n, c).Keys == (K - {n}).Keys
    ensures LinkedAt(RemoveUnary(M, n, c), K - {n}, m, d)
  {
    OnlyChild(v, M, K, h, n, b, c);
    UnaryLinkedAt(M, K, n, c, m, d);
  }

  lemma UnaryLinkedAt(M: Heap, K: Keys, n: Node, c: Node, m: Node, d: bool)
    requires M.Keys == K.Keys && n in K && c in K && m in K && m != n && c != n
    requires LinkedAt(M, K, m, d) && LinkedAt(M, K, m, !d) && M[c].parent == n
    requires M[n].parent != null ==>
      var p := M[n].parent;
      p in K && p != c && p != n && Below(K[p], M[p].r == n, K[c]) && M[p].Child(M[p].r == n) == n
    ensures RemoveUnary(M, n, c).Keys == (K - {n}).Keys
    ensures LinkedAt(RemoveUnary(M, n, c), K - {n}, m, d)
  {
  }

  lemma UnaryComplete(v: Version, M: Heap, K: Keys, h: Node?, n: Node, b: bool, c: Node, a: Node, d: bool, m: Node)
    requires Unary(v, M, K, h, n, b, c) && c in K && a in K && a != n && m in K && m != n
    requires M[n].parent != null ==> M[n].parent in K && M[n].parent != c
    ensures RemoveUnary(M, n, c).Keys == (K - {n}).Keys
    ensures CompleteAt(RemoveUnary(M, n, c), K - {n}, a, d, m)
  {
    OnlyChild(v, M, K, h, n, b, c);
    assert LinkedAt(M, K, a, d);
    assert CompleteAt(M, K, a, d, m);
    if K[n] <= K[m] {
      UnderOnlyChild(v, M, K, h, n, b, c, m);
    }
    assert LinkedAt(M, K, a, !d);
    UnaryCompleteAt(M, K, n, c, a, d, m);
  }

  lemma UnaryCompleteAt(M: Heap, K: Keys, n: Node, c: Node, a: Node, d: bool, m: Node)
    requires M.Keys == K.Keys && n in K && c in K && a in K && a != n && m in K && m != n && c != n
    requires LinkedAt(M, K, a, d) && LinkedAt(M, K, a, !d)
    requires CompleteAt(M, K, a, d, m) && (K[n] <= K[m] ==> K[c] <= K[m])
    requires M[n].parent != null ==>
      var p := M[n].parent; p in K && p != c && M[p].Child(M[p].r == n) == n
    ensures RemoveUnary(M, n, c).Keys == (K - {n}).Keys
    ensures CompleteAt(RemoveUnary(M, n, c), K - {n}, a, d, m)
  {
  }

  lemma UnaryParented(v: Version, M: Heap, K: Keys, h: Node?, n: Node, b: bool, c: Node, m: Node)
    requires Unary(v, M, K, h, n, b, c) && c in K && m in K && m != n
    requires M[n].parent != null ==> M[n].parent in K && M[n].parent != c
    ensures m in RemoveUnary(M, n, c)
    ensures ParentedAt(RemoveUnary(M, n, c), if n == h then c else h, m)
  {
    OnlyChild(v, M, K, h, n, b, c);
    OnItsSide(v, M, K, h, m);
  }

  lemma UnaryRooted(v: Version, M: Heap, K: Keys, h: Node?, n: Node, b: bool, c: Node)
    requires Unary(v, M, K, h, n, b, c) && c in K
    requires M[n].parent != null ==> M[n].parent in K && M[n].parent != c
    ensures RemoveUnary(M, n, c).Keys == (K - {n}).Keys
    ensures Rooted(RemoveUnary(M, n, c), K - {n}, if n == h then c else h)
  {
    OnlyChild(v, M, K, h, n, b, c);
    forall m | m in K - {n}
      ensures n == h ==> K[c] <= K[m]
    {
      if n == h {
        UnderOnlyChild(v, M, K, h, n, b, c, m);
      }
    }
  }

  lemma RemoveUnaryShaped(v: Version, M: Heap, K: Keys, h: Node?, n: Node, b: bool, c: Node)
    requires Unary(v, M, K, h, n, b, c)
    ensures c in M && (M[n].parent != null ==> M[n].parent in M && M[n].parent != c)
    ensures Shaped(v, RemoveUnary(M, n, c), K - {n}, if n == h then c else h)
  {
    OnlyChild(v, M, K, h, n, b, c);
    var M', K' := RemoveUnary(M, n, c), K - {n};
    UnaryRooted(v, M, K, h, n, b, c);
    forall m, d | m in K' ensures LinkedAt(M', K', m, d) { UnaryLinked(v, M, K, h, n, b, c, m, d); }
    forall m | m in M' ensures ParentedAt(M', if n == h then c else h, m) { UnaryParented(v, M, K, h, n, b, c, m); }
    forall a, d, m | a in K' && m in K'
      ensures CompleteAt(M', K', a, d, m)
    {
      UnaryComplete(v, M, K, h, n, b, c, a, d, m);
    }
  }

  lemma LabelKeepsComplete(M: Heap, K: Keys, n: Node, pfx: Option<Prefix>)
    requires M.Keys == K.Keys && Complete(M, K) && n in K
    ensures Complete(M[n := M[n].(pfx := pfx)], K)
  {
    var M' := M[n := M[n].(pfx := pfx)];
    forall a, b, m | a in K && m in K ensures CompleteAt(M', K, a, b, m) { assert CompleteAt(M, K, a, b, m); }
  }

  /** The shape does not depend on labels. */
  lemma LabelKeepsShape(v: Version, M: Heap, K: Keys, h: Node?, n: Node, pfx: Option<Prefix>)
    requires Shaped(v, M, K, h) && n in K
    ensures Shaped(v, M[n := M[n].(pfx := pfx)], K, h)
  {
    var M' := M[n := M[n].(pfx := pfx)];
    LabelKeepsComplete(M, K, n, pfx);
    forall m, b | m in K ensures LinkedAt(M', K, m, b) { assert LinkedAt(M, K, m, b); }
    forall m | m in M' ensures ParentedAt(M', h, m) { assert ParentedAt(M, h, m); }
  }
}
