/** The placements of an insert as steps on the map, and the shape they keep. */
module TrieInsertion {
  import opened Wrappers
  import opened Prefixes
  import opened Trie

  /** #1 (glue mod): an unlabelled node gets the prefix. */
  ghost function Relabel(M: Heap, n: Node, p: Prefix): Heap
    requires n in M
  {
    M[n := M[n].(pfx := Some(p))]
  }

  /** A childless node x becomes the child of n on side b. */
  ghost function InsertBelow(M: Heap, n: Node, b: bool, x: Node, bit: nat, pfx: Option<Prefix>): Heap
    requires n in M
  {
    M[n := M[n].WithChild(b, x)][x := Cell(bit, pfx, null, null, n)]
  }

  /** Whatever pointed down at n now points at x. */
  ghost function Redirect(M: Heap, p: Node?, n: Node, x: Node?): Heap
    requires p != null ==> p in M
  {
    if p == null then M else M[p := M[p].WithChild(M[p].r == n, x)]
  }

  /** A node x is put between n and its parent, with n on its side b. */
  ghost function InsertAbove(M: Heap, n: Node, b: bool, x: Node, bit: nat, pfx: Option<Prefix>): Heap
    requires n in M && (M[n].parent != null ==> M[n].parent in M && M[n].parent != n)
  {
    var p := M[n].parent;
    Redirect(M, p, n, x)[n := M[n].(parent := x)][x := Cell(bit, pfx, null, null, p).WithChild(b, n)]
  }

  /** When a new node x with key k may hang from n on side b. */
  ghost predicate CanHang(v: Version, M: Heap, K: Keys, h: Node?, n: Node, b: bool, x: Node, k: Key)
  {
    && Shaped(v, M, K, h) && n in K && x !in K
    && Below(K[n], b, k) && |k| <= Width(v) && M[n].Child(b) == null
  }

  lemma HangFresh(v: Version, M: Heap, K: Keys, h: Node?, n: Node, b: bool, x: Node, k: Key, m: Node)
    requires CanHang(v, M, K, h, n, b, x, k) && m in K
    ensures !(k <= K[m])
  {
    assert CompleteAt(M, K, n, b, m);
  }

  lemma HangAbove(v: Version, M: Heap, K: Keys, h: Node?, n: Node, b: bool, x: Node, k: Key, a: Node, c: bool)
    requires CanHang(v, M, K, h, n, b, x, k) && a in K && a != n
    ensures Below(K[a], c, k) ==> Below(K[a], c, K[n])
  {
    assert CompleteAt(M, K, n, b, a);
    if Below(K[a], c, k) && |K[a]| >= |K[n]| {
      assert false;
    }
  }

  lemma HangLinked(v: Version, M: Heap, K: Keys, h: Node?, n: Node, b: bool, x: Node, k: Key, pfx: Option<Prefix>)
    requires CanHang(v, M, K, h, n, b, x, k)
    ensures InsertBelow(M, n, b, x, |k|, pfx).Keys == K[x := k].Keys
    ensures Linked(InsertBelow(M, n, b, x, |k|, pfx), K[x := k])
  {
    var M', K' := InsertBelow(M, n, b, x, |k|, pfx), K[x := k];
    forall m, c | m in K'
      ensures LinkedAt(M', K', m, c)
    {
      if m != x {
        assert LinkedAt(M, K, m, c);
      }
    }
  }

  lemma HangComplete(v: Version, M: Heap, K: Keys, h: Node?, n: Node, b: bool, x: Node, k: Key, pfx: Option<Prefix>,
      a: Node, c: bool, m: Node)
    requires CanHang(v, M, K, h, n, b, x, k) && a in K[x := k] && m in K[x := k]
    ensures CompleteAt(InsertBelow(M, n, b, x, |k|, pfx), K[x := k], a, c, m)
  {
    if a == x {
      if m != x {
        HangFresh(v, M, K, h, n, b, x, k, m);
      }
    } else if m != x {
      assert CompleteAt(M, K, a, c, m);
    } else if a != n {
      HangAbove(v, M, K, h, n, b, x, k, a, c);
      assert CompleteAt(M, K, a, c, n);
    }
  }

  lemma HangRest(v: Version, M: Heap, K: Keys, h: Node?, n: Node, b: bool, x: Node, k: Key, pfx: Option<Prefix>)
    requires CanHang(v, M, K, h, n, b, x, k)
    ensures var M', K' := InsertBelow(M, n, b, x, |k|, pfx), K[x := k];
      Keyed(v, M', K') && Parented(M', h) && Distinct(K') && Rooted(M', K', h)
  {
    var M', K' := InsertBelow(M, n, b, x, |k|, pfx), K[x := k];
    forall m | m in M'
      ensures ParentedAt(M', h, m)
    {
      if m != x {
        assert ParentedAt(M, h, m);
      }
    }
    forall m | m in K
      ensures K[m] != k
    {
      HangFresh(v, M, K, h, n, b, x, k, m);
    }
    assert K[h] <= K[n] <= k;
  }

  lemma InsertBelowShaped(v: Version, M: Heap, K: Keys, h: Node?, n: Node, b: bool, x: Node, k: Key,
      pfx: Option<Prefix>)
    requires CanHang(v, M, K, h, n, b, x, k)
    ensures Shaped(v, InsertBelow(M, n, b, x, |k|, pfx), K[x := k], h)
  {
    var M', K' := InsertBelow(M, n, b, x, |k|, pfx), K[x := k];
    HangLinked(v, M, K, h, n, b, x, k, pfx);
    HangRest(v, M, K, h, n, b, x, k, pfx);
    forall a, c, m | a in K' && m in K'
      ensures CompleteAt(M', K', a, c, m)
    {
      HangComplete(v, M, K, h, n, b, x, k, pfx, a, c, m);
    }
  }

  /** When a new node x with key k may come between n and its parent, with n on side b. */
  ghost predicate CanSplice(v: Version, M: Heap, K: Keys, h: Node?, n: Node, b: bool, x: Node, k: Key)
  {
    && Shaped(v, M, K, h) && n in K && x !in K && Below(k, b, K[n])
    && var p := M[n].parent; p == null || (p in K && |K[p]| < |k|)
  }

  /** The side of its parent a node is on. */
  lemma OnItsSide(v: Version, M: Heap, K: Keys, h: Node?, n: Node)
    requires Shaped(v, M, K, h) && n in K
    ensures M[n].parent == null <==> n == h
    ensures M[n].parent != null ==>
      var p := M[n].parent;
      p in K && p != n && Below(K[p], M[p].r == n, K[n]) && M[p].Child(M[p].r == n) == n
  {
    assert ParentedAt(M, h, n);
    var p := M[n].parent;
    if p != null {
      assert LinkedAt(M, K, p, M[p].r == n);
    }
  }

  lemma SpliceFresh(v: Version, M: Heap, K: Keys, h: Node?, n: Node, b: bool, x: Node, k: Key, m: Node)
    requires CanSplice(v, M, K, h, n, b, x, k) && m in K
    ensures k <= K[m] ==> K[n] <= K[m]
    ensures K[m] != k
  {
    OnItsSide(v, M, K, h, n);
    var p := M[n].parent;
    if p != null && k <= K[m] {
      var c := M[p].r == n;
      assert Below(K[p], c, k);
      assert CompleteAt(M, K, p, c, m);
    }
  }

  /** A strict ancestor of the new key is the parent or an ancestor of the parent. */
  lemma SpliceAbove(v: Version, M: Heap, K: Keys, h: Node?, n: Node, b: bool, x: Node, k: Key, a: Node, c: bool)
    requires CanSplice(v, M, K, h, n, b, x, k) && a in K && Below(K[a], c, k)
    ensures M[n].parent != null && Below(K[a], c, K[n])
    ensures a != M[n].parent ==> Below(K[a], c, K[M[n].parent])
    ensures a == M[n].parent ==> c == (M[a].r == n)
  {
    OnItsSide(v, M, K, h, n);
    assert K[a] <= k <= K[n];
    assert CompleteAt(M, K, a, c, n);
    var p := M[n].parent;
    if p != null {
      assert CompleteAt(M, K, p, M[p].r == n, a);
      if a != p && |K[a]| >= |K[p]| {
        assert false;
      }
    }
  }

  lemma SpliceLinked(v: Version, M: Heap, K: Keys, h: Node?, n: Node, b: bool, x: Node, k: Key, pfx: Option<Prefix>,
      m: Node, c: bool)
    requires CanSplice(v, M, K, h, n, b, x, k) && m in K && M[n].parent != n
    requires LinkedAt(M, K, m, c) && LinkedAt(M, K, m, !c)
    requires M[n].parent != null ==>
      Below(K[M[n].parent], M[M[n].parent].r == n, k) && M[M[n].parent].Child(M[M[n].parent].r == n) == n
    ensures InsertAbove(M, n, b, x, |k|, pfx).Keys == K[x := k].Keys
    ensures LinkedAt(InsertAbove(M, n, b, x, |k|, pfx), K[x := k], m, c)
  {
    SpliceLinkedAt(M, K, n, b, x, k, pfx, m, c);
  }

  lemma SpliceLinkedAt(M: Heap, K: Keys, n: Node, b: bool, x: Node, k: Key, pfx: Option<Prefix>, m: Node, c: bool)
    requires M.Keys == K.Keys && n in K && x !in K && m in K
    requires M[n].parent != null ==> M[n].parent in K && M[n].parent != n
    requires LinkedAt(M, K, m, c) && LinkedAt(M, K, m, !c)
    requires M[n].parent != null ==>
      Below(K[M[n].parent], M[M[n].parent].r == n, k) && M[M[n].parent].Child(M[M[n].parent].r == n) == n
    ensures InsertAbove(M, n, b, x, |k|, pfx).Keys == K[x := k].Keys
    ensures LinkedAt(InsertAbove(M, n, b, x, |k|, pfx), K[x := k], m, c)
  {
  }

  lemma SpliceCompleteAt(M: Heap, K: Keys, n: Node, b: bool, x: Node, k: Key, pfx: Option<Prefix>, a: Node, c: bool,
      m: Node)
    requires M.Keys == K.Keys && n in K && x !in K && a in K && m in K && k <= K[n]
    requires M[n].parent != null ==>
      var p := M[n].parent; p in K && p != n && M[p].Child(M[p].r == n) == n
    requires CompleteAt(M, K, a, c, m)
    ensures CompleteAt(InsertAbove(M, n, b, x, |k|, pfx), K[x := k], a, c, m)
  {
  }

  lemma SpliceComplete(v: Version, M: Heap, K: Keys, h: Node?, n: Node, b: bool, x: Node, k: Key,
      pfx: Option<Prefix>, a: Node, c: bool, m: Node)
    requires CanSplice(v, M, K, h, n, b, x, k) && a in K[x := k] && m in K[x := k] && M[n].parent != n
    ensures CompleteAt(InsertAbove(M, n, b, x, |k|, pfx), K[x := k], a, c, m)
  {
    OnItsSide(v, M, K, h, n);
    if a == x {
      if m != x {
        SpliceFresh(v, M, K, h, n, b, x, k, m);
      }
    } else if m != x {
      assert CompleteAt(M, K, a, c, m);
      SpliceCompleteAt(M, K, n, b, x, k, pfx, a, c, m);
    } else if Below(K[a], c, k) {
      SpliceAbove(v, M, K, h, n, b, x, k, a, c);
      if a != M[n].parent {
        assert CompleteAt(M, K, a, c, M[n].parent);
      }
    }
  }

  lemma SpliceParented(v: Version, M: Heap, K: Keys, h: Node?, n: Node, b: bool, x: Node, k: Key,
      pfx: Option<Prefix>, m: Node)
    requires CanSplice(v, M, K, h, n, b, x, k) && M[n].parent != n && m in InsertAbove(M, n, b, x, |k|, pfx)
    ensures ParentedAt(InsertAbove(M, n, b, x, |k|, pfx), if M[n].parent == null then x else h, m)
  {
    OnItsSide(v, M, K, h, n);
    if m != x {
      OnItsSide(v, M, K, h, m);
    }
  }

  lemma SpliceRest(v: Version, M: Heap, K: Keys, h: Node?, n: Node, b: bool, x: Node, k: Key, pfx: Option<Prefix>)
    requires CanSplice(v, M, K, h, n, b, x, k) && M[n].parent != n
    ensures var M', K' := InsertAbove(M, n, b, x, |k|, pfx), K[x := k];
      Keyed(v, M', K') && Distinct(K') && Rooted(M', K', if M[n].parent == null then x else h)
  {
    OnItsSide(v, M, K, h, n);
    forall m | m in K
      ensures K[m] != k
    {
      SpliceFresh(v, M, K, h, n, b, x, k, m);
    }
  }

  lemma InsertAboveShaped(v: Version, M: Heap, K: Keys, h: Node?, n: Node, b: bool, x: Node, k: Key,
      pfx: Option<Prefix>)
    requires CanSplice(v, M, K, h, n, b, x, k)
    ensures var p := M[n].parent; p != n && (p != null ==> p in M)
    ensures Shaped(v, InsertAbove(M, n, b, x, |k|, pfx), K[x := k], if M[n].parent == null then x else h)
  {
    OnItsSide(v, M, K, h, n);
    SpliceRest(v, M, K, h, n, b, x, k, pfx);
    var M', K' := InsertAbove(M, n, b, x, |k|, pfx), K[x := k];
    forall m, c | m in K'
      ensures LinkedAt(M', K', m, c)
    {
      if m != x {
        assert LinkedAt(M, K, m, c) && LinkedAt(M, K, m, !c);
        SpliceLinked(v, M, K, h, n, b, x, k, pfx, m, c);
      }
    }
    forall m | m in M'
      ensures ParentedAt(M', if M[n].parent == null then x else h, m)
    {
      SpliceParented(v, M, K, h, n, b, x, k, pfx, m);
    }
    forall a, c, m | a in K' && m in K'
      ensures CompleteAt(M', K', a, c, m)
    {
      SpliceComplete(v, M, K, h, n, b, x, k, pfx, a, c, m);
    }
  }
}
