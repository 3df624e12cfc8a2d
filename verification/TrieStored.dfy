/** The whole invariant and the stored set, step by step; and what each removal undoes. */
module TrieStored {
  import opened Wrappers
  import opened Prefixes
  import opened Trie
  import opened TrieInsertion
  import opened TrieRemoval

  ghost predicate Fits(v: Version, p: Prefix, k: Key)
  {
    WellFormed(p) && p.version == v && KeyOf(p) == k
  }

  lemma StoredGrows(M: Heap, K: Keys, M': Heap, K': Keys, x: Node)
    requires x in K' && Real(M', x)
    requires forall n :: n in K && Real(M, n) ==> n in K' && K'[n] == K[n] && Real(M', n)
    requires forall n :: n in K' && n != x && Real(M', n) ==> n in K && K'[n] == K[n] && Real(M, n)
    ensures Stored(M', K') == Stored(M, K) + {K'[x]}
  {
    forall k | k in Stored(M, K)
      ensures k in Stored(M', K')
    {
      var n :| n in K && Real(M, n) && K[n] == k;
      assert K'[n] == k;
    }
  }

  lemma StoredShrinks(M: Heap, K: Keys, M': Heap, K': Keys, x: Node)
    requires Distinct(K) && x in K && Real(M, x)
    requires forall n :: n in K && n != x && Real(M, n) ==> n in K' && K'[n] == K[n] && Real(M', n)
    requires forall n :: n in K' && Real(M', n) ==> n in K && n != x && K'[n] == K[n] && Real(M, n)
    ensures Stored(M', K') == Stored(M, K) - {K[x]}
  {
    forall k | k in Stored(M, K) - {K[x]}
      ensures k in Stored(M', K')
    {
      var n :| n in K && Real(M, n) && K[n] == k;
      assert K'[n] == k;
    }
  }

  lemma StoredSame(M: Heap, K: Keys, M': Heap, K': Keys)
    requires forall n :: n in K && Real(M, n) ==> n in K' && K'[n] == K[n] && Real(M', n)
    requires forall n :: n in K' && Real(M', n) ==> n in K && K'[n] == K[n] && Real(M, n)
    ensures Stored(M', K') == Stored(M, K)
  {
    forall k | k in Stored(M, K)
      ensures k in Stored(M', K')
    {
      var n :| n in K && Real(M, n) && K[n] == k;
      assert K'[n] == k;
    }
  }

  lemma RelabelOk(v: Version, M: Heap, K: Keys, h: Node?, n: Node, p: Prefix)
    requires Ok(v, M, K, h) && n in K && Fits(v, p, K[n])
    ensures Ok(v, Relabel(M, n, p), K, h)
    ensures Stored(Relabel(M, n, p), K) == Stored(M, K) + {K[n]}
  {
    var M' := Relabel(M, n, p);
    LabelKeepsShape(v, M, K, h, n, Some(p));
    forall m | m in K ensures LabelledAt(v, M', K, m) { assert LabelledAt(v, M, K, m); }
    StoredGrows(M, K, M', K, n);
  }

  /** A tree of one node. */
  ghost function Planted(x: Node, bit: nat, p: Prefix): Heap
  {
    map[x := Cell(bit, Some(p), null, null, null)]
  }

  ghost function PlantedKey(x: Node, k: Key): Keys
  {
    map[x := k]
  }

  lemma PlantOk(v: Version, x: Node, k: Key, p: Prefix)
    requires Fits(v, p, k)
    ensures Ok(v, Planted(x, |k|, p), PlantedKey(x, k), x)
    ensures Stored(Planted(x, |k|, p), PlantedKey(x, k)) == {k}
  {
    assert Real(Planted(x, |k|, p), x);
  }

  lemma InsertChildOk(v: Version, M: Heap, K: Keys, h: Node?, n: Node, b: bool, x: Node, k: Key, p: Prefix)
    requires Ok(v, M, K, h) && CanHang(v, M, K, h, n, b, x, k) && Fits(v, p, k)
    ensures Ok(v, InsertBelow(M, n, b, x, |k|, Some(p)), K[x := k], h)
    ensures Stored(InsertBelow(M, n, b, x, |k|, Some(p)), K[x := k]) == Stored(M, K) + {k}
  {
    var M', K' := InsertBelow(M, n, b, x, |k|, Some(p)), K[x := k];
    InsertBelowShaped(v, M, K, h, n, b, x, k, Some(p));
    forall m | m in K' ensures LabelledAt(v, M', K', m) {
      if m != x {
        assert LabelledAt(v, M, K, m);
      }
    }
    StoredGrows(M, K, M', K', x);
  }

  lemma SpliceLabels(v: Version, M: Heap, K: Keys, h: Node?, n: Node, b: bool, x: Node, k: Key, pfx: Option<Prefix>,
      m: Node)
    requires Ok(v, M, K, h) && CanSplice(v, M, K, h, n, b, x, k) && m in K && M[n].parent != n
    ensures m in InsertAbove(M, n, b, x, |k|, pfx)
    ensures LabelledAt(v, InsertAbove(M, n, b, x, |k|, pfx), K[x := k], m)
    ensures Real(InsertAbove(M, n, b, x, |k|, pfx), m) <==> Real(M, m)
  {
    OnItsSide(v, M, K, h, n);
    assert LabelledAt(v, M, K, m);
  }

  lemma InsertParentOk(v: Version, M: Heap, K: Keys, h: Node?, n: Node, b: bool, x: Node, k: Key, p: Prefix)
    requires Ok(v, M, K, h) && CanSplice(v, M, K, h, n, b, x, k) && Fits(v, p, k)
    ensures M[n].parent != n && (M[n].parent != null ==> M[n].parent in M)
    ensures Ok(v, InsertAbove(M, n, b, x, |k|, Some(p)), K[x := k], if M[n].parent == null then x else h)
    ensures Stored(InsertAbove(M, n, b, x, |k|, Some(p)), K[x := k]) == Stored(M, K) + {k}
  {
    InsertAboveShaped(v, M, K, h, n, b, x, k, Some(p));
    var M', K' := InsertAbove(M, n, b, x, |k|, Some(p)), K[x := k];
    forall m | m in K'
      ensures LabelledAt(v, M', K', m) && (m != x ==> (Real(M', m) <==> Real(M, m)))
    {
      if m != x {
        SpliceLabels(v, M, K, h, n, b, x, k, Some(p), m);
      }
    }
    StoredGrows(M, K, M', K', x);
  }

  /** #4: a new glue node g above n, and the new node x as its other child. */
  ghost function InsertGlue(M: Heap, n: Node, b: bool, g: Node, d: nat, x: Node, bit: nat, p: Prefix): Heap
    requires n in M && (M[n].parent != null ==> M[n].parent in M && M[n].parent != n)
  {
    InsertBelow(InsertAbove(M, n, b, g, d, None), g, !b, x, bit, Some(p))
  }

  /** The new glue node is in place: it stores nothing, and its other side is free. */
  lemma GlueShaped(v: Version, M: Heap, K: Keys, h: Node?, n: Node, b: bool, g: Node, f: Key, x: Node, k: Key)
    requires Ok(v, M, K, h) && CanSplice(v, M, K, h, n, b, g, f) && |k| <= Width(v)
    requires x !in K && x != g && Below(f, !b, k)
    ensures M[n].parent != n && (M[n].parent != null ==> M[n].parent in M)
    ensures var M1, K1 := InsertAbove(M, n, b, g, |f|, None), K[g := f];
      CanHang(v, M1, K1, if M[n].parent == null then g else h, g, !b, x, k) && Stored(M1, K1) == Stored(M, K)
  {
    InsertAboveShaped(v, M, K, h, n, b, g, f, None);
    forall m | m in K
      ensures Real(InsertAbove(M, n, b, g, |f|, None), m) <==> Real(M, m)
    {
      SpliceLabels(v, M, K, h, n, b, g, f, None, m);
    }
    StoredSame(M, K, InsertAbove(M, n, b, g, |f|, None), K[g := f]);
  }

  lemma InsertGlueOk(v: Version, M: Heap, K: Keys, h: Node?, n: Node, b: bool, g: Node, f: Key, x: Node, k: Key,
      p: Prefix)
    requires Ok(v, M, K, h) && CanSplice(v, M, K, h, n, b, g, f) && Fits(v, p, k)
    requires x !in K && x != g && Below(f, !b, k)
    ensures M[n].parent != n && (M[n].parent != null ==> M[n].parent in M)
    ensures Ok(v, InsertGlue(M, n, b, g, |f|, x, |k|, p), K[g := f][x := k], if M[n].parent == null then g else h)
    ensures Stored(InsertGlue(M, n, b, g, |f|, x, |k|, p), K[g := f][x := k]) == Stored(M, K) + {k}
  {
    GlueShaped(v, M, K, h, n, b, g, f, x, k);
    var M1, K1, h1 := InsertAbove(M, n, b, g, |f|, None), K[g := f], if M[n].parent == null then g else h;
    InsertBelowShaped(v, M1, K1, h1, g, !b, x, k, Some(p));
    var M', K' := InsertBelow(M1, g, !b, x, |k|, Some(p)), K1[x := k];
    StoredGrows(M1, K1, M', K', x);
    forall m | m in K' ensures LabelledAt(v, M', K', m) {
      GlueLabels(v, M, K, h, n, b, g, f, x, k, p, m);
    }
  }

  lemma GlueLabels(v: Version, M: Heap, K: Keys, h: Node?, n: Node, b: bool, g: Node, f: Key, x: Node, k: Key,
      p: Prefix, m: Node)
    requires Ok(v, M, K, h) && CanSplice(v, M, K, h, n, b, g, f) && Fits(v, p, k)
    requires x !in K && x != g && m in K[g := f][x := k]
    requires M[n].parent != n && (M[n].parent != null ==> M[n].parent in M)
    ensures LabelledAt(v, InsertGlue(M, n, b, g, |f|, x, |k|, p), K[g := f][x := k], m)
  {
    if m in K {
      SpliceLabels(v, M, K, h, n, b, g, f, None, m);
    }
  }

  lemma UnlabelOk(v: Version, M: Heap, K: Keys, h: Node?, n: Node)
    requires Ok(v, M, K, h) && n in K && Real(M, n) && M[n].l != null && M[n].r != null
    ensures Ok(v, Unlabel(M, n), K, h)
    ensures Stored(Unlabel(M, n), K) == Stored(M, K) - {K[n]}
  {
    var M' := Unlabel(M, n);
    LabelKeepsShape(v, M, K, h, n, None);
    forall m | m in K ensures LabelledAt(v, M', K, m) { assert LabelledAt(v, M, K, m); }
    StoredShrinks(M, K, M', K, n);
  }

  lemma LeafLabels(v: Version, M: Heap, K: Keys, h: Node?, n: Node, m: Node)
    requires Leaf(v, M, K, h, n) && m in K && m != n && LabelledAt(v, M, K, m)
    requires M[n].parent != null ==> M[n].parent in K
    requires m == M[n].parent ==> Real(M, m)
    ensures m in RemoveLeaf(M, n)
    ensures LabelledAt(v, RemoveLeaf(M, n), K - {n}, m)
  {
  }

  lemma UnaryLabels(v: Version, M: Heap, K: Keys, h: Node?, n: Node, b: bool, c: Node, m: Node)
    requires Unary(v, M, K, h, n, b, c) && c in K && m in K && m != n && LabelledAt(v, M, K, m)
    requires M[n].parent != null ==> M[n].parent in K && M[n].parent != c
    ensures m in RemoveUnary(M, n, c)
    ensures LabelledAt(v, RemoveUnary(M, n, c), K - {n}, m) && (Real(RemoveUnary(M, n, c), m) <==> Real(M, m))
  {
    UnaryCell(M, n, c, m);
  }

  /** Bypassing n keeps the labels, and which children there are. */
  lemma UnaryCell(M: Heap, n: Node, c: Node, m: Node)
    requires n in M && c in M && m in M && m != n && (M[n].parent != null ==> M[n].parent in M && M[n].parent != c)
    ensures var M' := RemoveUnary(M, n, c);
      m in M' && M'[m].pfx == M[m].pfx && (M[m].l != null ==> M'[m].l != null) && (M[m].r != null ==> M'[m].r != null)
  {
  }

  lemma RemoveUnaryOk(v: Version, M: Heap, K: Keys, h: Node?, n: Node, b: bool, c: Node)
    requires Ok(v, M, K, h) && Unary(v, M, K, h, n, b, c)
    ensures c in M && (M[n].parent != null ==> M[n].parent in M && M[n].parent != c)
    ensures Ok(v, RemoveUnary(M, n, c), K - {n}, if n == h then c else h)
    ensures Stored(RemoveUnary(M, n, c), K - {n}) == Stored(M, K) - {K[n]}
  {
    RemoveUnaryShaped(v, M, K, h, n, b, c);
    OnlyChild(v, M, K, h, n, b, c);
    var M', K' := RemoveUnary(M, n, c), K - {n};
    assert LabelledAt(v, M, K, n);
    forall m | m in K'
      ensures LabelledAt(v, M', K', m) && (Real(M', m) <==> Real(M, m))
    {
      assert LabelledAt(v, M, K, m);
      UnaryLabels(v, M, K, h, n, b, c, m);
    }
    StoredShrinks(M, K, M', K', n);
  }

  /** A leaf whose parent, if any, is a real node. */
  lemma RemoveLeafOk(v: Version, M: Heap, K: Keys, h: Node?, n: Node)
    requires Ok(v, M, K, h) && Leaf(v, M, K, h, n)
    requires M[n].parent != null ==> Real(M, M[n].parent)
    ensures Ok(v, RemoveLeaf(M, n), K - {n}, if n == h then null else h)
    ensures Stored(RemoveLeaf(M, n), K - {n}) == Stored(M, K) - {K[n]}
  {
    RemoveLeafShaped(v, M, K, h, n);
    OnItsSide(v, M, K, h, n);
    var M', K' := RemoveLeaf(M, n), K - {n};
    assert LabelledAt(v, M, K, n);
    forall m | m in K' ensures LabelledAt(v, M', K', m) {
      assert LabelledAt(v, M, K, m);
      LeafLabels(v, M, K, h, n, m);
    }
    StoredShrinks(M, K, M', K', n);
  }

  /** A leaf n under a glue node g: both go, and the sibling c takes the place of g. */
  ghost function Collapse(M: Heap, n: Node, g: Node, c: Node): Heap
    requires n in M && M[n].parent == g && g in M && c in M && c != n && c != g
    requires M[g].parent != null ==> M[g].parent in M && M[g].parent != c && M[g].parent != n && M[g].parent != g
  {
    RemoveUnary(RemoveLeaf(M, n), g, c)
  }

  lemma GlueParent(v: Version, M: Heap, K: Keys, h: Node?, n: Node) returns (g: Node, b: bool, c: Node)
    requires Ok(v, M, K, h) && Leaf(v, M, K, h, n) && M[n].parent != null && M[n].parent in M && !Real(M, M[n].parent)
    ensures g == M[n].parent && g in K && g != n && b == (M[g].r == n) && M[g].Child(b) == n
    ensures M[g].Child(!b) == c && c in K && c != n && c != g
    ensures M[g].parent == null <==> g == h
    ensures M[g].parent != null ==> M[g].parent in M && M[g].parent != c && M[g].parent != n && M[g].parent != g
    ensures n != h
    ensures Unary(v, RemoveLeaf(M, n), K - {n}, h, g, !b, c)
  {
    OnItsSide(v, M, K, h, n);
    g, b := M[n].parent, M[M[n].parent].r == n;
    assert LabelledAt(v, M, K, g);
    c := M[g].Child(!b);
    assert LinkedAt(M, K, g, !b) && LinkedAt(M, K, g, b);
    OnItsSide(v, M, K, h, g);
    RemoveLeafShaped(v, M, K, h, n);
  }

  lemma CollapseOk(v: Version, M: Heap, K: Keys, h: Node?, n: Node, g: Node, b: bool, c: Node)
    requires Ok(v, M, K, h) && Leaf(v, M, K, h, n) && M[n].parent != null && M[n].parent in M && !Real(M, M[n].parent)
    requires g == M[n].parent && b == (M[g].r == n) && c == M[g].Child(!b)
    ensures c in M && c != n && c != g && n != h
    ensures M[g].parent != null ==> M[g].parent in M && M[g].parent != c && M[g].parent != n && M[g].parent != g
    ensures Ok(v, Collapse(M, n, g, c), K - {n} - {g}, if g == h then c else h)
    ensures Stored(Collapse(M, n, g, c), K - {n} - {g}) == Stored(M, K) - {K[n]}
  {
    var g', b', c' := GlueParent(v, M, K, h, n);
    assert LabelledAt(v, M, K, n);
    CollapseStored(M, K, n, g, c);
    var M1, K1 := RemoveLeaf(M, n), K - {n};
    RemoveUnaryShaped(v, M1, K1, h, g, !b, c);
    forall m | m in K1 - {g} ensures LabelledAt(v, Collapse(M, n, g, c), K1 - {g}, m) {
      assert LabelledAt(v, M, K, m);
      LeafLabels(v, M, K, h, n, m);
      UnaryLabels(v, M1, K1, h, g, !b, c, m);
    }
  }

  lemma CollapseStored(M: Heap, K: Keys, n: Node, g: Node, c: Node)
    requires M.Keys == K.Keys && Distinct(K) && n in K && Real(M, n) && M[n].parent == g && g in M && !Real(M, g)
    requires c in M && c != n && c != g && n != g
    requires M[g].parent != null ==> M[g].parent in M && M[g].parent != c && M[g].parent != n && M[g].parent != g
    ensures Stored(Collapse(M, n, g, c), K - {n} - {g}) == Stored(M, K) - {K[n]}
  {
    var M1, K1 := RemoveLeaf(M, n), K - {n};
    StoredShrinks(M, K, M1, K1, n);
    var M', K' := Collapse(M, n, g, c), K1 - {g};
    forall m | m in K1 && m != g
      ensures m in M' && Real(M', m) == Real(M1, m)
    {
    }
    StoredSame(M1, K1, M', K');
  }

  // ---------- removing what was inserted gives the same heap back ----------

  lemma UnlabelUndoesRelabel(M: Heap, n: Node, p: Prefix)
    requires n in M && M[n].pfx.None?
    ensures Unlabel(Relabel(M, n, p), n) == M
  {
  }

  lemma RemoveLeafUndoesInsertChild(v: Version, M: Heap, K: Keys, h: Node?, n: Node, b: bool, x: Node, k: Key,
      pfx: Option<Prefix>)
    requires CanHang(v, M, K, h, n, b, x, k)
    ensures RemoveLeaf(InsertBelow(M, n, b, x, |k|, pfx), x) == M
  {
    assert M[n].r != x by {
      assert LinkedAt(M, K, n, true);
    }
  }

  lemma RemoveUnaryUndoesInsertParent(v: Version, M: Heap, K: Keys, h: Node?, n: Node, b: bool, x: Node, k: Key,
      pfx: Option<Prefix>)
    requires CanSplice(v, M, K, h, n, b, x, k)
    ensures M[n].parent != n && (M[n].parent != null ==> M[n].parent in M)
    ensures RemoveUnary(InsertAbove(M, n, b, x, |k|, pfx), x, n) == M
  {
    OnItsSide(v, M, K, h, n);
    var p := M[n].parent;
    if p != null {
      assert LinkedAt(M, K, p, true);
      assert M[p].r != x;
    }
  }

  lemma CollapseUndoesInsertGlue(v: Version, M: Heap, K: Keys, h: Node?, n: Node, b: bool, g: Node, f: Key, x: Node,
      k: Key, p: Prefix)
    requires CanSplice(v, M, K, h, n, b, g, f) && x !in K && x != g && Below(f, !b, k) && |k| <= Width(v)
    ensures M[n].parent != n && (M[n].parent != null ==> M[n].parent in M)
    ensures var M' := InsertGlue(M, n, b, g, |f|, x, |k|, p);
      M'[g].parent != n && M'[g].parent != x && M'[g].parent != g && Collapse(M', x, g, n) == M
  {
    OnItsSide(v, M, K, h, n);
    InsertAboveShaped(v, M, K, h, n, b, g, f, None);
    var M1, h1 := InsertAbove(M, n, b, g, |f|, None), if M[n].parent == null then g else h;
    RemoveLeafUndoesInsertChild(v, M1, K[g := f], h1, g, !b, x, k, Some(p));
    RemoveUnaryUndoesInsertParent(v, M, K, h, n, b, g, f, None);
  }
}
