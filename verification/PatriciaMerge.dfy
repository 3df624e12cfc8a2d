/** Merging one tree into another, node by node. */
module PatriciaMerge {
  import opened Prefixes
  import opened Trie
  import opened TrieSteps
  import opened TrieListing
  import opened PatriciaTree

  /** The prefixes stored in the subtree of n. */
  ghost function StoredUnder(s: State, n: Node?): set<Key>
    requires At(s, n)
  {
    set m | m in s.K && InSubtree(s, n, m) && Real(s.M, m) :: s.K[m]
  }

  lemma UnderSplit(v: Version, s: State, n: Node)
    requires Good(v, s) && n in s.K
    ensures At(s, s.M[n].l) && At(s, s.M[n].r)
    ensures StoredUnder(s, n) ==
      Own(s, n) + StoredUnder(s, s.M[n].l) + StoredUnder(s, s.M[n].r)
  {
    Descent(v, s, n, false);
    Descent(v, s, n, true);
    var here := Own(s, n);
    var l, r := StoredUnder(s, s.M[n].l), StoredUnder(s, s.M[n].r);
    forall m | m in s.K && Real(s.M, m)
      ensures InSubtree(s, n, m) ==> s.K[m] in here + l + r
      ensures InSubtree(s, s.M[n].l, m) || InSubtree(s, s.M[n].r, m) ==> InSubtree(s, n, m)
    {
      SubtreeSplit(v, s, n, m);
    }
  }

  /** Everything is under the head. */
  lemma UnderHead(v: Version, s: State)
    requires Good(v, s)
    ensures At(s, s.h) && StoredUnder(s, s.h) == Contents(s)
  {
  }

  /** The source is as it was: its nodes are apart from the destination's, or it is the destination,
      which a merge into itself does not change. */
  ghost predicate AsItWas(s: State, dst: Family, own: bool)
    reads dst, dst.keys.Keys, s.K.Keys
  {
    s.M == Snapshot(s.K.Keys) && if own then dst.Now() == s else dst.keys.Keys !! s.K.Keys
  }

  lemma StayApart<T>(was: set<T>, now: set<T>, other: set<T>)
    requires was !! other && (now - was) !! other
    ensures now !! other
  {
    assert now <= was + (now - was);
  }

  /** An insert, in the merge's terms: what is stored already changes nothing. */
  method AddOnce(dst: Family, pfx: Prefix)
    requires dst.Valid() && WellFormed(pfx) && pfx.version == dst.v
    modifies dst, dst.keys.Keys
    ensures dst.Valid() && (KeyOf(pfx) in old(Contents(dst.Now())) ==> dst.Now() == old(dst.Now()))
    ensures Contents(dst.Now()) == old(Contents(dst.Now())) + {KeyOf(pfx)}
    ensures dst.leaked == old(dst.leaked) && fresh(dst.keys.Keys - old(dst.keys).Keys)
  {
    ghost var before := dst.Now();
    var node;
    ghost var how;
    node, how := dst.Insert(pfx);
    InsertFacts(dst.v, before, how, node, pfx, dst.Now());
  }

  method AddPrefix(ghost s: State, dst: Family, ghost own: bool, pfx: Prefix)
    requires dst.Valid() && WellFormed(pfx) && pfx.version == dst.v && AsItWas(s, dst, own)
    requires own ==> KeyOf(pfx) in Contents(s)
    modifies dst, dst.keys.Keys
    ensures dst.Valid() && AsItWas(s, dst, own)
    ensures Contents(dst.Now()) == old(Contents(dst.Now())) + {KeyOf(pfx)}
    ensures dst.leaked == old(dst.leaked) && fresh(dst.keys.Keys - old(dst.keys).Keys)
  {
    ghost var mine := dst.keys.Keys;
    AddOnce(dst, pfx);
    if own {
      assert dst.Now() == s;
    } else {
      StayApart(mine, dst.keys.Keys, s.K.Keys);
      assert Snapshot(s.K.Keys) == old(Snapshot(s.K.Keys));
    }
  }

  method MergeNode(ghost s: State, dst: Family, ghost own: bool, node: Node)
    requires dst.Valid() && Good(dst.v, s) && node in s.K && AsItWas(s, dst, own)
    modifies dst, dst.keys.Keys
    ensures dst.Valid() && AsItWas(s, dst, own)
    ensures Contents(dst.Now()) == old(Contents(dst.Now())) + Own(s, node)
    ensures dst.leaked == old(dst.leaked) && fresh(dst.keys.Keys - old(dst.keys).Keys)
  {
    assert s.M[node] == node.View();
    if node.prefix.version != Unknown {
      RealNode(dst.v, s, node);
      AddPrefix(s, dst, own, node.prefix);
    }
  }

  /** What a node itself stores. */
  ghost function Own(s: State, n: Node): set<Key>
    requires n in s.K
  {
    if Real(s.M, n) then {s.K[n]} else {}
  }

  lemma Regrouped<T>(a: set<T>, b: set<T>, c: set<T>, d: set<T>)
    ensures a + b + c + d == a + (b + c + d)
  {
  }

  lemma RealNode(v: Version, s: State, n: Node)
    requires Good(v, s) && n in s.K && Real(s.M, n)
    ensures WellFormed(s.M[n].pfx.value) && s.M[n].pfx.value.version == v && KeyOf(s.M[n].pfx.value) == s.K[n]
    ensures s.K[n] in Contents(s)
  {
    assert LabelledAt(v, s.M, s.K, n);
  }

  /** bgpstream_patricia_tree_merge_tree: node, then its left and right subtrees, are inserted. */
  method MergeTree(ghost s: State, dst: Family, ghost own: bool, node: Node?)
    requires dst.Valid() && Good(dst.v, s) && At(s, node) && AsItWas(s, dst, own)
    modifies dst, dst.keys.Keys
    ensures dst.Valid() && AsItWas(s, dst, own)
    ensures Contents(dst.Now()) == old(Contents(dst.Now())) + StoredUnder(s, node)
    ensures dst.leaked == old(dst.leaked) && fresh(dst.keys.Keys - old(dst.keys).Keys)
    decreases Room(dst.v, s, node), 1
  {
    if node == null {
      return;
    }
    UnderSplit(dst.v, s, node);
    ghost var mine, stored := dst.keys.Keys, Contents(dst.Now());
    MergeNode(s, dst, own, node);
    ghost var mine1 := dst.keys.Keys;
    MergeChildren(s, dst, own, node);
    Regrouped(stored, Own(s, node), StoredUnder(s, s.M[node].l), StoredUnder(s, s.M[node].r));
    assert dst.keys.Keys - mine <= (dst.keys.Keys - mine1) + (mine1 - mine);
  }

  method MergeChildren(ghost s: State, dst: Family, ghost own: bool, node: Node)
    requires dst.Valid() && Good(dst.v, s) && node in s.K && AsItWas(s, dst, own)
    requires At(s, s.M[node].l) && At(s, s.M[node].r)
    modifies dst, dst.keys.Keys
    ensures dst.Valid() && AsItWas(s, dst, own)
    ensures Contents(dst.Now()) == old(Contents(dst.Now())) + StoredUnder(s, s.M[node].l) + StoredUnder(s, s.M[node].r)
    ensures dst.leaked == old(dst.leaked) && fresh(dst.keys.Keys - old(dst.keys).Keys)
    decreases Room(dst.v, s, node), 0
  {
    Descent(dst.v, s, node, false);
    Descent(dst.v, s, node, true);
    ghost var mine := dst.keys.Keys;
    MergeTree(s, dst, own, node.l);
    ghost var mine1 := dst.keys.Keys;
    MergeTree(s, dst, own, node.r);
    assert dst.keys.Keys - mine <= (dst.keys.Keys - mine1) + (mine1 - mine);
  }

  /** bgpstream_patricia_tree_merge, for one address family: the destination then stores exactly
      what either stored, and the source, which may be the destination, is as it was. */
  method Merge(dst: Family, src: Family)
    requires dst.Valid() && src.Valid() && dst.v == src.v && (dst == src || dst.keys.Keys !! src.keys.Keys)
    modifies dst, dst.keys.Keys
    ensures dst.Valid() && src.Valid() && src.Now() == old(src.Now())
    ensures Contents(dst.Now()) == old(Contents(dst.Now())) + Contents(src.Now())
    ensures dst.leaked == 0 == src.leaked && old(dst.leaked) == 0 ==> dst.active == |Contents(dst.Now())|
  {
    ghost var s := src.Now();
    UnderHead(src.v, s);
    MergeTree(s, dst, dst == src, src.head);
  }
}
