/** Overlap information: a query that inserts the prefix it asks about, looks around it, and removes
    it again. */
module PatriciaOverlap {
  import opened Wrappers
  import opened Prefixes
  import opened Trie
  import opened TrieInsertion
  import opened TrieSteps
  import opened TrieListing
  import opened Patricia
  import opened PatriciaTree
  import opened PatriciaQueries

  const LESS_SPECIFICS: bv8 := 4
  const EXACT_MATCH: bv8 := 2
  const MORE_SPECIFICS: bv8 := 1

  /** Some stored prefix strictly contains k. */
  ghost predicate HasLess(stored: set<Key>, k: Key)
  {
    exists x :: x in stored && x <= k && x != k
  }

  /** Some stored prefix lies strictly inside k. */
  ghost predicate HasMore(stored: set<Key>, k: Key)
  {
    exists x :: x in stored && k <= x && x != k
  }

  /** The brute-force answer over a set of stored prefixes. */
  ghost function OverlapMask(stored: set<Key>, k: Key): bv8
  {
    (if k in stored then EXACT_MATCH else 0)
    | (if HasLess(stored, k) then LESS_SPECIFICS else 0)
    | (if HasMore(stored, k) then MORE_SPECIFICS else 0)
  }

  /** Its bits: 2 for the prefix itself, 4 for one that contains it, 1 for one inside it. */
  lemma MaskMeans(stored: set<Key>, k: Key)
    ensures OverlapMask(stored, k) & 2 != 0 <==> k in stored
    ensures OverlapMask(stored, k) & 4 != 0 <==> exists x :: x in stored && x <= k && x != k
    ensures OverlapMask(stored, k) & 1 != 0 <==> exists x :: x in stored && k <= x && x != k
    ensures OverlapMask(stored, k) < 8
  {
    assert HasLess(stored, k) <==> exists x :: x in stored && x <= k && x != k;
    assert HasMore(stored, k) <==> exists x :: x in stored && k <= x && x != k;
    MaskBits(k in stored, HasLess(stored, k), HasMore(stored, k));
  }

  lemma MaskBits(exact: bool, less: bool, more: bool)
    ensures var m: bv8 := (if exact then EXACT_MATCH else 0) | (if less then LESS_SPECIFICS else 0)
      | (if more then MORE_SPECIFICS else 0);
      && (m & 2 != 0 <==> exact) && (m & 4 != 0 <==> less) && (m & 1 != 0 <==> more) && m < 8
  {
  }

  lemma LessByNodes(v: Version, s: State, n: Node)
    requires Good(v, s) && n in s.K
    ensures HasLess(Contents(s), s.K[n]) <==> exists m :: m in s.K && Real(s.M, m) && s.K[m] <= s.K[n] && m != n
  {
    if m: Node :| m in s.K && Real(s.M, m) && s.K[m] <= s.K[n] && m != n {
      assert s.K[m] in Contents(s) && s.K[m] != s.K[n];
    }
  }

  /** A labelled node above n, found by climbing from its parent. */
  method AnyAbove(ghost v: Version, ghost s: State, node: Node) returns (found: bool)
    requires Good(v, s) && s.M == Snapshot(s.K.Keys) && node in s.K
    ensures found <==> HasLess(Contents(s), s.K[node])
  {
    OnItsSide(v, s.M, s.K, s.h, node);
    var it := node.parent;
    forall m | m in s.K
      ensures s.K[m] <= s.K[node] <==> m == node || (it != null && s.K[m] <= s.K[it])
    {
      AboveSplit(v, s, node, m);
    }
    LessByNodes(v, s, node);
    found := false;
    while it != null
      invariant At(s, it) && !found
      invariant HasLess(Contents(s), s.K[node])
        <==> it != null && exists m :: m in s.K && Real(s.M, m) && s.K[m] <= s.K[it]
      decreases if it == null then 0 else it.bit + 1
    {
      OnItsSide(v, s.M, s.K, s.h, it);
      if it.prefix.version != Unknown {
        return true;
      }
      forall m | m in s.K
        ensures s.K[m] <= s.K[it] <==> m == it || (it.parent != null && s.K[m] <= s.K[it.parent])
      {
        AboveSplit(v, s, it, m);
      }
      it := it.parent;
    }
  }

  /** bgpstream_patricia_tree_get_node_overlap_info. */
  method GetNodeOverlapInfo(t: Family, node: Node) returns (mask: bv8)
    requires t.Valid() && node in t.keys && Real(t.Now().M, node)
    ensures mask == OverlapMask(Contents(t.Now()), t.keys[node])
  {
    ghost var s := t.Now();
    mask := EXACT_MATCH;
    var less := AnyAbove(t.v, s, node);
    if less {
      mask := mask | LESS_SPECIFICS;
    }
    Descent(t.v, s, node, false);
    Descent(t.v, s, node, true);
    var more := FindMoreSpecific(t.v, s, node.l);
    if !more {
      more := FindMoreSpecific(t.v, s, node.r);
    }
    MoreBelow(t.v, s, node);
    if more {
      mask := mask | MORE_SPECIFICS;
    }
    assert s.K[node] in Contents(s);
  }

  lemma MoreBelow(v: Version, s: State, node: Node)
    requires Good(v, s) && node in s.K
    ensures At(s, s.M[node].l) && At(s, s.M[node].r)
    ensures HasMore(Contents(s), s.K[node]) <==>
      exists m :: m in s.K && (InSubtree(s, s.M[node].l, m) || InSubtree(s, s.M[node].r, m)) && Real(s.M, m)
  {
    forall m | m in s.K
      ensures At(s, s.M[node].l) && At(s, s.M[node].r)
      ensures InSubtree(s, node, m) <==> m == node || InSubtree(s, s.M[node].l, m) || InSubtree(s, s.M[node].r, m)
      ensures InSubtree(s, s.M[node].l, m) || InSubtree(s, s.M[node].r, m) ==> m != node
    {
      SubtreeSplit(v, s, node, m);
    }
    if m: Node :| m in s.K && (InSubtree(s, s.M[node].l, m) || InSubtree(s, s.M[node].r, m)) && Real(s.M, m) {
      assert s.K[m] in Contents(s) && s.K[m] != s.K[node];
    }
  }

  /** The new node has both children exactly when it was a glue node. */
  lemma PlacedChildren(v: Version, s: State, how: Placement, x: Node, p: Prefix)
    requires WellFormed(p) && Possible(v, s, how, x, p) && !how.Present?
    ensures var t := Place(v, s, how, x, p);
      x in t.M && (how.GlueMod? <==> t.M[x].l != null && t.M[x].r != null)
  {
    match how
    case GlueMod => assert LabelledAt(v, s.M, s.K, x);
    case First =>
    case AsChild(n, b) =>
    case AsParent(n, b) => OnItsSide(v, s.M, s.K, s.h, n);
    case UnderNewGlue(n, b, g, f) => OnItsSide(v, s.M, s.K, s.h, n);
  }

  /** An absent prefix reuses a glue node exactly when one stands for its bit string. */
  lemma ReusesGlue(v: Version, s: State, how: Placement, x: Node, p: Prefix)
    requires WellFormed(p) && Possible(v, s, how, x, p)
    ensures KeyOf(p) in s.K.Values <==> how.Present? || how.GlueMod?
  {
    if KeyOf(p) in s.K.Values && !how.Present? && !how.GlueMod? {
      var m :| m in s.K && s.K[m] == KeyOf(p);
      match how
      case First =>
      case AsChild(n, b) => HangFresh(v, s.M, s.K, s.h, n, b, x, KeyOf(p), m);
      case AsParent(n, b) => SpliceFresh(v, s.M, s.K, s.h, n, b, x, KeyOf(p), m);
      case UnderNewGlue(n, b, g, f) => SpliceFresh(v, s.M, s.K, s.h, n, b, g, f, m);
    }
  }

  /** All that matters of inserting an absent prefix only to remove it again. */
  lemma ProbeFacts(v: Version, s: State, how: Placement, x: Node, p: Prefix, t: State)
    requires IsInsert(v, s, how, x, p, t) && KeyOf(p) !in Contents(s)
    ensures Good(v, t) && x in t.K && t.K[x] == KeyOf(p) && Real(t.M, x) && x in t.M
    ensures KeyOf(p) in s.K.Values <==> t.M[x].l != null && t.M[x].r != null
    ensures Remove(v, t, x) == s
    ensures Contents(t) == Contents(s) + {KeyOf(p)}
  {
    PlaceCounts(v, s, how, x, p);
    PlaceOk(v, s, how, x, p);
    PlaceAt(v, s, how, x, p);
    RemoveUndoesPlace(v, s, how, x, p);
    PlacedChildren(v, s, how, x, p);
    ReusesGlue(v, s, how, x, p);
  }

  /** Take the inserted node out again. */
  method EndProbe(t: Family, node: Node, ghost s: State)
    requires t.Valid() && node in t.keys && Real(t.Now().M, node) && Remove(t.v, t.Now(), node) == s
    modifies t, t.keys.Keys
    ensures t.Valid() && t.Now() == s
    ensures t.active == old(t.active) - if old(node.l != null && node.r != null) then 0 else 1
  {
    t.RemoveNode(node);
  }

  /** bgpstream_patricia_tree_get_pfx_overlap_info. The answer is the brute-force one, and the
      tree afterwards is the very tree it was; but asking about an absent prefix that a glue
      node stands for leaves the active-node counter one too high. */
  method GetPfxOverlapInfo(t: Family, pfx: Prefix) returns (mask: bv8)
    requires t.Valid() && WellFormed(pfx) && pfx.version == t.v
    modifies t, t.keys.Keys
    ensures t.Valid() && t.Now() == old(t.Now())
    ensures mask == OverlapMask(old(Contents(t.Now())), KeyOf(pfx))
    ensures t.active == old(t.active) +
      if KeyOf(pfx) in old(t.keys.Values) && KeyOf(pfx) !in old(Contents(t.Now())) then 1 else 0
  {
    var node := t.SearchExact(pfx);
    if node != null {
      mask := GetNodeOverlapInfo(t, node);
      mask := mask | EXACT_MATCH;
    } else {
      mask := OverlapOfAbsent(t, pfx);
    }
  }

  method OverlapOfAbsent(t: Family, pfx: Prefix) returns (mask: bv8)
    requires t.Valid() && WellFormed(pfx) && pfx.version == t.v && KeyOf(pfx) !in Contents(t.Now())
    modifies t, t.keys.Keys
    ensures t.Valid() && t.Now() == old(t.Now())
    ensures mask == OverlapMask(old(Contents(t.Now())), KeyOf(pfx))
    ensures t.active == old(t.active) + if KeyOf(pfx) in old(t.keys.Values) then 1 else 0
  {
    ghost var s := t.Now();
    ghost var how;
    var node;
    node, how := t.Insert(pfx);
    ProbeFacts(t.v, s, how, node, pfx, t.Now());
    mask := GetNodeOverlapInfo(t, node);
    WithoutItself(Contents(s), KeyOf(pfx));
    mask := mask & !EXACT_MATCH;
    EndProbe(t, node, s);
  }

  lemma WithoutItself(stored: set<Key>, k: Key)
    requires k !in stored
    ensures OverlapMask(stored, k) == OverlapMask(stored + {k}, k) & !EXACT_MATCH
  {
    assert HasLess(stored, k) == HasLess(stored + {k}, k);
    assert HasMore(stored, k) == HasMore(stored + {k}, k);
  }
}
