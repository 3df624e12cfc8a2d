/** One address family of struct bgpstream_patricia_tree: a head and an active-node counter.
    The struct holds two of these, for IPv4 and IPv6, and every operation first selects one
    by the version of its prefix. */
module PatriciaTree {
  import opened Prefixes
  import opened Trie
  import opened TrieInsertion
  import opened TrieSteps
  import opened Patricia

  ghost function Contents(s: State): set<Key>
  {
    Stored(s.M, s.K)
  }

  /** An insert finds the prefix present exactly when it is stored, and otherwise makes the
      stored set one larger. */
  lemma PlaceCounts(v: Version, s: State, how: Placement, x: Node, p: Prefix)
    requires WellFormed(p) && Possible(v, s, how, x, p)
    ensures how.Present? <==> KeyOf(p) in Contents(s)
    ensures |Contents(Place(v, s, how, x, p))| == |Contents(s)| + if how.Present? then 0 else 1
  {
    PlaceOk(v, s, how, x, p);
    if KeyOf(p) in Contents(s) && !how.Present? {
      var m :| m in s.K && Real(s.M, m) && s.K[m] == KeyOf(p);
      match how
      case GlueMod =>
      case First =>
      case AsChild(n, b) => HangFresh(v, s.M, s.K, s.h, n, b, x, KeyOf(p), m);
      case AsParent(n, b) => SpliceFresh(v, s.M, s.K, s.h, n, b, x, KeyOf(p), m);
      case UnderNewGlue(n, b, g, f) => SpliceFresh(v, s.M, s.K, s.h, n, b, g, f, m);
    }
  }

  lemma InsertFacts(v: Version, s: State, how: Placement, x: Node, p: Prefix, t: State)
    requires IsInsert(v, s, how, x, p, t)
    ensures Ok(v, t.M, t.K, t.h) && Contents(t) == Contents(s) + {KeyOf(p)}
    ensures how.Present? <==> KeyOf(p) in Contents(s)
    ensures |Contents(t)| == |Contents(s)| + if how.Present? then 0 else 1
  {
    PlaceOk(v, s, how, x, p);
    PlaceCounts(v, s, how, x, p);
  }

  ghost predicate IsRemove(v: Version, s: State, n: Node, t: State)
  {
    Ok(v, s.M, s.K, s.h) && n in s.K && Real(s.M, n) && t == Remove(v, s, n)
  }

  lemma RemoveFacts(v: Version, s: State, n: Node, t: State)
    requires IsRemove(v, s, n, t)
    ensures Ok(v, t.M, t.K, t.h) && Contents(t) == Contents(s) - {s.K[n]}
    ensures |Contents(t)| == |Contents(s)| - 1
  {
    RemoveOk(v, s, n);
    assert s.K[n] in Contents(s);
  }

  class Family {
    const v: Version
    var head: Node?
    var active: nat
    ghost var keys: Keys
    // removals of nodes with two children: remove_node returns before its decrement for these
    ghost var leaked: nat

    ghost function Now(): State
      reads this, keys.Keys
    {
      State(Snapshot(keys.Keys), keys, head)
    }

    /** The trie invariant, and what the counter counts: it exceeds the number of stored
        prefixes by the number of two-child removals so far. */
    ghost predicate Valid()
      reads this, keys.Keys
    {
      v != Unknown && Ok(v, Now().M, Now().K, Now().h) && active == |Contents(Now())| + leaked
    }

    constructor (v: Version)
      requires v != Unknown
      ensures Valid() && this.v == v && keys == map[] && active == leaked == 0 && Contents(Now()) == {}
    {
      this.v := v;
      head, active, keys, leaked := null, 0, map[], 0;
    }

    /** bgpstream_patricia_tree_search_exact: a node is found exactly when the prefix is stored. */
    method SearchExact(pfx: Prefix) returns (node: Node?)
      requires Valid() && WellFormed(pfx) && pfx.version == v
      ensures node != null <==> KeyOf(pfx) in Contents(Now())
      ensures node != null ==> node in keys && keys[node] == KeyOf(pfx) && Real(Now().M, node)
    {
      node := FindExact(v, keys, head, pfx);
    }

    /** bgpstream_patricia_set_head and the counter update, with the nodes the tree now has. */
    method Adopt(newHead: Node?, count: nat, ghost K': Keys, ghost leaks: nat, ghost s: State)
      requires State(Snapshot(K'.Keys), K', newHead) == s
      modifies this
      ensures head == newHead && keys == K' && active == count && leaked == leaks && Now() == s
    {
      head, active, keys, leaked := newHead, count, K', leaks;
    }

    /** bgpstream_patricia_tree_insert. */
    method Insert(pfx: Prefix) returns (node: Node, ghost how: Placement)
      requires Valid() && WellFormed(pfx) && pfx.version == v
      modifies this, keys.Keys
      ensures Valid()
      ensures IsInsert(v, old(Now()), how, node, pfx, Now())
      ensures Contents(Now()) == old(Contents(Now())) + {KeyOf(pfx)}
      ensures active == old(active) + if KeyOf(pfx) in old(Contents(Now())) then 0 else 1
      ensures leaked == old(leaked) && fresh(keys.Keys - old(keys).Keys)
    {
      ghost var s := Now();
      var newHead, isNew;
      ghost var K';
      if head == null {
        node, K', how := PlantFirst(v, keys, pfx);
        newHead, isNew := node, true;
      } else {
        node, newHead, isNew, K', how := InsertInto(v, keys, head, pfx);
      }
      ghost var t := State(Snapshot(K'.Keys), K', newHead);
      InsertFacts(v, s, how, node, pfx, t);
      Adopt(newHead, if isNew then active + 1 else active, K', leaked, t);
    }

    /** A node that holds a prefix leaves, or becomes glue. */
    method TakeOut(node: Node)
      requires Valid() && node in keys && Real(Now().M, node)
      modifies this, keys.Keys
      ensures Valid()
      ensures IsRemove(v, old(Now()), node, Now())
      ensures Contents(Now()) == old(Contents(Now())) - {old(keys)[node]}
      ensures active == old(active) - if old(node.l != null && node.r != null) then 0 else 1
      ensures leaked == old(leaked) + if old(node.l != null && node.r != null) then 1 else 0
      ensures keys.Keys <= old(keys).Keys
    {
      ghost var s := Now();
      var newHead, counted;
      ghost var K';
      newHead, counted, K' := RemoveFrom(v, keys, head, node);
      ghost var t := State(Snapshot(K'.Keys), K', newHead);
      RemoveFacts(v, s, node, t);
      Adopt(newHead, if counted then active - 1 else active, K', if counted then leaked else leaked + 1, t);
    }

    /** bgpstream_patricia_tree_remove_node: null and glue nodes are left alone. */
    method RemoveNode(node: Node?)
      requires Valid() && (node != null ==> node in keys)
      modifies this, keys.Keys
      ensures Valid() && keys.Keys <= old(keys).Keys
      ensures node == null || !old(Real(Now().M, node)) ==>
        Now() == old(Now()) && active == old(active) && leaked == old(leaked)
      ensures node != null && old(Real(Now().M, node)) ==>
        && IsRemove(v, old(Now()), node, Now())
        && Contents(Now()) == old(Contents(Now())) - {old(keys)[node]}
        && active == old(active) - (if old(node.l != null && node.r != null) then 0 else 1)
        && leaked == old(leaked) + if old(node.l != null && node.r != null) then 1 else 0
    {
      if node == null {
        return;
      }
      assert Now().M[node] == node.View();
      if node.prefix.version == Unknown {
        return;
      }
      TakeOut(node);
    }

    /** bgpstream_patricia_tree_remove: nothing happens when the prefix is not stored. */
    method RemovePrefix(pfx: Prefix)
      requires Valid() && WellFormed(pfx) && pfx.version == v
      modifies this, keys.Keys
      ensures Valid()
      ensures Contents(Now()) == old(Contents(Now())) - {KeyOf(pfx)}
      ensures KeyOf(pfx) !in old(Contents(Now())) ==> Now() == old(Now()) && active == old(active)
    {
      var node := SearchExact(pfx);
      RemoveNode(node);
    }
  }
}
