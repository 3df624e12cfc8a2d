/** The queries on a patricia tree: recursive walks and climbs over the nodes, filling a
    result set that carries its own cursor. */
module PatriciaQueries {
  import opened Sequences
  import opened Prefixes
  import opened Trie
  import opened TrieInsertion
  import opened TrieSteps
  import opened TrieListing
  import opened TrieSubnets
  import opened PatriciaTree

  /** struct bgpstream_patricia_tree_result_set. */
  class ResultSet {
    var results: seq<Node>
    var cursor: nat

    constructor ()
      ensures results == [] && cursor == 0
    {
      results, cursor := [], 0;
    }

    method Add(node: Node)
      modifies this`results
      ensures results == old(results) + [node]
    {
      results := results + [node];
    }

    /** The results go; the cursor stays where it was. */
    method Clear()
      modifies this`results
      ensures results == []
    {
      results := [];
    }

    method Next() returns (node: Node?)
      modifies this`cursor
      ensures old(cursor) < |results| ==> node == results[old(cursor)] && cursor == old(cursor) + 1
      ensures |results| <= old(cursor) ==> node == null && cursor == old(cursor)
    {
      if |results| <= cursor {
        node := null;
      } else {
        node := results[cursor];
        cursor := cursor + 1;
      }
    }
  }

  method AddMoreSpecifics(ghost v: Version, ghost s: State, found: ResultSet, node: Node?, depth: nat)
    requires Good(v, s) && s.M == Snapshot(s.K.Keys) && At(s, node)
    modifies found`results
    ensures found.results == old(found.results) + Listing(v, s, node, depth)
    decreases Room(v, s, node)
  {
    if node == null || depth == 0 {
      return;
    }
    Descent(v, s, node, false);
    Descent(v, s, node, true);
    ghost var before := found.results;
    ghost var here := if Real(s.M, node) then [node] else [];
    var l, r, d := node.l, node.r, depth;
    if node.prefix.version != Unknown {
      found.Add(node);
      d := d - 1;
    }
    assert found.results == before + here && s.M == Snapshot(s.K.Keys);
    AddMoreSpecifics(v, s, found, l, d);
    assert s.M == Snapshot(s.K.Keys);
    AddMoreSpecifics(v, s, found, r, d);
    ListingUnfolded(v, s, node, depth, d);
    Assoc(before + here, Listing(v, s, l, d), Listing(v, s, r, d));
    Assoc(before, here, Listing(v, s, l, d) + Listing(v, s, r, d));
    Assoc(here, Listing(v, s, l, d), Listing(v, s, r, d));
  }

  /** bgpstream_patricia_tree_get_more_specifics: the stored prefixes strictly inside node's,
      in ascending address order. */
  method GetMoreSpecifics(t: Family, node: Node, found: ResultSet)
    requires t.Valid() && node in t.keys
    modifies found`results
    ensures Ascending(t.Now(), found.results)
    ensures forall m :: m in found.results <==>
      m in t.keys && Real(t.Now().M, m) && t.keys[node] <= t.keys[m] && m != node
  {
    ghost var s := t.Now();
    found.Clear();
    MoreSpecificsExact(t.v, s, node);
    var l, r := node.l, node.r;
    AddMoreSpecifics(t.v, s, found, l, 129);
    assert found.results == Listing(t.v, s, l, 129);
    AddMoreSpecifics(t.v, s, found, r, 129);
    assert t.Now() == s;
  }

  /** bgpstream_patricia_tree_get_minimum_coverage: the stored prefixes no other stored prefix
      contains, in ascending address order. */
  method GetMinimumCoverage(t: Family, found: ResultSet)
    requires t.Valid()
    modifies found`results
    ensures Ascending(t.Now(), found.results)
    ensures forall m :: m in found.results <==>
      m in t.keys && Real(t.Now().M, m) && forall k :: k in Contents(t.Now()) && k <= t.keys[m] ==> k == t.keys[m]
  {
    ghost var s := t.Now();
    found.Clear();
    MinimumCoverageExact(t.v, s);
    AddMoreSpecifics(t.v, s, found, t.head, 1);
    assert found.results == Listing(t.v, s, s.h, 1);
    assert t.Now() == s;
  }

  /** add_less_specifics: climb, adding labelled nodes until depth of them have been met. */
  method AddLessSpecifics(ghost v: Version, ghost s: State, found: ResultSet, start: Node?, depth: nat)
    requires Good(v, s) && s.M == Snapshot(s.K.Keys) && At(s, start)
    modifies found`results
    ensures found.results == old(found.results) + Climbing(v, s, start, depth)
  {
    var node, d := start, depth;
    while node != null && d > 0
      invariant At(s, node)
      invariant found.results + Climbing(v, s, node, d) == old(found.results) + Climbing(v, s, start, depth)
      decreases if node == null then 0 else node.bit + 1
    {
      OnItsSide(v, s.M, s.K, s.h, node);
      ClimbingUnfolded(v, s, node, d);
      assert s.M[node] == node.View();
      if node.prefix.version != Unknown {
        Assoc(found.results, [node], Climbing(v, s, node.parent, d - 1));
        found.Add(node);
        d := d - 1;
      }
      node := node.parent;
    }
  }

  /** bgpstream_patricia_tree_get_less_specifics: the stored prefixes strictly containing
      node's, nearest first. */
  method GetLessSpecifics(t: Family, node: Node, found: ResultSet)
    requires t.Valid() && node in t.keys
    modifies found`results
    ensures Shortening(t.Now(), found.results)
    ensures forall m :: m in found.results <==>
      m in t.keys && Real(t.Now().M, m) && t.keys[m] <= t.keys[node] && m != node
  {
    ghost var s := t.Now();
    found.Clear();
    LessSpecificsExact(t.v, s, node);
    AddLessSpecifics(t.v, s, found, node.parent, 129);
    assert t.Now() == s;
  }

  /** bgpstream_patricia_tree_get_mincovering_prefix: the nearest of them, if there is one. */
  method GetMincoveringPrefix(t: Family, node: Node, found: ResultSet)
    requires t.Valid() && node in t.keys
    modifies found`results
    ensures NearestOnly(t.Now(), node, found.results)
  {
    ghost var s := t.Now();
    found.Clear();
    NearestAbove(t.v, s, node);
    AddLessSpecifics(t.v, s, found, node.parent, 1);
    assert found.results == Climbing(t.v, s, s.M[node].parent, 1);
    assert t.Now() == s;
  }

  /** count_subnets. */
  method CountSubnetsFrom(ghost v: Version, ghost s: State, node: Node?, size: nat) returns (count: nat)
    requires Good(v, s) && s.M == Snapshot(s.K.Keys) && At(s, node) && size <= 64
    ensures count == CountSubnets(v, s, node, size)
    decreases Room(v, s, node)
  {
    if node == null {
      return 0;
    }
    Descent(v, s, node, false);
    Descent(v, s, node, true);
    assert LabelledAt(v, s.M, s.K, node);
    if node.prefix.version == Unknown {
      if node.bit >= size {
        return 1;
      }
      var left := CountSubnetsFrom(v, s, node.l, size);
      var right := CountSubnetsFrom(v, s, node.r, size);
      return (left + right) % WRAP;
    }
    if node.prefix.maskLen >= size {
      return 1;
    }
    var diff := size - node.prefix.maskLen;
    return if diff == 64 then WRAP - 1 else Pow2(diff);
  }

  /** The /24 count of an IPv4 tree is the number of distinct /24 blocks touched. */
  method Count24Subnets(t: Family) returns (count: nat)
    requires t.Valid()
    ensures count == |Touched(t.Now(), t.head, 24)|
  {
    ghost var s := t.Now();
    count := CountSubnetsFrom(t.v, s, t.head, 24);
    CountIsTouched(t.v, s, t.head, 24);
    FewBlocks(s, t.head);
  }

  lemma FewBlocks(s: State, n: Node?)
    requires At(s, n)
    ensures |Touched(s, n, 24)| < WRAP
  {
    AllBlocksCount(24);
    Larger(Touched(s, n, 24), Blocks(24));
    Pow2Grows(24, 64);
    Pow2At64();
  }

  /** The /64 count of an IPv6 tree is the number of distinct /64 blocks touched, exactly when
      some block is not. */
  method Count64Subnets(t: Family) returns (count: nat)
    requires t.Valid()
    ensures count == |Touched(t.Now(), t.head, 64)| <==> |Touched(t.Now(), t.head, 64)| < WRAP
  {
    ghost var s := t.Now();
    count := CountSubnetsFrom(t.v, s, t.head, 64);
    CountIsTouched(t.v, s, t.head, 64);
  }

  /** find_more_specific: is there a labelled node at or below node? */
  method FindMoreSpecific(ghost v: Version, ghost s: State, node: Node?) returns (found: bool)
    requires Good(v, s) && s.M == Snapshot(s.K.Keys) && At(s, node)
    ensures found <==> exists m :: m in s.K && InSubtree(s, node, m) && Real(s.M, m)
    decreases Room(v, s, node)
  {
    if node == null {
      return false;
    }
    Descent(v, s, node, false);
    Descent(v, s, node, true);
    if node.prefix.version == Unknown {
      found := FindMoreSpecific(v, s, node.l);
      if !found {
        found := FindMoreSpecific(v, s, node.r);
      }
      forall m | m in s.K
        ensures InSubtree(s, node, m) <==> m == node || InSubtree(s, node.l, m) || InSubtree(s, node.r, m)
      {
        SubtreeSplit(v, s, node, m);
      }
      return;
    }
    return true;
  }
}
