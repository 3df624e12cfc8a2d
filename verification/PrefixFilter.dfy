/** bgpstream_elem_prefix_match: does an element's prefix pass the prefix filters? */
module PrefixFilter {
  import opened Sequences
  import opened Wrappers
  import opened Prefixes
  import opened Trie
  import opened TrieInsertion
  import opened TrieStored
  import opened TrieSteps
  import opened TrieListing
  import opened Patricia
  import opened PatriciaTree
  import opened PatriciaQueries
  import opened PatriciaOverlap

  /** m holds a stored prefix strictly containing k. */
  ghost predicate Above(s: State, k: Key, m: Node)
  {
    m in s.K && Real(s.M, m) && s.K[m] <= k && s.K[m] != k
  }

  /** m holds a stored prefix strictly inside k. */
  ghost predicate Within(s: State, k: Key, m: Node)
  {
    m in s.K && Real(s.M, m) && k <= s.K[m] && s.K[m] != k
  }

  /** The match flag stored with m is ANY or the wanted one. */
  ghost predicate Flagged(s: State, m: Node, wanted: nat)
  {
    Real(s.M, m) && (s.M[m].pfx.value.allowed == MATCH_ANY || s.M[m].pfx.value.allowed == wanted)
  }

  /** The stored prefixes strictly inside k in ascending order. */
  ghost predicate ListsWithin(s: State, k: Key, ms: seq<Node>)
  {
    && Ascending(s, ms)
    && (forall m :: m in ms ==> Within(s, k, m))
    && (forall m :: m in s.K && Within(s, k, m) ==> m in ms)
  }

  ghost predicate LessAllows(s: State, k: Key)
  {
    exists m :: m in s.K && Above(s, k, m) && Flagged(s, m, MATCH_MORE)
  }

  /** Some stored prefix inside k, not among the first `skipped`, is flagged. */
  ghost predicate MoreAllows(s: State, k: Key, ms: seq<Node>, skipped: nat)
  {
    exists i :: skipped <= i < |ms| && Flagged(s, ms[i], MATCH_LESS)
  }

  ghost function AboveSet(s: State, k: Key): set<Node>
  {
    set m | m in s.K && Above(s, k, m)
  }

  /** The answer the code gives when k is not stored, for the listing ms of what lies inside. */
  ghost predicate Verdict(s: State, k: Key, ms: seq<Node>, matched: bool)
  {
    && ListsWithin(s, k, ms)
    && (matched <==> (LessAllows(s, k) || MoreAllows(s, k, ms, |AboveSet(s, k)|)))
  }

  method Scan(found: ResultSet, ghost s: State, wanted: nat) returns (hit: bool)
    requires s.M == Snapshot(s.K.Keys) && forall m :: m in found.results ==> m in s.K && Real(s.M, m)
    modifies found`cursor
    ensures hit <==> exists i :: old(found.cursor) <= i < |found.results| && Flagged(s, found.results[i], wanted)
    ensures !hit && old(found.cursor) <= |found.results| ==> found.cursor == |found.results|
    ensures !hit && old(found.cursor) > |found.results| ==> found.cursor == old(found.cursor)
  {
    hit := false;
    var it := found.Next();
    while it != null
      invariant old(found.cursor) <= found.cursor && s.M == Snapshot(s.K.Keys)
      invariant it != null ==>
        old(found.cursor) < found.cursor <= |found.results| && it == found.results[found.cursor - 1]
      invariant it == null ==> |found.results| <= found.cursor
      invariant it == null ==>
        found.cursor == if old(found.cursor) <= |found.results| then |found.results| else old(found.cursor)
      invariant forall i :: old(found.cursor) <= i < (if it == null then |found.results| else found.cursor - 1) ==>
        !Flagged(s, found.results[i], wanted)
      decreases it != null, |found.results| - found.cursor
    {
      assert it in found.results && Real(s.M, it) && s.M[it] == it.View();
      if it.prefix.allowed == MATCH_ANY || it.prefix.allowed == wanted {
        assert Flagged(s, found.results[found.cursor - 1], wanted);
        return true;
      }
      it := found.Next();
    }
  }

  /** Splicing a node in keeps what the others hold. */
  lemma AboveKeeps(M: Heap, n: Node, b: bool, x: Node, bit: nat, pfx: Option<Prefix>, m: Node)
    requires n in M && (M[n].parent != null ==> M[n].parent in M && M[n].parent != n) && m != x
    ensures var M' := InsertAbove(M, n, b, x, bit, pfx); (m in M' <==> m in M) && (m in M ==> M'[m].pfx == M[m].pfx)
  {
  }

  /** So does hanging one below. */
  lemma BelowKeeps(M: Heap, n: Node, b: bool, x: Node, bit: nat, pfx: Option<Prefix>, m: Node)
    requires n in M && m != x
    ensures var M' := InsertBelow(M, n, b, x, bit, pfx); (m in M' <==> m in M) && (m in M ==> M'[m].pfx == M[m].pfx)
  {
  }

  /** Around a probe: the labelled nodes other than the new one are those there were. */
  lemma ProbeKeepsOthers(v: Version, s: State, how: Placement, x: Node, p: Prefix, t: State, m: Node)
    requires IsInsert(v, s, how, x, p, t) && m != x
    ensures m in t.K && Real(t.M, m) <==> m in s.K && Real(s.M, m)
    ensures m in s.K && Real(s.M, m) ==> m in t.M && t.K[m] == s.K[m] && t.M[m].pfx == s.M[m].pfx
  {
    match how
    case Present =>
    case GlueMod =>
    case First =>
    case AsChild(n, b) => BelowKeeps(s.M, n, b, x, p.maskLen, Some(Created(p)), m);
    case AsParent(n, b) =>
      OnItsSide(v, s.M, s.K, s.h, n);
      AboveKeeps(s.M, n, b, x, p.maskLen, Some(Created(p)), m);
    case UnderNewGlue(n, b, g, f) =>
      OnItsSide(v, s.M, s.K, s.h, n);
      GlueKeeps(s.M, n, b, g, |f|, x, p.maskLen, Created(p), m);
  }

  lemma GlueKeeps(M: Heap, n: Node, b: bool, g: Node, d: nat, x: Node, bit: nat, p: Prefix, m: Node)
    requires n in M && (M[n].parent != null ==> M[n].parent in M && M[n].parent != n) && m != x && g !in M
    ensures var M' := InsertGlue(M, n, b, g, d, x, bit, p);
      (Real(M', m) <==> Real(M, m)) && (m in M ==> m in M' && M'[m].pfx == M[m].pfx)
  {
    if m != g {
      AboveKeeps(M, n, b, g, d, None, m);
    }
    BelowKeeps(InsertAbove(M, n, b, g, d, None), g, !b, x, bit, Some(p), m);
  }

  lemma ProbeKeepsViews(v: Version, s: State, how: Placement, x: Node, p: Prefix, t: State, m: Node)
    requires IsInsert(v, s, how, x, p, t) && KeyOf(p) !in Contents(s)
    ensures Above(t, KeyOf(p), m) <==> Above(s, KeyOf(p), m)
    ensures Within(t, KeyOf(p), m) <==> Within(s, KeyOf(p), m)
    ensures Above(s, KeyOf(p), m) || Within(s, KeyOf(p), m) ==>
      t.K[m] == s.K[m] && forall w :: Flagged(t, m, w) <==> Flagged(s, m, w)
  {
    PlaceAt(v, s, how, x, p);
    assert m in s.K && Real(s.M, m) ==> s.K[m] in Contents(s);
    if m != x {
      ProbeKeepsOthers(v, s, how, x, p, t, m);
    }
  }

  /** s and t store the same around k, with the same flags. */
  ghost predicate SameAround(s: State, t: State, k: Key)
  {
    forall m :: m in s.K.Keys + t.K.Keys ==>
      && (Above(t, k, m) <==> Above(s, k, m)) && (Within(t, k, m) <==> Within(s, k, m))
      && (Above(s, k, m) || Within(s, k, m) ==> t.K[m] == s.K[m] && forall w :: Flagged(t, m, w) <==> Flagged(s, m, w))
  }

  lemma SameAnswers(s: State, t: State, k: Key, ms: seq<Node>, skipped: nat)
    requires SameAround(s, t, k) && ListsWithin(t, k, ms)
    ensures ListsWithin(s, k, ms) && (MoreAllows(t, k, ms, skipped) <==> MoreAllows(s, k, ms, skipped))
  {
    assert forall i :: 0 <= i < |ms| ==> ms[i] in ms && Within(t, k, ms[i]) && Within(s, k, ms[i]);
  }

  lemma SameAbove(s: State, t: State, k: Key)
    requires SameAround(s, t, k)
    ensures AboveSet(t, k) == AboveSet(s, k) && (LessAllows(t, k) <==> LessAllows(s, k))
  {
  }

  /** The answers about the prefixes around k are the same with and without the probe. */
  lemma ProbeAnswers(v: Version, s: State, how: Placement, x: Node, p: Prefix, t: State, ms: seq<Node>, matched: bool)
    requires IsInsert(v, s, how, x, p, t) && KeyOf(p) !in Contents(s) && Verdict(t, KeyOf(p), ms, matched)
    ensures Verdict(s, KeyOf(p), ms, matched)
  {
    ProbeKeepsAround(v, s, how, x, p, t);
    SameAbove(s, t, KeyOf(p));
    SameAnswers(s, t, KeyOf(p), ms, |AboveSet(s, KeyOf(p))|);
  }

  lemma ProbeKeepsAround(v: Version, s: State, how: Placement, x: Node, p: Prefix, t: State)
    requires IsInsert(v, s, how, x, p, t) && KeyOf(p) !in Contents(s)
    ensures SameAround(s, t, KeyOf(p))
  {
    forall m | m in s.K.Keys + t.K.Keys
      ensures Above(t, KeyOf(p), m) <==> Above(s, KeyOf(p), m)
      ensures Within(t, KeyOf(p), m) <==> Within(s, KeyOf(p), m)
      ensures Above(s, KeyOf(p), m) || Within(s, KeyOf(p), m) ==>
        t.K[m] == s.K[m] && forall w :: Flagged(t, m, w) <==> Flagged(s, m, w)
    {
      ProbeKeepsViews(v, s, how, x, p, t, m);
    }
  }

  /** The code's answer, exactly: an exact match, or a stored prefix containing the searched one
      that allows more specifics, or one inside it that allows less specifics and is not among
      the first c in address order, where c is how many stored prefixes contain the searched one
      (the cursor keeps its position when the result set is cleared). The tree is unchanged. */
  method ElemPrefixMatch(t: Family, search: Prefix) returns (matched: bool, ghost within: seq<Node>)
    requires t.Valid() && WellFormed(search) && search.version == t.v
    modifies t, t.keys.Keys
    ensures t.Valid() && t.Now() == old(t.Now())
    ensures KeyOf(search) in old(Contents(t.Now())) ==> matched
    ensures KeyOf(search) !in old(Contents(t.Now())) ==> Verdict(old(t.Now()), KeyOf(search), within, matched)
  {
    within := [];
    var node := t.SearchExact(search);
    if node != null {
      return true, [];
    }
    matched, within := MatchAbsent(t, search);
  }

  /** A prefix that is not stored is inserted, looked around, and removed again. */
  method MatchAbsent(t: Family, search: Prefix) returns (matched: bool, ghost within: seq<Node>)
    requires t.Valid() && WellFormed(search) && search.version == t.v && KeyOf(search) !in Contents(t.Now())
    modifies t, t.keys.Keys
    ensures t.Valid() && t.Now() == old(t.Now())
    ensures Verdict(old(t.Now()), KeyOf(search), within, matched)
  {
    ghost var s := t.Now();
    var node;
    ghost var how;
    node, how := t.Insert(search);
    ProbeFacts(t.v, s, how, node, search, t.Now());
    matched, within := MatchAround(t, node);
    ProbeAnswers(t.v, s, how, node, search, t.Now(), within, matched);
    EndProbe(t, node, s);
  }

  /** The two scans around the inserted node. */
  method MatchAround(t: Family, n: Node) returns (matched: bool, ghost within: seq<Node>)
    requires t.Valid() && n in t.keys && Real(t.Now().M, n)
    ensures Verdict(t.Now(), t.keys[n], within, matched)
  {
    ghost var s, k := t.Now(), t.keys[n];
    var res := new ResultSet();
    assert t.Now() == s;
    matched := ScanLess(t, n, res);
    if matched {
      within := SomeListing(t, n);
    } else {
      matched := ScanMore(t, n, res);
      within := res.results;
    }
  }

  method ScanLess(t: Family, n: Node, res: ResultSet) returns (hit: bool)
    requires t.Valid() && n in t.keys && res.cursor == 0
    modifies res
    ensures t.Valid() && t.Now() == old(t.Now())
    ensures hit <==> LessAllows(t.Now(), t.keys[n])
    ensures !hit ==> res.cursor == |AboveSet(t.Now(), t.keys[n])|
  {
    ghost var s, k := t.Now(), t.keys[n];
    OnlyHolder(t.v, s, n);
    GetLessSpecifics(t, n, res);
    assert t.Now() == s;
    ghost var above := res.results;
    CountDistinct(above, AboveSet(s, k));
    hit := Scan(res, s, MATCH_MORE);
    assert t.Now() == s;
    FlaggedAbove(s, k, above);
  }

  lemma FlaggedAbove(s: State, k: Key, above: seq<Node>)
    requires forall m :: m in above <==> m in s.K && Above(s, k, m)
    ensures LessAllows(s, k) <==> exists i :: 0 <= i < |above| && Flagged(s, above[i], MATCH_MORE)
  {
    assert forall i :: 0 <= i < |above| ==> above[i] in above;
  }

  method ScanMore(t: Family, n: Node, res: ResultSet) returns (hit: bool)
    requires t.Valid() && n in t.keys
    modifies res
    ensures t.Valid() && t.Now() == old(t.Now())
    ensures ListsWithin(t.Now(), t.keys[n], res.results)
    ensures hit <==> MoreAllows(t.Now(), t.keys[n], res.results, old(res.cursor))
  {
    ghost var s, k := t.Now(), t.keys[n];
    OnlyHolder(t.v, s, n);
    GetMoreSpecifics(t, n, res);
    assert t.Now() == s;
    assert ListsWithin(s, k, res.results);
    hit := Scan(res, s, MATCH_LESS);
    assert t.Now() == s;
  }

  lemma OnlyHolder(v: Version, s: State, n: Node)
    requires Good(v, s) && n in s.K
    ensures forall m :: m in s.K && m != n ==> s.K[m] != s.K[n]
  {
  }

  lemma SomeListing(t: Family, n: Node) returns (within: seq<Node>)
    requires t.Valid() && n in t.keys
    ensures ListsWithin(t.Now(), t.keys[n], within)
  {
    var s := t.Now();
    MoreSpecificsExact(t.v, s, n);
    OnlyHolder(t.v, s, n);
    within := Listing(t.v, s, s.M[n].l, 129) + Listing(t.v, s, s.M[n].r, 129);
  }

  // ---------- what the answer means ----------

  /** What the two scans are evidently after, for a prefix that is not stored. */
  ghost predicate Intended(s: State, k: Key)
  {
    LessAllows(s, k) || exists m :: m in s.K && Within(s, k, m) && Flagged(s, m, MATCH_LESS)
  }

  /** The code never passes a prefix it should not, and misses one exactly when stored prefixes
      contain it, none of them allows more specifics, and every stored prefix inside it that
      allows less specifics comes among the first |AboveSet| of the listing. */
  lemma VerdictVersusIntent(s: State, k: Key, ms: seq<Node>, matched: bool)
    requires Verdict(s, k, ms, matched)
    ensures matched ==> Intended(s, k)
    ensures AboveSet(s, k) == {} ==> (matched <==> Intended(s, k))
    ensures !matched && Intended(s, k) <==>
      && !LessAllows(s, k) && MoreAllows(s, k, ms, 0)
      && forall i :: 0 <= i < |ms| && Flagged(s, ms[i], MATCH_LESS) ==> i < |AboveSet(s, k)|
  {
    assert forall i :: 0 <= i < |ms| ==> ms[i] in ms && Within(s, k, ms[i]);
    if m: Node :| m in s.K && Within(s, k, m) && Flagged(s, m, MATCH_LESS) {
      assert m in ms;
      var i :| 0 <= i < |ms| && ms[i] == m;
      assert MoreAllows(s, k, ms, 0);
    }
  }

  /** The match flag a filter was added with is the one stored only where insert reuses a glue
      node; a created node always allows any match. */
  lemma StoredFlag(v: Version, s: State, how: Placement, x: Node, p: Prefix, t: State)
    requires IsInsert(v, s, how, x, p, t) && KeyOf(p) !in Contents(s)
    ensures Real(t.M, x)
    ensures t.M[x].pfx.value.allowed == if KeyOf(p) in s.K.Values then p.allowed else MATCH_ANY
    ensures t.M[x].pfx.value.allowed == p.allowed <==> p.allowed == MATCH_ANY || KeyOf(p) in s.K.Values
  {
    PlaceCounts(v, s, how, x, p);
    PlaceAt(v, s, how, x, p);
    ReusesGlue(v, s, how, x, p);
  }
}
