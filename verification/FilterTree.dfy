/** The tree of prefix filters: built by inserts alone, it keeps the flags that FilterFlags says, and
    every search answers as those flags do. */
module FilterTree {
  import opened Wrappers
  import opened Prefixes
  import opened Trie
  import opened TrieStored
  import opened TrieSteps
  import opened TrieListing
  import opened TrieSubnets
  import opened Patricia
  import opened PatriciaTree
  import opened PrefixFilter
  import opened FilterFlags

  // ---------- where glue nodes are ----------

  /** Some node stands for k exactly when k is stored or has stored prefixes on both sides. */
  lemma NodeStands(v: Version, s: State, k: Key)
    requires Good(v, s)
    ensures k in s.K.Values <==> k in Contents(s) || Split(Contents(s), k)
  {
    if n: Node :| n in s.K && s.K[n] == k {
      if !Real(s.M, n) {
        GlueSplits(v, s, n);
      }
    }
    if Split(Contents(s), k) {
      var a, b :| a in Contents(s) && b in Contents(s) && k + [false] <= a && k + [true] <= b;
      var x: Node :| x in s.K && Real(s.M, x) && s.K[x] == a;
      var y: Node :| y in s.K && Real(s.M, y) && s.K[y] == b;
      ForkAt(v, s, s.h, k, x, y);
    }
  }

  lemma GlueSplits(v: Version, s: State, n: Node)
    requires Good(v, s) && n in s.K && !Real(s.M, n)
    ensures Split(Contents(s), s.K[n])
  {
    assert LabelledAt(v, s.M, s.K, n);
    Descent(v, s, n, false);
    Descent(v, s, n, true);
    var a := HasReal(v, s, s.M[n].l);
    var b := HasReal(v, s, s.M[n].r);
    assert s.K[a] in Contents(s) && s.K[b] in Contents(s);
    assert s.K[n] + [false] <= s.K[a] && s.K[n] + [true] <= s.K[b];
  }

  /** On the way down from n to two nodes on either side of k there is a node for k. */
  lemma {:induction false} ForkAt(v: Version, s: State, n: Node?, k: Key, x: Node, y: Node)
    requires Good(v, s) && n != null && n in s.K && x in s.K && y in s.K
    requires k + [false] <= s.K[x] && k + [true] <= s.K[y] && s.K[n] <= s.K[x] && s.K[n] <= s.K[y]
    ensures k in s.K.Values
    decreases Room(v, s, n)
  {
    ForkPrefix(k, s.K[n], s.K[x], s.K[y]);
    if |s.K[n]| < |k| {
      var b := k[|s.K[n]|];
      assert CompleteAt(s.M, s.K, n, b, x) && CompleteAt(s.M, s.K, n, b, y);
      Descent(v, s, n, b);
      ForkAt(v, s, s.M[n].Child(b), k, x, y);
    }
  }

  lemma ForkPrefix(k: Key, a: Key, x: Key, y: Key)
    requires k + [false] <= x && k + [true] <= y && a <= x && a <= y
    ensures a <= k
    ensures |a| < |k| ==> Below(a, k[|a|], x) && Below(a, k[|a|], y)
    ensures |a| >= |k| ==> a == k
  {
    assert x[|k|] == false && y[|k|] == true;
    assert k == x[..|k|] && k == y[..|k|];
  }

  // ---------- the flags of a tree ----------

  /** s stores the prefixes of flags, with those match flags. */
  ghost predicate Carries(s: State, flags: Flags)
  {
    && flags.Keys == Contents(s)
    && forall n :: n in s.K && Real(s.M, n) ==> s.M[n].pfx.value.allowed == flags[s.K[n]]
  }

  /** Adding a filter to the tree is adding it to the flags. */
  lemma CarriesInsert(v: Version, s: State, how: Placement, x: Node, p: Prefix, t: State, flags: Flags)
    requires IsInsert(v, s, how, x, p, t) && Carries(s, flags)
    ensures Good(v, t) && Carries(t, AddFlag(flags, p))
  {
    InsertFacts(v, s, how, x, p, t);
    if !how.Present? {
      CarriesNew(v, s, how, x, p, t, flags);
    }
  }

  lemma CarriesNew(v: Version, s: State, how: Placement, x: Node, p: Prefix, t: State, flags: Flags)
    requires IsInsert(v, s, how, x, p, t) && Carries(s, flags) && KeyOf(p) !in flags
    requires Contents(t) == Contents(s) + {KeyOf(p)}
    ensures Carries(t, AddFlag(flags, p))
  {
    NodeStands(v, s, KeyOf(p));
    StoredFlag(v, s, how, x, p, t);
    PlaceAt(v, s, how, x, p);
    forall n | n in t.K && Real(t.M, n)
      ensures n == x || (t.K[n] in flags && t.M[n].pfx.value.allowed == flags[t.K[n]])
    {
      if n != x {
        OtherFlag(v, s, how, x, p, t, n, flags);
      }
    }
    OneMoreCarried(t, x, flags, AddFlag(flags, p));
  }

  lemma OneMoreCarried(t: State, x: Node, flags: Flags, more: Flags)
    requires x in t.K && Real(t.M, x) && t.K[x] !in flags && Contents(t) == flags.Keys + {t.K[x]}
    requires more == flags[t.K[x] := t.M[x].pfx.value.allowed]
    requires forall n :: n in t.K && Real(t.M, n) ==>
      n == x || (t.K[n] in flags && t.M[n].pfx.value.allowed == flags[t.K[n]])
    ensures Carries(t, more)
  {
  }

  lemma OtherFlag(v: Version, s: State, how: Placement, x: Node, p: Prefix, t: State, n: Node, flags: Flags)
    requires IsInsert(v, s, how, x, p, t) && Carries(s, flags) && n in t.K && Real(t.M, n) && n != x
    ensures t.K[n] in flags && t.M[n].pfx.value.allowed == flags[t.K[n]]
  {
    ProbeKeepsOthers(v, s, how, x, p, t, n);
    assert s.K[n] in Contents(s);
  }

  // ---------- trees built by inserts ----------

  datatype Step = Step(how: Placement, x: Node, p: Prefix)

  ghost function FiltersOf(steps: seq<Step>): (fs: seq<Prefix>)
    ensures |fs| == |steps| && forall i :: 0 <= i < |steps| ==> fs[i] == steps[i].p
  {
    seq(|steps|, i requires 0 <= i < |steps| => steps[i].p)
  }

  /** Each step is an insert into the tree the steps before it built. */
  ghost predicate Grows(v: Version, steps: seq<Step>)
    decreases |steps|, 0
  {
    steps == [] ||
    var init, last := steps[..|steps| - 1], steps[|steps| - 1];
    Grows(v, init) && WellFormed(last.p) && Possible(v, Grown(v, init), last.how, last.x, last.p)
  }

  ghost function Grown(v: Version, steps: seq<Step>): State
    requires Grows(v, steps)
    decreases |steps|, 1
  {
    if steps == [] then State(map[], map[], null)
    else
      var init, last := steps[..|steps| - 1], steps[|steps| - 1];
      Place(v, Grown(v, init), last.how, last.x, last.p)
  }

  lemma LastFilter(steps: seq<Step>)
    requires steps != []
    ensures var fs, init, p := FiltersOf(steps), FiltersOf(steps[..|steps| - 1]), steps[|steps| - 1].p;
      AllWellFormed(init) && WellFormed(p) ==> AllWellFormed(fs) && Kept(fs) == AddFlag(Kept(init), p)
  {
    var fs, init, p := FiltersOf(steps), FiltersOf(steps[..|steps| - 1]), steps[|steps| - 1].p;
    assert fs == init + [p];
    if AllWellFormed(init) && WellFormed(p) {
      OneMoreFilter(init, p);
    }
  }

  lemma OneMoreFilter(fs: seq<Prefix>, p: Prefix)
    requires AllWellFormed(fs) && WellFormed(p)
    ensures AllWellFormed(fs + [p]) && Kept(fs + [p]) == AddFlag(Kept(fs), p)
    ensures Given(fs + [p]) == if KeyOf(p) in Given(fs) then Given(fs) else Given(fs)[KeyOf(p) := p.allowed]
  {
    assert (fs + [p])[..|fs|] == fs;
  }

  /** Whatever the placements, the tree carries the flags kept of the filters. */
  lemma {:induction false} GrownCarries(v: Version, steps: seq<Step>)
    requires Grows(v, steps)
    ensures AllWellFormed(FiltersOf(steps))
    ensures Good(v, Grown(v, steps)) && Carries(Grown(v, steps), Kept(FiltersOf(steps)))
  {
    if steps != [] {
      var init, last := steps[..|steps| - 1], steps[|steps| - 1];
      GrownCarries(v, init);
      LastFilter(steps);
      CarriesInsert(v, Grown(v, init), last.how, last.x, last.p, Grown(v, steps), Kept(FiltersOf(init)));
    }
  }

  // ---------- the verdict is the answer ----------

  lemma {:induction false} SameSize(s: State, ns: set<Node>, ks: set<Key>)
    requires Distinct(s.K) && forall n :: n in ns ==> n in s.K && s.K[n] in ks
    requires forall a :: a in ks ==> exists n :: n in ns && s.K[n] == a
    ensures |ns| == |ks|
    decreases ks
  {
    if ks == {} {
      assert ns == {};
    } else {
      var a :| a in ks;
      var n: Node :| n in ns && s.K[n] == a;
      forall b | b in ks - {a}
        ensures exists m :: m in ns - {n} && s.K[m] == b
      {
        var m: Node :| m in ns && s.K[m] == b;
        assert m in ns - {n};
      }
      SameSize(s, ns - {n}, ks - {a});
    }
  }

  /** As many stored prefixes come before the i-th of the listing as nodes do. */
  lemma PlaceInListing(v: Version, s: State, k: Key, ms: seq<Node>, i: nat)
    requires Good(v, s) && ListsWithin(s, k, ms) && i < |ms|
    ensures ms[i] in s.K && |Earlier(Contents(s), k, s.K[ms[i]])| == i
  {
    assert ms[i] in ms;
    var before := Members(ms[..i]);
    var earlier := Earlier(Contents(s), k, s.K[ms[i]]);
    forall c | c in earlier
      ensures exists n :: n in before && s.K[n] == c
    {
      var n: Node :| n in s.K && Real(s.M, n) && s.K[n] == c;
      ListedBefore(s, k, ms, i, n);
    }
    forall n | n in before
      ensures n in s.K && s.K[n] in earlier
    {
      var j :| 0 <= j < i && ms[j] == n;
      assert ms[j] in ms && Within(s, k, ms[j]);
    }
    SameSize(s, before, earlier);
    CountFirst(s, ms, i);
  }

  lemma ListedBefore(s: State, k: Key, ms: seq<Node>, i: nat, n: Node)
    requires ListsWithin(s, k, ms) && i < |ms| && ms[i] in s.K
    requires n in s.K && Within(s, k, n) && KeyLess(s.K[n], s.K[ms[i]])
    ensures n in ms[..i]
  {
    var j :| 0 <= j < |ms| && ms[j] == n;
    KeyLessAsymmetric(s.K[n], s.K[ms[i]]);
  }

  ghost function Members(ms: seq<Node>): set<Node>
  {
    set n | n in ms
  }

  lemma {:induction false} CountFirst(s: State, ms: seq<Node>, i: nat)
    requires Ascending(s, ms) && i <= |ms|
    ensures |Members(ms[..i])| == i
  {
    if i == 0 {
      assert Members(ms[..0]) == {};
    } else {
      CountFirst(s, ms, i - 1);
      forall j | 0 <= j < i - 1
        ensures ms[j] != ms[i - 1]
      {
        assert ms[j] in ms && ms[i - 1] in ms;
        KeyLessAsymmetric(s.K[ms[j]], s.K[ms[i - 1]]);
      }
      OneMember(ms, i);
    }
  }

  lemma OneMember(ms: seq<Node>, i: nat)
    requires 0 < i <= |ms| && forall j :: 0 <= j < i - 1 ==> ms[j] != ms[i - 1]
    ensures |Members(ms[..i])| == |Members(ms[..i - 1])| + 1
  {
    var before, last := Members(ms[..i - 1]), ms[i - 1];
    assert ms[..i] == ms[..i - 1] + [last];
    assert last !in before;
    assert Members(ms[..i]) == before + {last};
  }

  lemma AboveCounted(v: Version, s: State, k: Key)
    requires Good(v, s)
    ensures |AboveSet(s, k)| == |Containing(Contents(s), k)|
  {
    forall a | a in Containing(Contents(s), k)
      ensures exists n :: n in AboveSet(s, k) && s.K[n] == a
    {
      var n: Node :| n in s.K && Real(s.M, n) && s.K[n] == a;
      assert n in AboveSet(s, k);
    }
    SameSize(s, AboveSet(s, k), Containing(Contents(s), k));
  }

  lemma LessAgrees(v: Version, s: State, flags: Flags, k: Key)
    requires Good(v, s) && Carries(s, flags)
    ensures LessAllows(s, k) <==> LessHit(flags, k)
  {
    if a :| a in flags && a <= k && a != k && AllowsMore(flags[a]) {
      var n: Node :| n in s.K && Real(s.M, n) && s.K[n] == a;
      assert Above(s, k, n) && Flagged(s, n, MATCH_MORE);
    }
    if n: Node :| n in s.K && Above(s, k, n) && Flagged(s, n, MATCH_MORE) {
      assert s.K[n] in Contents(s);
    }
  }

  lemma MoreAgrees(v: Version, s: State, flags: Flags, k: Key, ms: seq<Node>, skipped: nat)
    requires Good(v, s) && Carries(s, flags) && ListsWithin(s, k, ms)
    ensures MoreAllows(s, k, ms, skipped) <==> MoreHit(flags, k, skipped)
  {
    if i :| skipped <= i < |ms| && Flagged(s, ms[i], MATCH_LESS) {
      assert ms[i] in ms && Within(s, k, ms[i]) && s.K[ms[i]] in Contents(s);
      PlaceInListing(v, s, k, ms, i);
      assert HitsAt(flags, k, skipped, s.K[ms[i]]);
    }
    if b :| HitsAt(flags, k, skipped, b) {
      var n: Node :| n in s.K && Real(s.M, n) && s.K[n] == b;
      assert Within(s, k, n);
      var i :| 0 <= i < |ms| && ms[i] == n;
      PlaceInListing(v, s, k, ms, i);
      assert Flagged(s, ms[i], MATCH_LESS);
    }
  }

  /** Around the tree the code's verdict is the answer of the flags the tree carries. */
  lemma VerdictIsAnswer(v: Version, s: State, flags: Flags, k: Key, ms: seq<Node>, matched: bool)
    requires Good(v, s) && Carries(s, flags) && k !in flags && Verdict(s, k, ms, matched)
    ensures matched <==> Passes(flags, k)
  {
    AboveCounted(v, s, k);
    LessAgrees(v, s, flags, k);
    MoreAgrees(v, s, flags, k, ms, |AboveSet(s, k)|);
  }

  // ---------- the filter manager's tree in place ----------

  /** bgpstream_filter_mgr_filter_add, for a prefix filter. */
  method AddFilter(t: Family, p: Prefix, ghost flags: Flags)
    requires t.Valid() && Carries(t.Now(), flags) && WellFormed(p) && p.version == t.v
    modifies t, t.keys.Keys
    ensures t.Valid() && Carries(t.Now(), AddFlag(flags, p)) && fresh(t.keys.Keys - old(t.keys).Keys)
  {
    ghost var s := t.Now();
    var node;
    ghost var how;
    node, how := t.Insert(p);
    CarriesInsert(t.v, s, how, node, p, t.Now(), flags);
  }

  /** The filters of a run, added one after the other. */
  method AddFilters(v: Version, fs: seq<Prefix>) returns (t: Family)
    requires v != Unknown && AllWellFormed(fs) && forall p :: p in fs ==> p.version == v
    ensures t.Valid() && t.v == v && fresh(t) && fresh(t.keys.Keys)
    ensures Carries(t.Now(), Kept(fs))
  {
    t := new Family(v);
    var i := 0;
    assert fs[..0] == [];
    while i < |fs|
      invariant i <= |fs| && t.Valid() && t.v == v && fresh(t) && fresh(t.keys.Keys)
      invariant AllWellFormed(fs[..i]) && Carries(t.Now(), Kept(fs[..i]))
    {
      KeptNext(fs, i);
      AddFilter(t, fs[i], Kept(fs[..i]));
      i := i + 1;
    }
    assert fs[..i] == fs;
  }

  lemma KeptNext(fs: seq<Prefix>, i: nat)
    requires AllWellFormed(fs) && i < |fs|
    ensures AllWellFormed(fs[..i]) && AllWellFormed(fs[..i + 1]) && WellFormed(fs[i])
    ensures Kept(fs[..i + 1]) == AddFlag(Kept(fs[..i]), fs[i])
  {
    assert fs[i] in fs && fs[..i + 1] == fs[..i] + [fs[i]] && fs[..i + 1][..i] == fs[..i];
  }

  /** bgpstream_elem_prefix_match on a tree that carries flags: their answer, and the tree carries
      the same flags afterwards. */
  method Matches(t: Family, ghost flags: Flags, search: Prefix) returns (matched: bool)
    requires t.Valid() && Carries(t.Now(), flags) && WellFormed(search) && search.version == t.v
    modifies t, t.keys.Keys
    ensures t.Valid() && t.Now() == old(t.Now()) && Carries(t.Now(), flags)
    ensures matched <==> Passes(flags, KeyOf(search))
  {
    ghost var s := t.Now();
    ghost var within;
    matched, within := ElemPrefixMatch(t, search);
    if KeyOf(search) !in flags {
      VerdictIsAnswer(t.v, s, flags, KeyOf(search), within, matched);
    }
  }

  // ---------- a miss ----------

  const ANY4: Prefix := Prefix(V4, [0, 0, 0, 0], 4, MATCH_ANY)
  const ANY2: Prefix := Prefix(V4, [64, 0, 0, 0], 2, MATCH_ANY)
  const EXACT1: Prefix := Prefix(V4, [0, 0, 0, 0], 1, MATCH_EXACT)

  lemma MissKeys()
    ensures WellFormed(ANY4) && WellFormed(ANY2) && WellFormed(EXACT1)
    ensures KeyOf(ANY4) == [false, false, false, false] && KeyOf(ANY2) == [false, true] && KeyOf(EXACT1) == [false]
  {
    ZeroHasNoBits(0);
    assert !ByteBit(64, 0) && ByteBit(64, 1);
  }

  /** 0.0.0.0/4 and 64.0.0.0/2 with any match allowed, then 0.0.0.0/1 for exact matches only. */
  ghost function MissSteps(x: Node, y: Node, g: Node): seq<Step>
  {
    [Step(First, x, ANY4), Step(UnderNewGlue(x, false, g, [false]), y, ANY2), Step(GlueMod, g, EXACT1)]
  }

  lemma GrowsStep(v: Version, init: seq<Step>, last: Step)
    requires Grows(v, init) && WellFormed(last.p) && Possible(v, Grown(v, init), last.how, last.x, last.p)
    ensures Grows(v, init + [last])
    ensures Grown(v, init + [last]) == Place(v, Grown(v, init), last.how, last.x, last.p)
  {
    assert (init + [last])[..|init|] == init;
  }

  lemma MissGrows(x: Node, y: Node, g: Node)
    requires x != y && y != g && g != x
    ensures Grows(V4, MissSteps(x, y, g))
  {
    MissKeys();
    var steps := MissSteps(x, y, g);
    GrowsStep(V4, [], steps[0]);
    assert [] + [steps[0]] == [steps[0]];
    PlaceOk(V4, Grown(V4, []), First, x, ANY4);
    var s := Grown(V4, [steps[0]]);
    assert s == State(Planted(x, 4, Created(ANY4)), PlantedKey(x, KeyOf(ANY4)), x);
    GrowsStep(V4, [steps[0]], steps[1]);
    assert [steps[0]] + [steps[1]] == [steps[0], steps[1]];
    PlaceOk(V4, s, steps[1].how, y, ANY2);
    PlaceAt(V4, s, steps[1].how, y, ANY2);
    GrowsStep(V4, [steps[0], steps[1]], steps[2]);
    assert [steps[0], steps[1]] + [steps[2]] == steps;
  }

  lemma TwoFlags()
    ensures var fs := [ANY4, ANY2];
      && AllWellFormed(fs) && Given(fs) == Kept(fs)
      && Kept(fs) == map[[false, false, false, false] := MATCH_ANY, [false, true] := MATCH_ANY]
  {
    MissKeys();
    var a: Key := [false, false, false, false];
    OneMoreFilter([], ANY4);
    assert [] + [ANY4] == [ANY4];
    assert Kept([ANY4]) == Given([ANY4]) == map[a := MATCH_ANY];
    OneMoreFilter([ANY4], ANY2);
    assert [ANY4] + [ANY2] == [ANY4, ANY2];
  }

  lemma MissFlags()
    ensures var fs := [ANY4, ANY2, EXACT1];
      && AllWellFormed(fs) && Given(fs) == Kept(fs)
      && Kept(fs) == map[[false, false, false, false] := MATCH_ANY, [false, true] := MATCH_ANY, [false] := MATCH_EXACT]
  {
    MissKeys();
    TwoFlags();
    var a: Key, b: Key, c: Key := [false, false, false, false], [false, true], [false];
    var two := Kept([ANY4, ANY2]);
    OneMoreFilter([ANY4, ANY2], EXACT1);
    assert [ANY4, ANY2] + [EXACT1] == [ANY4, ANY2, EXACT1];
    assert a in two.Keys && b in two.Keys && c + [false] <= a && c + [true] <= b;
    assert Split(two.Keys, c);
  }

  lemma MissAnswer(flags: Flags)
    requires flags == map[[false, false, false, false] := MATCH_ANY, [false, true] := MATCH_ANY, [false] := MATCH_EXACT]
    ensures var k := [false, false, false]; Wanted(flags, k) && !Passes(flags, k)
  {
    var inner: Key, side: Key := [false, false, false, false], [false, true];
    var outer: Key, k: Key := [false], [false, false, false];
    assert side[1] != k[1] && !(side <= k) && !(k <= side);
    assert flags.Keys == {inner, side, outer};
    var above := Containing(flags.Keys, k);
    assert above == {outer};
    assert Earlier(flags.Keys, k, inner) == {} by {
      assert !KeyLess(inner, inner);
    }
    assert HitsAt(flags, k, 0, inner);
    assert forall b :: HitsAt(flags, k, 0, b) ==> b == inner;
  }

  /** Searching 0.0.0.0/3 then misses the 0.0.0.0/4 inside it: the /1 contains it and allows nothing
      else, and as the one filter that contains it, it makes the scan skip one that lies inside. */
  lemma ConcreteMiss(x: Node, y: Node, g: Node) returns (steps: seq<Step>, k: Key)
    requires x != y && y != g && g != x
    ensures Grows(V4, steps) && AllWellFormed(FiltersOf(steps))
    ensures Wanted(Given(FiltersOf(steps)), k) && !Passes(Kept(FiltersOf(steps)), k)
    ensures forall ms, matched :: Verdict(Grown(V4, steps), k, ms, matched) ==> !matched
  {
    steps, k := MissSteps(x, y, g), [false, false, false];
    MissGrows(x, y, g);
    GrownCarries(V4, steps);
    MissFlags();
    assert FiltersOf(steps) == [ANY4, ANY2, EXACT1];
    var flags := Kept(FiltersOf(steps));
    MissAnswer(flags);
    forall ms, matched | Verdict(Grown(V4, steps), k, ms, matched)
      ensures !matched
    {
      VerdictIsAnswer(V4, Grown(V4, steps), flags, k, ms, matched);
    }
  }
}
