/** The minimum coverage of a patricia tree and the IP counter's list are the same thing. */
module Coverage {
  import opened Prefixes
  import opened Trie
  import opened TrieSteps
  import opened TrieListing
  import opened Intervals
  import opened IpCounting

  /** Keys in ascending order, neither inside the other, denote ranges in ascending order. */
  lemma {:induction false} LessMeansBefore(a: Key, b: Key, width: nat)
    requires |a| <= width && |b| <= width && KeyLess(a, b) && !(a <= b)
    ensures Range(a, width).hi < Range(b, width).lo
    decreases a
  {
    RangeStep(a, width);
    RangeStep(b, width);
    if a[0] == b[0] {
      var d :| 0 <= d < |a| && d < |b| && a[..d] == b[..d] && !a[d] && b[d];
      FirstThenRest(a, b);
      assert a[1..][..d - 1] == a[..d][1..] && b[1..][..d - 1] == b[..d][1..];
      LessMeansBefore(a[1..], b[1..], width - 1);
    } else {
      var d :| 0 <= d < |a| && d < |b| && a[..d] == b[..d] && !a[d] && b[d];
    }
  }

  ghost function RangesOf(s: State, ns: seq<Node>, width: nat): (ivs: seq<Interval>)
    requires forall n :: n in ns ==> n in s.K && |s.K[n]| <= width
    ensures |ivs| == |ns|
  {
    seq(|ns|, i requires 0 <= i < |ns| => assert ns[i] in ns; Range(s.K[ns[i]], width))
  }

  /** Over the same prefixes, the ranges of the minimum coverage, in the order the tree lists
      them, are the counter's intervals in the order of its list. */
  lemma CoverageIsCounterList(v: Version, s: State, ivs: seq<Interval>)
    requires Good(v, s) && Canonical(ivs, Stored(s.M, s.K), Width(v))
    ensures At(s, s.h) && Ascending(s, Listing(v, s, s.h, 1))
    ensures RangesOf(s, Listing(v, s, s.h, 1), Width(v)) == ivs
  {
    MinimumCoverageExact(v, s);
    var ns, width := Listing(v, s, s.h, 1), Width(v);
    var rs := RangesOf(s, ns, width);
    forall i, j | 0 <= i < j < |rs|
      ensures rs[i].hi < rs[j].lo
    {
      assert ns[i] in ns && ns[j] in ns;
      TopsDiffer(s, ns[i], ns[j]);
      LessMeansBefore(s.K[ns[i]], s.K[ns[j]], width);
    }
    forall i | 0 <= i < |rs|
      ensures rs[i].lo <= rs[i].hi && rs[i] in ivs
    {
      assert ns[i] in ns;
      RangeBound(s.K[ns[i]], width);
      assert Maximal(Stored(s.M, s.K), s.K[ns[i]]);
      CanonicalIsMaximal(ivs, Stored(s.M, s.K), width, s.K[ns[i]]);
    }
    forall iv | iv in ivs
      ensures iv in rs
    {
      EveryIntervalListed(s, ns, width, ivs, iv);
    }
    SortedUnique(rs, ivs);
  }

  lemma TopsDiffer(s: State, m: Node, n: Node)
    requires m in s.K && n in s.K && Real(s.M, m) && KeyLess(s.K[m], s.K[n])
    requires forall k :: k in Stored(s.M, s.K) && k <= s.K[n] ==> k == s.K[n]
    ensures !(s.K[m] <= s.K[n])
  {
    assert s.K[m] in Stored(s.M, s.K);
    if s.K[m] == s.K[n] {
      KeyLessAsymmetric(s.K[m], s.K[n]);
    }
  }

  /** Where every maximal prefix is listed, every interval of the counter is. */
  lemma EveryIntervalListed(s: State, ns: seq<Node>, width: nat, ivs: seq<Interval>, iv: Interval)
    requires forall n :: n in ns ==> n in s.K && |s.K[n]| <= width
    requires forall n :: n in s.K && Real(s.M, n) && Maximal(Stored(s.M, s.K), s.K[n]) ==> n in ns
    requires Canonical(ivs, Stored(s.M, s.K), width) && iv in ivs
    ensures iv in RangesOf(s, ns, width)
  {
    var k := MaximalOwner(ivs, Stored(s.M, s.K), width, iv);
    var n :| n in s.K && Real(s.M, n) && s.K[n] == k;
    RangeListed(s, ns, width, n);
  }

  /** An interval of a canonical list is the range of a maximal prefix. */
  lemma MaximalOwner(ivs: seq<Interval>, added: set<Key>, width: nat, iv: Interval) returns (k: Key)
    requires Canonical(ivs, added, width) && iv in ivs
    ensures k in added && |k| <= width && Range(k, width) == iv && Maximal(added, k)
  {
    assert IsRange(added, iv, width);
    k :| k in added && |k| <= width && Range(k, width) == iv;
    CanonicalIsMaximal(ivs, added, width, k);
  }

  lemma RangeListed(s: State, ns: seq<Node>, width: nat, n: Node)
    requires (forall m :: m in ns ==> m in s.K && |s.K[m]| <= width) && n in ns
    ensures Range(s.K[n], width) in RangesOf(s, ns, width)
  {
    var i :| 0 <= i < |ns| && ns[i] == n;
    assert RangesOf(s, ns, width)[i] == Range(s.K[n], width);
  }
}
