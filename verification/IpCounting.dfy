/** What an interval list holds after prefixes were added: exactly the ranges of the maximal
    ones; and how many addresses, or /64 blocks, that is. */
module IpCounting {
  import opened Sequences
  import opened Prefixes
  import opened TrieSubnets
  import opened Intervals

  /** iv is the range of an added prefix. */
  ghost predicate IsRange(added: set<Key>, iv: Interval, width: nat)
  {
    exists k :: k in added && |k| <= width && Range(k, width) == iv
  }

  /** r lies inside one interval of the list. */
  ghost predicate Housed(ivs: seq<Interval>, r: Interval)
  {
    exists iv :: iv in ivs && Contained(r, iv)
  }

  ghost predicate HousedKey(ivs: seq<Interval>, k: Key, width: nat)
  {
    |k| <= width && Housed(ivs, Range(k, width))
  }

  /** The list is sorted and disjoint, holds only ranges of added prefixes, and has each added
      prefix inside one interval. */
  ghost predicate Canonical(ivs: seq<Interval>, added: set<Key>, width: nat)
  {
    && Sorted(ivs)
    && (forall iv :: iv in ivs ==> IsRange(added, iv, width))
    && (forall k :: k in added ==> HousedKey(ivs, k, width))
  }

  lemma RangesLaminar(added: set<Key>, iv: Interval, width: nat, k: Key)
    requires IsRange(added, iv, width) && |k| <= width
    ensures Laminar(iv, Range(k, width)) && IsRange(added + {k}, iv, width)
  {
    var j :| j in added && |j| <= width && Range(j, width) == iv;
    LaminarRanges(j, k, width);
    assert j in added + {k};
  }

  /** Adding a prefix keeps the list canonical, for the set with that prefix. */
  lemma CanonicalStep(ivs: seq<Interval>, added: set<Key>, width: nat, k: Key)
    requires Canonical(ivs, added, width) && |k| <= width
    ensures Canonical(Merge(ivs, Range(k, width)), added + {k}, width)
  {
    var r := Range(k, width);
    RangeBound(k, width);
    MergeKeeps(ivs, r);
    forall iv | iv in ivs
      ensures Laminar(iv, r) && IsRange(added + {k}, iv, width)
    {
      RangesLaminar(added, iv, width, k);
    }
    MergeNested(ivs, r);
    assert IsRange(added + {k}, r, width) by {
      assert k in added + {k};
    }
    forall j | j in added + {k}
      ensures HousedKey(Merge(ivs, r), j, width)
    {
      if j != k {
        StillHoused(ivs, Merge(ivs, r), r, Range(j, width));
      }
    }
  }

  lemma CanonicalAdd(ivs: seq<Interval>, added: set<Key>, width: nat, k: Key, r: Interval)
    requires Canonical(ivs, added, width) && |k| <= width && r == Range(k, width)
    ensures Canonical(Merge(ivs, r), added + {k}, width)
  {
    CanonicalStep(ivs, added, width, k);
  }

  lemma StillHoused(ivs: seq<Interval>, ivs': seq<Interval>, r: Interval, q: Interval)
    requires Housed(ivs, q) && Housed(ivs', r)
    requires forall iv :: iv in ivs ==> iv in ivs' || Contained(iv, r)
    ensures Housed(ivs', q)
  {
    var home :| home in ivs' && Contained(r, home);
    var iv :| iv in ivs && Contained(q, iv);
    if iv !in ivs' {
      assert Contained(q, home);
    }
  }

  /** k is in the set and nothing in the set strictly contains it. */
  ghost predicate Maximal(added: set<Key>, k: Key)
  {
    k in added && forall j :: j in added && j <= k ==> j == k
  }

  lemma SameHome(ivs: seq<Interval>, a: Interval, b: Interval)
    requires Sorted(ivs) && a in ivs && b in ivs && Contained(a, b)
    ensures a == b
  {
  }

  /** A prefix whose range is in the list has no strict container. */
  lemma InListIsMaximal(ivs: seq<Interval>, added: set<Key>, width: nat, k: Key, j: Key)
    requires Canonical(ivs, added, width) && k in added && j in added && j <= k && |k| <= width
    requires Range(k, width) in ivs
    ensures j == k
  {
    assert HousedKey(ivs, j, width);
    var iv :| iv in ivs && Contained(Range(j, width), iv);
    RangeLaminar(j, k, width);
    SameHome(ivs, Range(k, width), iv);
    RangeLaminar(k, j, width);
  }

  /** The intervals are exactly the ranges of the maximal added prefixes. */
  lemma CanonicalIsMaximal(ivs: seq<Interval>, added: set<Key>, width: nat, k: Key)
    requires Canonical(ivs, added, width) && k in added
    ensures |k| <= width && (Range(k, width) in ivs <==> Maximal(added, k))
  {
    assert HousedKey(ivs, k, width);
    var home :| home in ivs && Contained(Range(k, width), home);
    assert IsRange(added, home, width);
    var top :| top in added && |top| <= width && Range(top, width) == home;
    RangeLaminar(top, k, width);
    if Range(k, width) in ivs {
      forall j | j in added && j <= k
        ensures j == k
      {
        InListIsMaximal(ivs, added, width, k, j);
      }
    }
  }

  /** Both lists hold the same ranges. */
  lemma SameRanges(xs: seq<Interval>, ys: seq<Interval>, added: set<Key>, width: nat, iv: Interval)
    requires Canonical(xs, added, width) && Canonical(ys, added, width) && iv in xs
    ensures iv in ys
  {
    assert IsRange(added, iv, width);
    var k :| k in added && |k| <= width && Range(k, width) == iv;
    CanonicalIsMaximal(xs, added, width, k);
    CanonicalIsMaximal(ys, added, width, k);
  }

  /** So the list does not depend on the order in which the prefixes were added. */
  lemma CanonicalUnique(xs: seq<Interval>, ys: seq<Interval>, added: set<Key>, width: nat)
    requires Canonical(xs, added, width) && Canonical(ys, added, width)
    ensures xs == ys
  {
    forall iv | iv in xs ensures iv in ys { SameRanges(xs, ys, added, width, iv); }
    forall iv | iv in ys ensures iv in xs { SameRanges(ys, xs, added, width, iv); }
    SortedUnique(xs, ys);
  }

  lemma {:induction false} SortedUnique(xs: seq<Interval>, ys: seq<Interval>)
    requires Sorted(xs) && Sorted(ys) && (forall iv :: iv in xs <==> iv in ys)
    ensures xs == ys
  {
    assert ys != [] ==> ys[0] in xs;
    if xs != [] {
      assert xs[0] in ys && ys[0] in xs;
      forall iv
        ensures iv in xs[1..] <==> iv in xs && iv != xs[0]
        ensures iv in ys[1..] <==> iv in ys && iv != ys[0]
      {
        AfterFirst(xs, iv);
        AfterFirst(ys, iv);
      }
      SortedUnique(xs[1..], ys[1..]);
      assert xs == [xs[0]] + xs[1..] && ys == [ys[0]] + ys[1..];
    }
  }

  lemma AfterFirst(xs: seq<Interval>, iv: Interval)
    requires Sorted(xs) && xs != []
    ensures iv in xs[1..] <==> iv in xs && iv != xs[0]
  {
    assert xs == [xs[0]] + xs[1..];
  }

  // ---------- counting addresses ----------

  ghost function Addresses(iv: Interval): (s: set<nat>)
    ensures forall x :: x in s <==> In(x, iv)
  {
    set x: nat | x < iv.hi + 1 && In(x, iv)
  }

  lemma {:induction false} AddressCount(iv: Interval)
    requires iv.lo <= iv.hi
    ensures |Addresses(iv)| == iv.hi - iv.lo + 1
    decreases iv.hi - iv.lo
  {
    if iv.lo == iv.hi {
      assert Addresses(iv) == {iv.lo};
    } else {
      AddressCount(Interval(iv.lo, iv.hi - 1));
      assert Addresses(iv) == Addresses(Interval(iv.lo, iv.hi - 1)) + {iv.hi};
    }
  }

  /** The addresses of the union. */
  ghost function Union(ivs: seq<Interval>): set<nat>
  {
    if ivs == [] then {} else Union(ivs[..|ivs| - 1]) + Addresses(ivs[|ivs| - 1])
  }

  lemma {:induction false} UnionIsCovered(ivs: seq<Interval>)
    ensures forall x :: x in Union(ivs) <==> Covered(ivs, x)
  {
    if ivs != [] {
      var rest, last := ivs[..|ivs| - 1], ivs[|ivs| - 1];
      UnionIsCovered(rest);
      assert ivs == rest + [last];
      assert forall iv :: iv in ivs <==> iv in rest || iv == last;
      assert last in ivs;
    }
  }

  /** A further interval beyond all others adds its length to the count. */
  lemma UnionGrows(ivs: seq<Interval>, n: nat)
    requires Sorted(ivs) && n < |ivs|
    ensures |Union(ivs[..n + 1])| == |Union(ivs[..n])| + (ivs[n].hi - ivs[n].lo + 1)
  {
    assert ivs[..n + 1][..n] == ivs[..n];
    UnionIsCovered(ivs[..n]);
    AddressCount(ivs[n]);
    assert Union(ivs[..n]) !! Addresses(ivs[n]);
  }

  // ---------- counting /64 blocks ----------

  const BLOCK: nat := 0x1_0000_0000_0000_0000

  /** An interval of whole /64 blocks, or one within a single block. Prefix ranges are. */
  predicate BlockAligned(iv: Interval)
  {
    (iv.lo % BLOCK == 0 && iv.hi % BLOCK == BLOCK - 1) || iv.lo / BLOCK == iv.hi / BLOCK
  }

  /** The /64 blocks an interval touches, as the interval of their numbers. */
  function BlockSpan(iv: Interval): Interval
  {
    Interval(iv.lo / BLOCK, iv.hi / BLOCK)
  }

  ghost function BlockUnion(ivs: seq<Interval>): set<nat>
  {
    if ivs == [] then {} else BlockUnion(ivs[..|ivs| - 1]) + Addresses(BlockSpan(ivs[|ivs| - 1]))
  }

  lemma {:induction false} BlockUnionMembers(ivs: seq<Interval>)
    ensures forall b :: b in BlockUnion(ivs) <==> exists iv :: iv in ivs && In(b, BlockSpan(iv))
  {
    if ivs != [] {
      var rest, last := ivs[..|ivs| - 1], ivs[|ivs| - 1];
      BlockUnionMembers(rest);
      assert ivs == rest + [last];
      assert forall iv :: iv in ivs <==> iv in rest || iv == last;
      assert last in ivs;
    }
  }

  /** Two disjoint aligned intervals touch different blocks, or lie in one and the same. */
  lemma SpansApartOrEqual(a: Interval, b: Interval)
    requires a.lo <= a.hi < b.lo <= b.hi && BlockAligned(a) && BlockAligned(b)
    ensures (BlockSpan(a) == BlockSpan(b) && a.lo / BLOCK == a.hi / BLOCK) || BlockSpan(a).hi < BlockSpan(b).lo
  {
  }

  /** The blocks of the next interval are those of the one before it, or all new. */
  lemma BlockUnionStep(ivs: seq<Interval>, n: nat)
    requires Sorted(ivs) && n < |ivs| && forall iv :: iv in ivs ==> BlockAligned(iv)
    ensures BlockUnion(ivs[..n + 1]) == BlockUnion(ivs[..n]) + Addresses(BlockSpan(ivs[n]))
    ensures if n > 0 && BlockSpan(ivs[n]) == BlockSpan(ivs[n - 1])
            then Addresses(BlockSpan(ivs[n])) <= BlockUnion(ivs[..n])
            else BlockUnion(ivs[..n]) !! Addresses(BlockSpan(ivs[n]))
  {
    assert ivs[..n + 1][..n] == ivs[..n];
    BlockUnionMembers(ivs[..n]);
    forall i | 0 <= i < n
      ensures BlockSpan(ivs[i]) == BlockSpan(ivs[n]) || BlockSpan(ivs[i]).hi < BlockSpan(ivs[n]).lo
    {
      SpansApartOrEqual(ivs[i], ivs[n]);
    }
    if n > 0 && BlockSpan(ivs[n]) == BlockSpan(ivs[n - 1]) {
      assert ivs[n - 1] in ivs[..n];
    } else {
      if n > 0 {
        SpansApartOrEqual(ivs[n - 1], ivs[n]);
      }
      assert forall i :: 0 <= i < n ==> ivs[i].lo <= ivs[n - 1].lo;
    }
  }

  /** The next interval adds its blocks, unless it has the same span as the one before it. */
  lemma BlockUnionGrows(ivs: seq<Interval>, n: nat)
    requires Sorted(ivs) && n < |ivs| && forall iv :: iv in ivs ==> BlockAligned(iv)
    ensures |BlockUnion(ivs[..n + 1])| == |BlockUnion(ivs[..n])| +
      if n > 0 && BlockSpan(ivs[n]) == BlockSpan(ivs[n - 1]) then 0 else BlockSpan(ivs[n]).hi - BlockSpan(ivs[n]).lo + 1
  {
    BlockUnionStep(ivs, n);
    AddressCount(BlockSpan(ivs[n]));
    if n > 0 && BlockSpan(ivs[n]) == BlockSpan(ivs[n - 1]) {
      assert BlockUnion(ivs[..n + 1]) == BlockUnion(ivs[..n]);
    }
  }

  // ---------- from address and mask length to a range ----------

  /** An address as a number, first byte most significant. */
  function AddrValue(addr: seq<bv8>): nat
  {
    Lo(Bits(addr), 8 * |addr|)
  }

  lemma {:induction false} Pow2Sum(a: nat, b: nat)
    ensures Pow2(a + b) == Pow2(a) * Pow2(b)
  {
    if a > 0 {
      Pow2Sum(a - 1, b);
      assert 2 * (Pow2(a - 1) * Pow2(b)) == (2 * Pow2(a - 1)) * Pow2(b);
    }
  }

  lemma AddMultiple(q: nat, m: nat, r: nat)
    requires m > 0
    ensures (q * m + r) % m == r % m
  {
    var d := r / m;
    assert q * m + r == (q + d) * m + r % m;
    UniqueRemainder(q + d, m, r % m);
  }

  lemma UniqueRemainder(q: nat, m: nat, r: nat)
    requires r < m
    ensures (q * m + r) % m == r
  {
    var x := q * m + r;
    var e := x / m - q;
    assert x == (x / m) * m + x % m;
    assert e * m == r - x % m;
    assert e >= 1 ==> e * m >= m;
    assert e <= -1 ==> e * m <= -(m as int);
  }

  /** An address with the bits below a power of two cleared. */
  function Masked(x: nat, size: nat): nat
    requires size > 0
  {
    x - x % size
  }

  /** Clearing the host bits of an address gives the first address of its prefix. */
  lemma {:induction false} MaskedLo(k: Key, n: nat)
    requires n <= |k|
    ensures Masked(Lo(k, |k|), Pow2(|k| - n)) == Lo(k[..n], |k|)
    decreases k
  {
    if n == 0 {
      RangeBound(k, |k|);
      SmallMasked(Lo(k, |k|), Pow2(|k|));
    } else {
      var w, rest := |k|, k[1..];
      MaskedLo(rest, n - 1);
      assert rest[..n - 1] == k[..n][1..];
      Pow2Sum(n - 1, w - n);
      var q, size, r := if k[0] then Pow2(n - 1) else 0, Pow2(w - n), Lo(rest, w - 1);
      assert Masked(r, size) == Lo(rest[..n - 1], w - 1) by {
        assert |rest| == w - 1 && |rest| - (n - 1) == w - n;
      }
      assert Lo(k, w) == q * size + r;
      assert Lo(k[..n], w) == q * size + Lo(rest[..n - 1], w - 1);
      ClearLow(q, size, r);
    }
  }

  lemma SmallMasked(x: nat, size: nat)
    requires x < size
    ensures Masked(x, size) == 0
  {
  }

  lemma ClearLow(q: nat, size: nat, r: nat)
    requires size > 0
    ensures Masked(q * size + r, size) == q * size + Masked(r, size)
  {
    AddMultiple(q, size, r);
  }

  // ---------- prefix ranges and /64 blocks ----------

  lemma ShiftAligned(iv: Interval, q: nat)
    requires BlockAligned(iv) && iv.lo <= iv.hi
    ensures BlockAligned(Interval(iv.lo + q * BLOCK, iv.hi + q * BLOCK))
  {
  }

  lemma {:induction false} RangeAligned(k: Key, width: nat)
    requires |k| <= width
    ensures BlockAligned(Range(k, width))
    decreases k
  {
    if width <= 64 {
      NarrowAligned(k, width);
    } else if k == [] {
      MultipleOfBlock(width);
      WholeBlocks(Pow2(width - 64));
    } else {
      RangeAligned(k[1..], width - 1);
      RangeStep(k, width);
      MultipleOfBlock(width - 1);
      var r := Range(k[1..], width - 1);
      if k[0] {
        ShiftAligned(r, Pow2(width - 65));
        assert Range(k, width) == Interval(r.lo + Pow2(width - 65) * BLOCK, r.hi + Pow2(width - 65) * BLOCK);
      } else {
        assert Range(k, width) == r;
      }
    }
  }

  lemma MultipleOfBlock(width: nat)
    requires width >= 64
    ensures Pow2(width) == Pow2(width - 64) * BLOCK
  {
    Pow2At64();
    Pow2Sum(width - 64, 64);
  }

  lemma NarrowAligned(k: Key, width: nat)
    requires |k| <= width <= 64
    ensures BlockAligned(Range(k, width))
  {
    RangeBound(k, width);
    Pow2At64();
    if width < 64 {
      Pow2Grows(width, 64);
    }
  }

  lemma WholeBlocks(q: nat)
    requires q > 0
    ensures (q * BLOCK - 1) % BLOCK == BLOCK - 1
  {
  }

  lemma CanonicalAligned(ivs: seq<Interval>, added: set<Key>, width: nat)
    requires Canonical(ivs, added, width)
    ensures forall iv :: iv in ivs ==> BlockAligned(iv)
  {
    forall iv | iv in ivs
      ensures BlockAligned(iv)
    {
      assert IsRange(added, iv, width);
      var k :| k in added && |k| <= width && Range(k, width) == iv;
      RangeAligned(k, width);
    }
  }

  // ---------- overlap with a prefix ----------

  ghost function Overlap(ivs: seq<Interval>, r: Interval): set<nat>
  {
    Union(ivs) * Addresses(r)
  }

  function Common(a: Interval, b: Interval): Interval
  {
    Interval(Max(a.lo, b.lo), Min(a.hi, b.hi))
  }

  lemma OverlapGrows(ivs: seq<Interval>, n: nat, r: Interval)
    requires Sorted(ivs) && n < |ivs| && r.lo <= r.hi
    ensures |Overlap(ivs[..n + 1], r)| == |Overlap(ivs[..n], r)| +
      if Apart(ivs[n], r) then 0 else Common(ivs[n], r).hi - Common(ivs[n], r).lo + 1
  {
    OverlapAdds(ivs, n, r);
    CommonCount(ivs[n], r);
  }

  lemma OverlapAdds(ivs: seq<Interval>, n: nat, r: Interval)
    requires Sorted(ivs) && n < |ivs|
    ensures Overlap(ivs[..n + 1], r) == Overlap(ivs[..n], r) + Addresses(ivs[n]) * Addresses(r)
    ensures Overlap(ivs[..n], r) !! Addresses(ivs[n]) * Addresses(r)
  {
    assert ivs[..n + 1][..n] == ivs[..n];
    UnionIsCovered(ivs[..n]);
  }

  lemma CommonCount(iv: Interval, r: Interval)
    requires iv.lo <= iv.hi && r.lo <= r.hi
    ensures |Addresses(iv) * Addresses(r)| == if Apart(iv, r) then 0 else Common(iv, r).hi - Common(iv, r).lo + 1
  {
    if Apart(iv, r) {
      assert Addresses(iv) * Addresses(r) == {};
    } else {
      assert Addresses(iv) * Addresses(r) == Addresses(Common(iv, r));
      AddressCount(Common(iv, r));
    }
  }

  /** The sum of what the intervals have in common with r. */
  ghost function CommonSum(ivs: seq<Interval>, r: Interval): int
  {
    if ivs == [] then 0
    else
      var last := ivs[|ivs| - 1];
      CommonSum(ivs[..|ivs| - 1], r) + if Apart(last, r) then 0 else Common(last, r).hi - Common(last, r).lo + 1
  }

  lemma CommonSumStep(ivs: seq<Interval>, r: Interval, i: nat)
    requires i < |ivs|
    ensures CommonSum(ivs[..i + 1], r) == CommonSum(ivs[..i], r) +
      if Apart(ivs[i], r) then 0 else Common(ivs[i], r).hi - Common(ivs[i], r).lo + 1
  {
    assert ivs[..i + 1][..i] == ivs[..i];
  }

  lemma {:induction false} CommonSumIs(ivs: seq<Interval>, r: Interval, n: nat)
    requires Sorted(ivs) && r.lo <= r.hi && n <= |ivs|
    ensures CommonSum(ivs[..n], r) == |Overlap(ivs[..n], r)|
  {
    if n > 0 {
      CommonSumIs(ivs, r, n - 1);
      CommonSumStep(ivs, r, n - 1);
      OverlapGrows(ivs, n - 1, r);
    } else {
      assert Overlap(ivs[..0], r) == {};
    }
  }

  /** Nothing that starts after r ends can overlap it. */
  lemma OverlapEnds(ivs: seq<Interval>, n: nat, r: Interval)
    requires Sorted(ivs) && n < |ivs| && ivs[n].lo > r.hi
    ensures Overlap(ivs, r) == Overlap(ivs[..n], r)
  {
    UnionIsCovered(ivs);
    UnionIsCovered(ivs[..n]);
    forall x | x in Overlap(ivs, r)
      ensures Covered(ivs[..n], x)
    {
      var iv :| iv in ivs && In(x, iv);
      var i :| 0 <= i < |ivs| && ivs[i] == iv;
      assert iv in ivs[..n];
    }
  }

  /** Some interval contains a prefix's range exactly when some added prefix contains it. */
  lemma ContainedIsCovered(ivs: seq<Interval>, added: set<Key>, width: nat, k: Key)
    requires Canonical(ivs, added, width) && |k| <= width
    ensures Housed(ivs, Range(k, width)) <==> exists j :: j in added && j <= k
  {
    if Housed(ivs, Range(k, width)) {
      var iv :| iv in ivs && Contained(Range(k, width), iv);
      assert IsRange(added, iv, width);
      var j :| j in added && |j| <= width && Range(j, width) == iv;
      RangeLaminar(j, k, width);
    }
    if j :| j in added && j <= k {
      assert HousedKey(ivs, j, width);
      var iv :| iv in ivs && Contained(Range(j, width), iv);
      RangeLaminar(j, k, width);
      assert Contained(Range(k, width), iv);
    }
  }

  /** The masked address and the last address after it are the prefix's range. */
  lemma MaskedRange(p: Prefix)
    requires WellFormed(p)
    ensures var size := Pow2(Width(p.version) - p.maskLen);
      var start := Masked(AddrValue(p.addr), size);
      Interval(start, start + (size - 1)) == Range(KeyOf(p), Width(p.version))
  {
    MaskedLo(Bits(p.addr), p.maskLen);
  }

  const WORD: nat := 0x1_0000_0000

  lemma Pow2At32()
    ensures Pow2(32) == WORD
  {
    assert Pow2(16) == 0x1_0000 by {
      assert Pow2(8) == 0x100;
    }
    Pow2Sum(16, 16);
  }

  /** With the zero-length prefix added, the list is the single full interval. */
  lemma FullAlone(ivs: seq<Interval>, added: set<Key>, width: nat)
    requires Canonical(ivs, added, width) && [] in added
    ensures ivs == [Range([], width)]
  {
    var full := Range([], width);
    CanonicalIsMaximal(ivs, added, width, []);
    assert full in ivs;
    forall iv | iv in ivs
      ensures iv == full
    {
      assert IsRange(added, iv, width);
      var k :| k in added && |k| <= width && Range(k, width) == iv;
      RangeLaminar([], k, width);
      SameHome(ivs, iv, full);
    }
    RangeBound([], width);
    AllSame(ivs, full);
  }

  lemma AllSame(ivs: seq<Interval>, full: Interval)
    requires Sorted(ivs) && full in ivs && full.lo <= full.hi && forall iv :: iv in ivs ==> iv == full
    ensures ivs == [full]
  {
    SortedUnique(ivs, [full]);
  }

  lemma FullCount(ivs: seq<Interval>, added: set<Key>, width: nat)
    requires Canonical(ivs, added, width) && [] in added
    ensures |ivs| == 1 && ivs[0] == Interval(0, Pow2(width) - 1) && |Union(ivs)| == Pow2(width)
  {
    FullAlone(ivs, added, width);
    FullRange(width);
    FullUnion(width);
  }

  lemma FullRange(width: nat)
    ensures Range([], width) == Interval(0, Pow2(width) - 1)
  {
    var k: Key := [];
    assert Lo(k, width) == 0 && width - |k| == width;
  }

  lemma FullUnion(width: nat)
    ensures |Union([Interval(0, Pow2(width) - 1)])| == Pow2(width)
  {
    OneUnion(Interval(0, Pow2(width) - 1));
  }

  lemma OneUnion(iv: Interval)
    requires iv.lo <= iv.hi
    ensures |Union([iv])| == iv.hi - iv.lo + 1
  {
    AddressCount(iv);
    assert [iv][..0] == [];
    assert Union([iv]) == Addresses(iv);
  }

  /** Any other prefix is at most half as long. */
  lemma ShortRange(ivs: seq<Interval>, added: set<Key>, width: nat, i: nat)
    requires Canonical(ivs, added, width) && i < |ivs| && [] !in added
    ensures ivs[i].lo <= ivs[i].hi && 2 * (ivs[i].hi - ivs[i].lo + 1) <= Pow2(width)
  {
    assert IsRange(added, ivs[i], width);
    var k :| k in added && |k| <= width && Range(k, width) == ivs[i];
    ShorterIsWider(k, width);
  }

  function Length(iv: Interval): nat
    requires iv.lo <= iv.hi
  {
    iv.hi - iv.lo + 1
  }

  lemma Count4Step(ivs: seq<Interval>, added: set<Key>, i: nat, width: nat)
    requires Canonical(ivs, added, width) && i < |ivs| && width == 32
    ensures ivs[i].lo <= ivs[i].hi
    ensures Length(ivs[i]) % WORD == if [] in added then 0 else |Union(ivs[..i + 1])| - |Union(ivs[..i])|
  {
    Pow2At32();
    if [] in added {
      FullCount(ivs, added, width);
    } else {
      ShortRange(ivs, added, width, i);
      UnionGrows(ivs, i);
      ShortLength(Length(ivs[i]));
    }
  }

  lemma ShortLength(n: nat)
    requires 2 * n <= WORD
    ensures n % WORD == n
  {
  }

  lemma AddMod(a: nat, b: nat, m: nat)
    requires m > 0
    ensures (a % m + b % m) % m == (a + b) % m
  {
    var qa, qb := a / m, b / m;
    assert a + b == (qa + qb) * m + (a % m + b % m);
    AddMultiple(qa + qb, m, a % m + b % m);
  }

  lemma BlocksAdded(ivs: seq<Interval>, added: set<Key>, i: nat, width: nat)
    requires Canonical(ivs, added, width) && i < |ivs|
    ensures ivs[i].lo <= ivs[i].hi && BlockSpan(ivs[i]).lo <= BlockSpan(ivs[i]).hi
    ensures |BlockUnion(ivs[..i + 1])| == |BlockUnion(ivs[..i])| +
      if Again(ivs, i) then 0 else BlockSpan(ivs[i]).hi - BlockSpan(ivs[i]).lo + 1
  {
    CanonicalAligned(ivs, added, width);
    BlockUnionGrows(ivs, i);
  }

  // ---------- the counting loops as sums ----------

  /** The IPv4 count: lengths in 32 bits, added up in 64. */
  ghost function LengthSum(ivs: seq<Interval>): nat
    requires Sorted(ivs)
  {
    if ivs == [] then 0
    else LengthSum(ivs[..|ivs| - 1]) + Length(ivs[|ivs| - 1]) % WORD
  }

  /** The IPv6 count: spans in 64 bits, skipping a span equal to the one before it. */
  ghost function SpanSum(ivs: seq<Interval>): nat
  {
    if ivs == [] then 0
    else
      var n := |ivs| - 1;
      Sum64(SpanSum(ivs[..n]), Again(ivs, n), BlockSpan(ivs[n]).hi - BlockSpan(ivs[n]).lo + 1)
  }

  /** The span of an interval is that of the one before it. */
  predicate Again(ivs: seq<Interval>, i: nat)
    requires i < |ivs|
  {
    i > 0 && BlockSpan(ivs[i]) == BlockSpan(ivs[i - 1])
  }

  /** Adding in 64 bits, unless there is nothing new to add. */
  function Sum64(sum: nat, again: bool, more: int): nat
  {
    if again then sum else (sum + more % WRAP) % WRAP
  }

  lemma Sum64Is(sum: nat, again: bool, more: nat, before: nat, after: nat)
    requires sum == before % WRAP && after == before + if again then 0 else more
    ensures Sum64(sum, again, more) == after % WRAP
  {
    AddMod(before, more, WRAP);
  }

  lemma LengthSumStep(ivs: seq<Interval>, i: nat)
    requires Sorted(ivs) && i < |ivs|
    ensures LengthSum(ivs[..i + 1]) == LengthSum(ivs[..i]) + Length(ivs[i]) % WORD
  {
    assert ivs[..i + 1][..i] == ivs[..i];
  }

  lemma SpanSumStep(ivs: seq<Interval>, i: nat)
    requires i < |ivs|
    ensures SpanSum(ivs[..i + 1])
      == Sum64(SpanSum(ivs[..i]), Again(ivs, i), BlockSpan(ivs[i]).hi - BlockSpan(ivs[i]).lo + 1)
  {
    assert ivs[..i + 1][..i] == ivs[..i];
  }

  lemma {:induction false} LengthSumIs(ivs: seq<Interval>, added: set<Key>, n: nat)
    requires Canonical(ivs, added, 32) && n <= |ivs|
    ensures LengthSum(ivs[..n]) == if [] in added then 0 else |Union(ivs[..n])|
  {
    if n > 0 {
      LengthSumIs(ivs, added, n - 1);
      Count4Step(ivs, added, n - 1, 32);
      LengthSumStep(ivs, n - 1);
    }
  }

  lemma SpanSumNext(ivs: seq<Interval>, added: set<Key>, width: nat, n: nat)
    requires Canonical(ivs, added, width) && n < |ivs| && SpanSum(ivs[..n]) == |BlockUnion(ivs[..n])| % WRAP
    ensures SpanSum(ivs[..n + 1]) == |BlockUnion(ivs[..n + 1])| % WRAP
  {
    BlocksAdded(ivs, added, n, width);
    SpanSumStep(ivs, n);
    var more: nat := BlockSpan(ivs[n]).hi - BlockSpan(ivs[n]).lo + 1;
    Sum64Is(SpanSum(ivs[..n]), Again(ivs, n), more, |BlockUnion(ivs[..n])|, |BlockUnion(ivs[..n + 1])|);
  }

  lemma {:induction false} SpanSumIs(ivs: seq<Interval>, added: set<Key>, width: nat, n: nat)
    requires Canonical(ivs, added, width) && n <= |ivs|
    ensures SpanSum(ivs[..n]) == |BlockUnion(ivs[..n])| % WRAP
  {
    if n > 0 {
      SpanSumIs(ivs, added, width, n - 1);
      SpanSumNext(ivs, added, width, n - 1);
    }
  }

  /** The IPv4 count is the number of distinct addresses, exactly when the zero-length prefix
      was not added; with it the count is 0. */
  lemma CountedAddresses(ivs: seq<Interval>, added: set<Key>)
    requires Canonical(ivs, added, 32)
    ensures LengthSum(ivs) == |Union(ivs)| <==> [] !in added
    ensures [] in added ==> LengthSum(ivs) == 0
  {
    LengthSumIs(ivs, added, |ivs|);
    assert ivs[..|ivs|] == ivs;
    if [] in added {
      FullCount(ivs, added, 32);
      Pow2At32();
    }
  }

  /** The IPv6 count is the number of distinct /64 blocks touched, modulo 2^64. */
  lemma CountedBlocks(ivs: seq<Interval>, added: set<Key>, width: nat)
    requires Canonical(ivs, added, width)
    ensures SpanSum(ivs) == |BlockUnion(ivs)| % WRAP
  {
    SpanSumIs(ivs, added, width, |ivs|);
    assert ivs[..|ivs|] == ivs;
  }

  // ---------- whole runs of the adder ----------

  /** The list covers exactly the addresses of the added prefixes. */
  lemma CanonicalCovers(ivs: seq<Interval>, added: set<Key>, width: nat, x: nat)
    requires Canonical(ivs, added, width)
    ensures Covered(ivs, x) <==> exists k :: k in added && |k| <= width && In(x, Range(k, width))
  {
    if Covered(ivs, x) {
      var iv :| iv in ivs && In(x, iv);
      assert IsRange(added, iv, width);
    }
    if k :| k in added && |k| <= width && In(x, Range(k, width)) {
      assert HousedKey(ivs, k, width);
      var iv :| iv in ivs && Contained(Range(k, width), iv);
      assert In(x, iv);
    }
  }

  /** The list after adding prefixes one by one. */
  ghost function AfterAdding(ks: seq<Key>, width: nat): seq<Interval>
    requires forall k :: k in ks ==> |k| <= width
  {
    if ks == [] then []
    else
      assert ks[|ks| - 1] in ks;
      Merge(AfterAdding(ks[..|ks| - 1], width), Range(ks[|ks| - 1], width))
  }

  ghost function KeySet(ks: seq<Key>): set<Key>
  {
    set k | k in ks
  }

  lemma AfterAddingLast(ks: seq<Key>, width: nat)
    requires ks != [] && forall k :: k in ks ==> |k| <= width
    ensures forall k :: k in ks[..|ks| - 1] ==> |k| <= width
    ensures |ks[|ks| - 1]| <= width
    ensures AfterAdding(ks, width) == Merge(AfterAdding(ks[..|ks| - 1], width), Range(ks[|ks| - 1], width))
    ensures KeySet(ks) == KeySet(ks[..|ks| - 1]) + {ks[|ks| - 1]}
  {
    var init, last := ks[..|ks| - 1], ks[|ks| - 1];
    LastAmong(ks);
    forall k
      ensures k in KeySet(ks) <==> k in KeySet(init) + {last}
    {
      assert k in ks <==> k in init || k == last;
    }
  }

  lemma {:induction false} AfterAddingCanonical(ks: seq<Key>, width: nat)
    requires forall k :: k in ks ==> |k| <= width
    ensures Canonical(AfterAdding(ks, width), KeySet(ks), width)
  {
    if ks != [] {
      AfterAddingLast(ks, width);
      var init, last := ks[..|ks| - 1], ks[|ks| - 1];
      AfterAddingCanonical(init, width);
      CanonicalAdd(AfterAdding(init, width), KeySet(init), width, last, Range(last, width));
    }
  }

  /** Whatever the order and the repetitions, the same prefixes give the same list. */
  lemma OrderDoesNotMatter(ks: seq<Key>, js: seq<Key>, width: nat)
    requires forall k :: k in ks ==> |k| <= width
    requires forall k :: k in ks <==> k in js
    ensures AfterAdding(ks, width) == AfterAdding(js, width)
  {
    AfterAddingCanonical(ks, width);
    AfterAddingCanonical(js, width);
    assert KeySet(ks) == KeySet(js);
    CanonicalUnique(AfterAdding(ks, width), AfterAdding(js, width), KeySet(ks), width);
  }
}
