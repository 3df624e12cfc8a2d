/** Sorted lists of disjoint address intervals, and the ranges that prefixes denote. */
module Intervals {
  import opened Prefixes
  import opened TrieSubnets

  datatype Interval = Interval(lo: nat, hi: nat)

  function Max(a: nat, b: nat): nat { if a < b then b else a }
  function Min(a: nat, b: nat): nat { if a < b then a else b }

  predicate In(x: nat, iv: Interval)
  {
    iv.lo <= x <= iv.hi
  }

  /** Every address of a lies in b. */
  predicate Contained(a: Interval, b: Interval)
  {
    b.lo <= a.lo && a.hi <= b.hi
  }

  predicate Apart(a: Interval, b: Interval)
  {
    a.hi < b.lo || b.hi < a.lo
  }

  ghost predicate Sorted(ivs: seq<Interval>)
  {
    && (forall i :: 0 <= i < |ivs| ==> ivs[i].lo <= ivs[i].hi)
    && forall i, j :: 0 <= i < j < |ivs| ==> ivs[i].hi < ivs[j].lo
  }

  ghost predicate Covered(ivs: seq<Interval>, x: nat)
  {
    exists iv :: iv in ivs && In(x, iv)
  }

  /** one_step_merge: iv swallows the following intervals it reaches. */
  function Absorb(iv: Interval, rest: seq<Interval>): (r: seq<Interval>)
    ensures r != [] && r[0].lo == iv.lo
    decreases |rest|
  {
    if rest == [] || rest[0].lo > iv.hi then [iv] + rest
    else Absorb(Interval(iv.lo, Max(iv.hi, rest[0].hi)), rest[1..])
  }

  /** merge_in_sorted_queue. */
  function Merge(ivs: seq<Interval>, new_: Interval): seq<Interval>
  {
    if ivs == [] then [new_]
    else if new_.lo > ivs[0].hi then [ivs[0]] + Merge(ivs[1..], new_)
    else if new_.hi < ivs[0].lo then [new_] + ivs
    else Absorb(Interval(Min(ivs[0].lo, new_.lo), Max(ivs[0].hi, new_.hi)), ivs[1..])
  }

  /** Intervals wholly before the new one are kept as they are. */
  lemma {:induction false} MergeSkips(ivs: seq<Interval>, n: nat, new_: Interval)
    requires n <= |ivs| && forall i :: 0 <= i < n ==> new_.lo > ivs[i].hi
    ensures Merge(ivs, new_) == ivs[..n] + Merge(ivs[n..], new_)
  {
    if n == 0 {
      assert ivs[0..] == ivs;
    } else {
      MergeSkips(ivs[1..], n - 1, new_);
      assert ivs[1..][n - 1..] == ivs[n..];
      assert ivs[..n] == [ivs[0]] + ivs[1..][..n - 1];
    }
  }

  lemma CoveredCons(iv: Interval, rest: seq<Interval>)
    ensures forall x :: Covered([iv] + rest, x) <==> In(x, iv) || Covered(rest, x)
  {
    forall x
      ensures Covered([iv] + rest, x) <==> In(x, iv) || Covered(rest, x)
    {
      assert iv in [iv] + rest;
      assert forall r :: r in [iv] + rest <==> r == iv || r in rest;
    }
  }

  lemma SortedCons(iv: Interval, rest: seq<Interval>)
    requires iv.lo <= iv.hi && Sorted(rest) && (rest != [] ==> iv.hi < rest[0].lo)
    ensures Sorted([iv] + rest)
  {
  }

  lemma {:induction false} AbsorbKeeps(iv: Interval, rest: seq<Interval>)
    requires iv.lo <= iv.hi && Sorted(rest) && (rest != [] ==> iv.lo <= rest[0].lo)
    ensures Sorted(Absorb(iv, rest))
    ensures forall x :: Covered(Absorb(iv, rest), x) <==> In(x, iv) || Covered(rest, x)
    decreases rest
  {
    if rest == [] || rest[0].lo > iv.hi {
      CoveredCons(iv, rest);
    } else {
      var wider := Interval(iv.lo, Max(iv.hi, rest[0].hi));
      assert rest == [rest[0]] + rest[1..];
      CoveredCons(rest[0], rest[1..]);
      AbsorbKeeps(wider, rest[1..]);
    }
  }

  /** A new interval that meets the first one. */
  lemma MergeTouching(iv: Interval, rest: seq<Interval>, new_: Interval)
    requires Sorted([iv] + rest) && new_.lo <= new_.hi && new_.lo <= iv.hi && iv.lo <= new_.hi
    ensures var merged := Absorb(Interval(Min(iv.lo, new_.lo), Max(iv.hi, new_.hi)), rest);
      Sorted(merged) && forall x :: Covered(merged, x) <==> In(x, iv) || Covered(rest, x) || In(x, new_)
  {
    var all := [iv] + rest;
    assert all[0] == iv && all[1..] == rest;
    assert Sorted(all[1..]) && (rest != [] ==> all[1] == rest[0]);
    AbsorbKeeps(Interval(Min(iv.lo, new_.lo), Max(iv.hi, new_.hi)), rest);
  }

  /** Merging keeps the list sorted and disjoint and adds exactly the new addresses. */
  lemma {:induction false} MergeKeeps(ivs: seq<Interval>, new_: Interval)
    requires Sorted(ivs) && new_.lo <= new_.hi
    ensures Sorted(Merge(ivs, new_))
    ensures forall x :: Covered(Merge(ivs, new_), x) <==> Covered(ivs, x) || In(x, new_)
    ensures Merge(ivs, new_) != []
    ensures Merge(ivs, new_)[0].lo == if ivs == [] then new_.lo else Min(ivs[0].lo, new_.lo)
    decreases ivs
  {
    if ivs == [] {
      CoveredCons(new_, []);
    } else {
      assert ivs == [ivs[0]] + ivs[1..];
      CoveredCons(ivs[0], ivs[1..]);
      if new_.lo > ivs[0].hi {
        MergeKeeps(ivs[1..], new_);
        CoveredCons(ivs[0], Merge(ivs[1..], new_));
        SortedCons(ivs[0], Merge(ivs[1..], new_));
      } else if new_.hi < ivs[0].lo {
        CoveredCons(new_, ivs);
        SortedCons(new_, ivs);
      } else {
        MergeTouching(ivs[0], ivs[1..], new_);
      }
    }
  }

  // ---------- nested or apart: nothing new but the new interval ----------

  predicate Laminar(a: Interval, b: Interval)
  {
    Contained(a, b) || Contained(b, a) || Apart(a, b)
  }

  /** What swallows may only widen to itself. */
  lemma {:induction false} AbsorbNested(iv: Interval, rest: seq<Interval>)
    requires iv.lo <= iv.hi && Sorted(rest) && (rest != [] ==> iv.lo < rest[0].lo)
    requires forall r :: r in rest ==> Laminar(r, iv)
    ensures forall r :: r in Absorb(iv, rest) ==> r == iv || r in rest
    ensures iv in Absorb(iv, rest)
    ensures forall r :: r in rest ==> r in Absorb(iv, rest) || Contained(r, iv)
    decreases rest
  {
    if rest == [] || rest[0].lo > iv.hi {
    } else {
      assert rest == [rest[0]] + rest[1..];
      assert rest[0] in rest && Contained(rest[0], iv);
      assert Interval(iv.lo, Max(iv.hi, rest[0].hi)) == iv;
      AbsorbNested(iv, rest[1..]);
    }
  }

  lemma {:induction false} MergeNested(ivs: seq<Interval>, new_: Interval)
    requires Sorted(ivs) && new_.lo <= new_.hi && forall r :: r in ivs ==> Laminar(r, new_)
    ensures forall r :: r in Merge(ivs, new_) ==> r == new_ || r in ivs
    ensures forall r :: r in ivs ==> r in Merge(ivs, new_) || Contained(r, new_)
    ensures exists r :: r in Merge(ivs, new_) && Contained(new_, r)
    ensures new_ in Merge(ivs, new_) || Merge(ivs, new_) == ivs
    decreases ivs
  {
    if ivs == [] {
      assert new_ in Merge(ivs, new_);
    } else {
      assert ivs == [ivs[0]] + ivs[1..];
      assert ivs[0] in ivs;
      if new_.lo > ivs[0].hi {
        MergeNested(ivs[1..], new_);
        var r :| r in Merge(ivs[1..], new_) && Contained(new_, r);
        assert r in Merge(ivs, new_);
      } else if new_.hi < ivs[0].lo {
        assert new_ in Merge(ivs, new_);
      } else if Contained(new_, ivs[0]) {
        assert Merge(ivs, new_) == Absorb(ivs[0], ivs[1..]) == ivs;
      } else {
        assert Interval(Min(ivs[0].lo, new_.lo), Max(ivs[0].hi, new_.hi)) == new_;
        AbsorbNested(new_, ivs[1..]);
      }
    }
  }

  // ---------- the range of a prefix ----------

  /** The first address of the width-bit range with leading bits k. */
  function Lo(k: Key, width: nat): nat
    requires |k| <= width
  {
    if k == [] then 0
    else (if k[0] then Pow2(width - 1) else 0) + Lo(k[1..], width - 1)
  }

  function Range(k: Key, width: nat): (iv: Interval)
    requires |k| <= width
  {
    Interval(Lo(k, width), Lo(k, width) + Pow2(width - |k|) - 1)
  }

  lemma {:induction false} RangeBound(k: Key, width: nat)
    requires |k| <= width
    ensures Range(k, width).lo <= Range(k, width).hi < Pow2(width)
  {
    if k != [] {
      RangeBound(k[1..], width - 1);
    }
  }

  /** Ranges of prefixes are nested like the prefixes, or apart. */
  lemma {:induction false} RangeLaminar(a: Key, b: Key, width: nat)
    requires |a| <= width && |b| <= width
    ensures a <= b <==> Contained(Range(b, width), Range(a, width))
    ensures !(a <= b) && !(b <= a) ==> Apart(Range(a, width), Range(b, width))
    ensures Range(a, width) == Range(b, width) ==> a == b
  {
    RangeBound(a, width);
    RangeBound(b, width);
    if a == [] {
      if b != [] {
        ShorterIsWider(b, width);
      }
    } else if b == [] {
      ShorterIsWider(a, width);
    } else {
      RangeLaminar(a[1..], b[1..], width - 1);
      RangeStep(a, width);
      RangeStep(b, width);
      FirstThenRest(a, b);
      FirstThenRest(b, a);
    }
  }

  lemma FirstThenRest(a: Key, b: Key)
    requires a != [] && b != []
    ensures a <= b <==> a[0] == b[0] && a[1..] <= b[1..]
    ensures a == b <==> a[0] == b[0] && a[1..] == b[1..]
  {
    assert a == [a[0]] + a[1..] && b == [b[0]] + b[1..];
  }

  /** The range is in the lower or the upper half, by the first bit. */
  lemma RangeStep(k: Key, width: nat)
    requires 0 < |k| <= width
    ensures var r, half := Range(k[1..], width - 1), Pow2(width - 1);
      && r.lo <= r.hi < half
      && Range(k, width) == if k[0] then Interval(r.lo + half, r.hi + half) else r
  {
    RangeBound(k[1..], width - 1);
  }

  lemma ShorterIsWider(k: Key, width: nat)
    requires 0 < |k| <= width
    ensures 2 * Pow2(width - |k|) <= Pow2(width)
  {
    Pow2Grows(width - |k|, width);
  }

  lemma LaminarRanges(a: Key, b: Key, width: nat)
    requires |a| <= width && |b| <= width
    ensures Laminar(Range(a, width), Range(b, width))
  {
    RangeLaminar(a, b, width);
    RangeLaminar(b, a, width);
  }
}
