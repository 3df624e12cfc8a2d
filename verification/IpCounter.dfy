/** The IP counter: a linked list of intervals, widened and spliced in place. Addresses are
    numbers; an IPv6 address is its two 64-bit halves read as one 128-bit number, in which
    order comparing numbers is comparing halves (PairOrder). */
module IpCounter {
  import opened Prefixes
  import opened TrieSubnets
  import opened Intervals
  import opened IpCounting

  /** The two-part comparisons of merge_in_sorted_queue6. */
  lemma PairOrder(aMs: nat, aLs: nat, bMs: nat, bLs: nat)
    requires aLs < BLOCK && bLs < BLOCK
    ensures aMs < bMs || (aMs == bMs && aLs < bLs) <==> aMs * BLOCK + aLs < bMs * BLOCK + bLs
    ensures (aMs * BLOCK + aLs) / BLOCK == aMs && (aMs * BLOCK + aLs) % BLOCK == aLs
  {
  }

  class Link {
    var start: nat
    var end: nat
    var next: Link?

    constructor (start: nat, end: nat)
      ensures this.start == start && this.end == end && next == null
    {
      this.start, this.end, next := start, end, null;
    }
  }

  /** What is left of a list when the interval at i has become `wide` and the one behind it is gone. */
  lemma Swallowed(ivs: seq<Interval>, i: nat, wide: Interval)
    requires i + 1 < |ivs|
    ensures var now := ivs[i := wide][..i + 1] + ivs[i := wide][i + 2..];
      now[..i] == ivs[..i] && now[i + 1..] == ivs[i + 1..][1..]
  {
  }

  class Queue {
    var head: Link?
    ghost var links: seq<Link>

    ghost predicate Linked()
      reads this, links
    {
      && head == (if links == [] then null else links[0])
      && (forall i {:trigger links[i].next} :: 0 <= i < |links| ==>
        links[i].next == if i + 1 < |links| then links[i + 1] else null)
      && (forall i, j :: 0 <= i < j < |links| ==> links[i] != links[j])
    }

    ghost function Ivs(): (ivs: seq<Interval>)
      reads this, links
      ensures |ivs| == |links|
    {
      seq(|links|, i requires 0 <= i < |links| reads this, links => Interval(links[i].start, links[i].end))
    }

    constructor ()
      ensures Linked() && Ivs() == []
    {
      head, links := null, [];
    }

    /** What link i holds, the link behind it, and whether it spans the same blocks as the one before. */
    lemma LinkAt(i: nat)
      requires Linked() && i < |links|
      ensures Ivs()[i] == Interval(links[i].start, links[i].end)
      ensures links[i].next == if i + 1 == |links| then null else links[i + 1]
      ensures i > 0 ==> links[i] != links[i - 1] && Ivs()[i - 1] == Interval(links[i - 1].start, links[i - 1].end)
    {
    }

    method SetEnd(current: Link, end: nat, ghost i: nat)
      requires Linked() && i < |links| && links[i] == current
      modifies current
      ensures Linked() && Ivs() == old(Ivs())[i := Interval(old(Ivs())[i].lo, end)]
      ensures current.end == end && current.next == old(current.next)
    {
      ghost var ivs := Ivs();
      current.end := end;
      assert forall k :: 0 <= k < |links| && k != i ==> Ivs()[k] == ivs[k];
    }

    /** The link behind current is dropped. */
    method Drop(current: Link, it: Link, ghost i: nat)
      requires Linked() && i + 1 < |links| && links[i] == current && links[i + 1] == it
      modifies this`links, current
      ensures Linked() && links == old(links)[..i + 1] + old(links)[i + 2..]
      ensures Ivs() == old(Ivs())[..i + 1] + old(Ivs())[i + 2..]
    {
      ghost var was, ivs := links, Ivs();
      LinkAt(i + 1);
      current.next := it.next;
      links := links[..i + 1] + links[i + 2..];
      assert forall k :: 0 <= k < |links| ==> links[k] == was[if k <= i then k else k + 1];
      assert forall k :: 0 <= k < |links| ==> Ivs()[k] == ivs[if k <= i then k else k + 1];
    }

    /** current takes in the interval behind it, whose link is dropped. */
    method Swallow(current: Link, it: Link, ghost i: nat)
      requires Linked() && i + 1 < |links| && links[i] == current && links[i + 1] == it
      modifies this`links, current
      ensures Linked() && links == old(links)[..i + 1] + old(links)[i + 2..]
      ensures Ivs()[..i] == old(Ivs())[..i] && Ivs()[i + 1..] == old(Ivs())[i + 1..][1..]
      ensures Ivs()[i] == Interval(old(Ivs())[i].lo, if it.end > old(current.end) then it.end else old(current.end))
    {
      LinkAt(i);
      ghost var ivs := Ivs();
      if it.end > current.end {
        SetEnd(current, it.end, i);
      }
      Drop(current, it, i);
      Swallowed(ivs, i, Ivs()[i]);
    }

    /** one_step_merge: current swallows the intervals after it that it reaches. */
    method OneStepMerge(current: Link, ghost i: nat)
      requires Linked() && i < |links| && links[i] == current
      modifies this`links, current
      ensures Linked()
      ensures Ivs() == old(Ivs())[..i] + Absorb(old(Ivs())[i], old(Ivs())[i + 1..])
    {
      var it := current.next;
      while it != null
        invariant Linked() && i < |links| && links[i] == current && it == current.next
        invariant forall l :: l in links ==> l in old(links)
        invariant Ivs()[..i] == old(Ivs())[..i]
        invariant Absorb(Ivs()[i], Ivs()[i + 1..]) == Absorb(old(Ivs())[i], old(Ivs())[i + 1..])
        decreases |links|
      {
        assert links[i + 1] == it;
        if it.start <= current.end {
          Swallow(current, it, i);
          it := current.next;
        } else {
          break;
        }
      }
      assert Ivs() == Ivs()[..i] + ([Ivs()[i]] + Ivs()[i + 1..]);
    }
  
    /** A new link between its neighbours. */
    method Splice(previous: Link?, current: Link?, start: nat, end: nat, ghost i: nat)
      requires Linked() && i <= |links|
      requires previous == if i == 0 then null else links[i - 1]
      requires current == if i == |links| then null else links[i]
      modifies this, previous
      ensures Linked() && Ivs() == old(Ivs())[..i] + [Interval(start, end)] + old(Ivs())[i..]
    {
      var p := new Link(start, end);
      p.next := current;
      if previous != null {
        previous.next := p;
      } else {
        head := p;
      }
      links := links[..i] + [p] + links[i..];
    }

    /** The scan past every interval that ends before start. */
    method Scan(start: nat) returns (previous: Link?, current: Link?, ghost i: nat)
      requires Linked()
      ensures i <= |links| && previous == if i == 0 then null else links[i - 1]
      ensures current == if i == |links| then null else links[i]
      ensures forall j :: 0 <= j < i ==> start > links[j].end
      ensures current != null ==> start <= current.end
    {
      previous, current, i := null, head, 0;
      while current != null && start > current.end
        invariant i <= |links| && previous == if i == 0 then null else links[i - 1]
        invariant current == if i == |links| then null else links[i]
        invariant forall j :: 0 <= j < i ==> start > links[j].end
        decreases |links| - i
      {
        LinkAt(i);
        previous, current, i := current, current.next, i + 1;
      }
    }

    /** An interval that the new one meets is widened to hold it, and swallows what it then reaches. */
    method Widen(current: Link, start: nat, end: nat, ghost i: nat)
      requires Linked() && i < |links| && links[i] == current && start <= current.end && current.start <= end
      modifies this, current
      ensures Linked()
      ensures Ivs() == old(Ivs())[..i] +
        Absorb(Interval(Min(old(Ivs())[i].lo, start), Max(old(Ivs())[i].hi, end)), old(Ivs())[i + 1..])
    {
      ghost var ivs := Ivs();
      if current.start > start {
        current.start := start;
      }
      if current.end < end {
        current.end := end;
      }
      assert Ivs()[..i] == ivs[..i] && Ivs()[i + 1..] == ivs[i + 1..];
      OneStepMerge(current, i);
    }

    /** merge_in_sorted_queue4 and 6. */
    method MergeInSortedQueue(start: nat, end: nat)
      requires Linked() && start <= end
      modifies this, links
      ensures Linked() && Ivs() == Merge(old(Ivs()), Interval(start, end))
    {
      ghost var ivs, fresh_ := Ivs(), Interval(start, end);
      var previous, current, i := Scan(start);
      MergeSkips(ivs, i, fresh_);
      if current == null || end < current.start {
        MergeBefore(ivs, i, fresh_);
        Splice(previous, current, start, end, i);
      } else {
        MergeInto(ivs, i, fresh_);
        Widen(current, start, end, i);
      }
    }

    lemma MergeBefore(ivs: seq<Interval>, i: nat, new_: Interval)
      requires i <= |ivs| && (i < |ivs| ==> new_.lo <= ivs[i].hi && new_.hi < ivs[i].lo)
      ensures ivs[..i] + Merge(ivs[i..], new_) == ivs[..i] + [new_] + ivs[i..]
    {
    }

    lemma MergeInto(ivs: seq<Interval>, i: nat, new_: Interval)
      requires i < |ivs| && new_.lo <= ivs[i].hi && new_.hi >= ivs[i].lo
      ensures Merge(ivs[i..], new_)
        == Absorb(Interval(Min(ivs[i].lo, new_.lo), Max(ivs[i].hi, new_.hi)), ivs[i + 1..])
    {
      assert ivs[i..][1..] == ivs[i + 1..];
    }

    /** The IPv4 branch of get_ipcount: each length is computed in 32 bits. */
    method SumLengths() returns (count: nat)
      requires Linked() && Sorted(Ivs())
      ensures count == LengthSum(Ivs())
    {
      ghost var ivs := Ivs();
      count := 0;
      var current := head;
      ghost var i := 0;
      while current != null
        invariant i <= |ivs| && current == if i == |ivs| then null else links[i]
        invariant count == LengthSum(ivs[..i])
        decreases |ivs| - i
      {
        LinkAt(i);
        LengthSumStep(ivs, i);
        count := count + (current.end - current.start + 1) % WORD;
        current, i := current.next, i + 1;
      }
      assert ivs[..i] == ivs;
    }

    /** The IPv6 branch: most significant halves only, in 64 bits, and a /64 is added again only
        when the interval before is in another one. */
    method SumSpans() returns (count: nat)
      requires Linked()
      ensures count == SpanSum(Ivs())
    {
      ghost var ivs := Ivs();
      count := 0;
      var current, previous := head, head;
      ghost var i := 0;
      while current != null
        invariant i <= |ivs| && current == if i == |ivs| then null else links[i]
        invariant previous == if i == 0 then head else links[i - 1]
        invariant count == SpanSum(ivs[..i])
        decreases |ivs| - i
      {
        LinkAt(i);
        SpanSumStep(ivs, i);
        var span := BlockSpan(Interval(current.start, current.end));
        var again := previous != current && BlockSpan(Interval(previous.start, previous.end)) == span;
        count := Sum64(count, again, span.hi - span.lo + 1);
        previous, current, i := current, current.next, i + 1;
      }
      assert ivs[..i] == ivs;
    }

    /** The loop of is_overlapping4, up to an interval that starts behind r. */
    method SumCommon(r: Interval) returns (count: int, moreSpecific: bool, ghost n: nat)
      requires Linked() && r.lo <= r.hi
      ensures n <= |Ivs()| && (n < |Ivs()| ==> Ivs()[n].lo > r.hi)
      ensures count == CommonSum(Ivs()[..n], r) && (moreSpecific <==> HousedBy(Ivs(), n, r))
    {
      ghost var ivs := Ivs();
      count, moreSpecific, n := 0, false, 0;
      var current := head;
      while current != null
        invariant n <= |ivs| && current == if n == |ivs| then null else links[n]
        invariant count == CommonSum(ivs[..n], r) && (moreSpecific <==> HousedBy(ivs, n, r))
        decreases |ivs| - n
      {
        LinkAt(n);
        if current.start > r.hi {
          break;
        }
        CommonSumStep(ivs, r, n);
        HousedStep(ivs, n, r);
        if current.end < r.lo {
          current, n := current.next, n + 1;
          continue;
        }
        var intStart: int, intEnd: int := current.start, current.end;
        if current.start < r.lo {
          intStart := r.lo;
        }
        if current.end > r.hi {
          intEnd := r.hi;
        }
        if intEnd - intStart + 1 == r.hi - r.lo + 1 {
          moreSpecific := true;
        }
        count := count + (intEnd - intStart + 1);
        current, n := current.next, n + 1;
      }
    }

    /** So it counts the addresses in common, and its flag says whether one interval holds r. */
    method MeasureOverlap(start: nat, end: nat) returns (count: nat, moreSpecific: bool)
      requires Linked() && Sorted(Ivs()) && start <= end
      ensures count == |Overlap(Ivs(), Interval(start, end))|
      ensures moreSpecific <==> Housed(Ivs(), Interval(start, end))
    {
      ghost var ivs, r := Ivs(), Interval(start, end);
      var sum;
      ghost var n;
      sum, moreSpecific, n := SumCommon(Interval(start, end));
      CommonSumIs(ivs, r, n);
      HousedBefore(ivs, n, r);
      if n < |ivs| {
        OverlapEnds(ivs, n, r);
      } else {
        assert ivs[..n] == ivs;
      }
      count := sum;
    }
  }

  /** The v4list or the v6list of struct bgpstream_ip_counter. */
  class Counter {
    const v: Version
    const list: Queue
    // every prefix added so far
    ghost var added: set<Key>

    ghost predicate Valid()
      reads this, list, list.links
    {
      v != Unknown && list.Linked() && Canonical(list.Ivs(), added, Width(v))
    }

    constructor (v: Version)
      requires v != Unknown
      ensures Valid() && this.v == v && added == {} && list.Ivs() == [] && fresh(list)
    {
      this.v := v;
      list := new Queue();
      added := {};
    }

    /** bgpstream_ip_counter_add. */
    method Add(pfx: Prefix)
      requires Valid() && WellFormed(pfx) && pfx.version == v && (v == V6 ==> pfx.maskLen >= 1)
      modifies this, list, list.links
      ensures Valid() && added == old(added) + {KeyOf(pfx)}
      ensures list.Ivs() == Merge(old(list.Ivs()), Range(KeyOf(pfx), Width(v)))
    {
      var size := Pow2(Width(v) - pfx.maskLen);
      var start := Masked(AddrValue(pfx.addr), size);
      MaskedRange(pfx);
      AddRange(start, start + (size - 1), KeyOf(pfx));
    }

    ghost method Remember(grown: set<Key>)
      modifies this`added
      ensures added == grown && list.Ivs() == old(list.Ivs()) && list.Linked() == old(list.Linked())
    {
      added := grown;
    }

    method AddRange(start: nat, end: nat, ghost k: Key)
      requires Valid() && |k| <= Width(v) && start <= end && Interval(start, end) == Range(k, Width(v))
      modifies this, list, list.links
      ensures Valid() && added == old(added) + {k}
      ensures list.Ivs() == Merge(old(list.Ivs()), Interval(start, end))
    {
      ghost var ivs, grown := list.Ivs(), added + {k};
      CanonicalAdd(ivs, added, Width(v), k, Interval(start, end));
      list.MergeInSortedQueue(start, end);
      ghost var merged := list.Ivs();
      assert merged == Merge(ivs, Interval(start, end)) && Canonical(merged, grown, Width(v));
      Remember(grown);
    }

    /** bgpstream_ip_counter_get_ipcount for IPv4: the number of distinct addresses, exactly
        when 0.0.0.0/0 was not added. */
    method GetIpCount4() returns (count: nat)
      requires Valid() && v == V4
      ensures count == |Union(list.Ivs())| <==> [] !in added
      ensures [] in added ==> count == 0
    {
      count := list.SumLengths();
      CountedAddresses(list.Ivs(), added);
    }

    /** bgpstream_ip_counter_get_ipcount for IPv6: the number of distinct /64 blocks, modulo
        2^64. */
    method GetIpCount6() returns (count: nat)
      requires Valid() && v == V6
      ensures count == |BlockUnion(list.Ivs())| % WRAP
    {
      CountedBlocks(list.Ivs(), added, Width(v));
      count := list.SumSpans();
    }

    /** bgpstream_ip_counter_is_overlapping4: how many counted addresses the prefix covers, and
        whether some added prefix contains it. */
    method IsOverlapping4(pfx: Prefix) returns (count: nat, moreSpecific: bool)
      requires Valid() && v == V4 && WellFormed(pfx) && pfx.version == V4 && pfx.maskLen >= 1
      ensures count == |Overlap(list.Ivs(), Range(KeyOf(pfx), Width(v)))|
      ensures moreSpecific <==> exists k :: k in added && k <= KeyOf(pfx)
    {
      var size := Pow2(32 - pfx.maskLen);
      var start := Masked(AddrValue(pfx.addr), size);
      var end := start + (size - 1);
      MaskedRange(pfx);
      assert Interval(start, end) == Range(KeyOf(pfx), Width(v));
      count, moreSpecific := list.MeasureOverlap(start, end);
      ContainedIsCovered(list.Ivs(), added, Width(v), KeyOf(pfx));
    }
  }

  /** One of the first n intervals holds r. */
  ghost predicate HousedBy(ivs: seq<Interval>, n: nat, r: Interval)
    requires n <= |ivs|
  {
    exists j :: 0 <= j < n && Contained(r, ivs[j])
  }

  lemma HousedStep(ivs: seq<Interval>, n: nat, r: Interval)
    requires n < |ivs|
    ensures HousedBy(ivs, n + 1, r) <==> HousedBy(ivs, n, r) || Contained(r, ivs[n])
  {
  }

  lemma HousedBefore(ivs: seq<Interval>, n: nat, r: Interval)
    requires Sorted(ivs) && n <= |ivs| && (n < |ivs| ==> ivs[n].lo > r.hi) && r.lo <= r.hi
    ensures Housed(ivs, r) <==> HousedBy(ivs, n, r)
  {
    if Housed(ivs, r) {
      var iv :| iv in ivs && Contained(r, iv);
      var j :| 0 <= j < |ivs| && ivs[j] == iv;
    }
  }
}
