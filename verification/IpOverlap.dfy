/** Overlap of an IPv6 prefix with the counted addresses, in /64 blocks. One comparison of the source
    takes the most significant half of an address for the least significant one; this module
    says for which lists and prefixes the count is right all the same. */
module IpOverlap {
  import opened Prefixes
  import opened TrieSubnets
  import opened Intervals
  import opened IpCounting
  import opened IpCounter

  /** The /64 blocks with an address both counted and in r. */
  ghost function SharedBlocks(ivs: seq<Interval>, r: Interval): set<nat>
  {
    set x | x in Overlap(ivs, r) :: x / BLOCK
  }

  predicate WholeBlocks(r: Interval)
  {
    r.lo % BLOCK == 0 && r.hi % BLOCK == BLOCK - 1
  }

  predicate OneBlock(r: Interval)
  {
    r.lo / BLOCK == r.hi / BLOCK
  }

  // ---------- what the loop adds up ----------

  /** The source's test that iv ends before r, with the wrong half in the second comparison. */
  predicate Passed(iv: Interval, r: Interval)
  {
    iv.hi / BLOCK < r.lo / BLOCK || (iv.hi / BLOCK == r.lo / BLOCK && iv.hi / BLOCK < r.lo % BLOCK)
  }

  predicate Takes(iv: Interval, r: Interval)
  {
    iv.lo <= r.hi && !Passed(iv, r)
  }

  /** The blocks between the later start and the earlier end. */
  function Cut(iv: Interval, r: Interval): Interval
  {
    Interval(Max(iv.lo / BLOCK, r.lo / BLOCK), Min(iv.hi / BLOCK, r.hi / BLOCK))
  }

  ghost function Measured(ivs: seq<Interval>, r: Interval): int
  {
    if ivs == [] then 0
    else
      var n := |ivs| - 1;
      var cut := Cut(ivs[n], r);
      Measured(ivs[..n], r) + if Takes(ivs[n], r) && !Again(ivs, n) then cut.hi - cut.lo + 1 else 0
  }

  lemma MeasuredStep(ivs: seq<Interval>, r: Interval, i: nat)
    requires i < |ivs|
    ensures Measured(ivs[..i + 1], r) == Measured(ivs[..i], r) +
      if Takes(ivs[i], r) && !Again(ivs, i) then Cut(ivs[i], r).hi - Cut(ivs[i], r).lo + 1 else 0
  {
    assert ivs[..i + 1][..i] == ivs[..i];
  }

  ghost predicate AllAligned(ivs: seq<Interval>)
  {
    Sorted(ivs) && forall iv :: iv in ivs ==> BlockAligned(iv)
  }

  // ---------- prefixes of whole blocks ----------

  lemma WideShared(ivs: seq<Interval>, r: Interval)
    requires Sorted(ivs) && WholeBlocks(r)
    ensures SharedBlocks(ivs, r) == BlockUnion(ivs) * Addresses(BlockSpan(r))
  {
    UnionIsCovered(ivs);
    BlockUnionMembers(ivs);
    forall b | b in BlockUnion(ivs) * Addresses(BlockSpan(r))
      ensures b in SharedBlocks(ivs, r)
    {
      var iv :| iv in ivs && In(b, BlockSpan(iv));
      var x := Max(iv.lo, b * BLOCK);
      assert In(x, iv) && In(x, r) && x / BLOCK == b;
      assert Covered(ivs, x) && x in Overlap(ivs, r);
    }
  }

  lemma WideTakes(iv: Interval, r: Interval)
    requires WholeBlocks(r) && iv.lo <= iv.hi && r.lo <= r.hi
    ensures Takes(iv, r) <==> Cut(iv, r).lo <= Cut(iv, r).hi
    ensures Addresses(BlockSpan(iv)) * Addresses(BlockSpan(r)) == if Takes(iv, r) then Addresses(Cut(iv, r)) else {}
  {
  }

  lemma {:induction false} WideMeasured(ivs: seq<Interval>, r: Interval, n: nat)
    requires AllAligned(ivs) && WholeBlocks(r) && r.lo <= r.hi && n <= |ivs|
    ensures Measured(ivs[..n], r) == |BlockUnion(ivs[..n]) * Addresses(BlockSpan(r))|
  {
    if n > 0 {
      WideMeasured(ivs, r, n - 1);
      MeasuredStep(ivs, r, n - 1);
      WideStep(ivs, r, n - 1);
    }
  }

  lemma WideStep(ivs: seq<Interval>, r: Interval, i: nat)
    requires AllAligned(ivs) && WholeBlocks(r) && r.lo <= r.hi && i < |ivs|
    ensures |BlockUnion(ivs[..i + 1]) * Addresses(BlockSpan(r))| == |BlockUnion(ivs[..i]) * Addresses(BlockSpan(r))| +
      if Takes(ivs[i], r) && !Again(ivs, i) then Cut(ivs[i], r).hi - Cut(ivs[i], r).lo + 1 else 0
  {
    BlockUnionStep(ivs, i);
    WideTakes(ivs[i], r);
    Meeting(BlockUnion(ivs[..i]), Addresses(BlockSpan(ivs[i])), Addresses(BlockSpan(r)));
    if Takes(ivs[i], r) && !Again(ivs, i) {
      AddressCount(Cut(ivs[i], r));
    }
  }

  lemma Meeting<T>(a: set<T>, b: set<T>, w: set<T>)
    ensures b <= a ==> |(a + b) * w| == |a * w|
    ensures a !! b ==> |(a + b) * w| == |a * w| + |b * w|
  {
    assert (a + b) * w == a * w + b * w;
    assert b <= a ==> a + b == a;
  }

  // ---------- prefixes within one block ----------

  /** An interval with the span of the one before it is taken only if that one is. */
  lemma BeforeIsTaken(ivs: seq<Interval>, r: Interval, i: nat)
    requires Sorted(ivs) && i < |ivs| && Takes(ivs[i], r) && Again(ivs, i)
    ensures Takes(ivs[i - 1], r)
  {
  }

  lemma NarrowTakes(iv: Interval, r: Interval)
    requires OneBlock(r) && Takes(iv, r)
    ensures Cut(iv, r) == BlockSpan(r)
  {
  }

  /** Of the intervals taken around one block, all but the first have the span of the one before. */
  lemma TakenAgain(ivs: seq<Interval>, r: Interval, j: nat, i: nat)
    requires AllAligned(ivs) && OneBlock(r) && j < i < |ivs| && Takes(ivs[j], r) && Takes(ivs[i], r)
    ensures Again(ivs, i)
  {
    assert ivs[j] in ivs && ivs[i] in ivs;
    SpansApartOrEqual(ivs[j], ivs[i]);
    assert ivs[j].lo <= ivs[i - 1].lo <= ivs[i - 1].hi < ivs[i].lo;
  }

  ghost predicate SomeTaken(ivs: seq<Interval>, r: Interval, n: nat)
    requires n <= |ivs|
  {
    exists j :: 0 <= j < n && Takes(ivs[j], r)
  }

  /** Around one block, an interval is taken as the first one or again. */
  lemma NarrowStep(ivs: seq<Interval>, r: Interval, i: nat)
    requires AllAligned(ivs) && OneBlock(r) && i < |ivs|
    ensures SomeTaken(ivs, r, i + 1) <==> SomeTaken(ivs, r, i) || Takes(ivs[i], r)
    ensures Takes(ivs[i], r) ==> (Again(ivs, i) <==> SomeTaken(ivs, r, i))
  {
    if Takes(ivs[i], r) {
      if Again(ivs, i) {
        BeforeIsTaken(ivs, r, i);
      }
      if j :| 0 <= j < i && Takes(ivs[j], r) {
        TakenAgain(ivs, r, j, i);
      }
    }
  }

  lemma {:induction false} NarrowMeasured(ivs: seq<Interval>, r: Interval, n: nat)
    requires AllAligned(ivs) && OneBlock(r) && n <= |ivs|
    ensures Measured(ivs[..n], r) == if SomeTaken(ivs, r, n) then 1 else 0
  {
    if n > 0 {
      NarrowMeasured(ivs, r, n - 1);
      MeasuredStep(ivs, r, n - 1);
      NarrowStep(ivs, r, n - 1);
      if Takes(ivs[n - 1], r) {
        NarrowTakes(ivs[n - 1], r);
      }
    }
  }

  lemma InOneBlock(r: Interval, x: nat)
    requires OneBlock(r) && In(x, r)
    ensures x / BLOCK == r.lo / BLOCK
  {
  }

  lemma NarrowShared(ivs: seq<Interval>, r: Interval)
    requires Sorted(ivs) && OneBlock(r) && r.lo <= r.hi
    ensures |SharedBlocks(ivs, r)| == if exists iv :: iv in ivs && !Apart(iv, r) then 1 else 0
  {
    UnionIsCovered(ivs);
    if iv :| iv in ivs && !Apart(iv, r) {
      var x := Max(iv.lo, r.lo);
      assert In(x, iv) && In(x, r) && Covered(ivs, x) && x in Overlap(ivs, r);
      InOneBlock(r, x);
      forall b | b in SharedBlocks(ivs, r)
        ensures b == r.lo / BLOCK
      {
        var y :| y in Overlap(ivs, r) && y / BLOCK == b;
        InOneBlock(r, y);
      }
      assert x / BLOCK in SharedBlocks(ivs, r) && SharedBlocks(ivs, r) == {r.lo / BLOCK};
    } else {
      assert SharedBlocks(ivs, r) == {};
    }
  }

  // ---------- when the count is right ----------

  /** The intervals that the wrong comparison is about: they end in r's block. */
  predicate EndsInBlock(iv: Interval, r: Interval)
  {
    iv.hi / BLOCK == r.lo / BLOCK
  }

  /** Whole blocks are always counted right. Inside a block it depends on the number of the block: if
      that is less than the lower half of the prefix's address, intervals that end in the block
      are passed over, and none of them may meet the prefix; otherwise all of them that start
      before the prefix ends are taken, and if there are any the prefix has to meet one. */
  ghost predicate CountsRight(ivs: seq<Interval>, r: Interval)
  {
    WholeBlocks(r) ||
    if r.lo / BLOCK < r.lo % BLOCK then forall iv :: iv in ivs && EndsInBlock(iv, r) ==> Apart(iv, r)
    else (exists iv :: iv in ivs && EndsInBlock(iv, r) && iv.lo <= r.hi) ==> exists iv :: iv in ivs && !Apart(iv, r)
  }

  lemma CountsRightExactly(ivs: seq<Interval>, r: Interval)
    requires AllAligned(ivs) && BlockAligned(r) && r.lo <= r.hi
    ensures Measured(ivs, r) == |SharedBlocks(ivs, r)| <==> CountsRight(ivs, r)
  {
    assert ivs[..|ivs|] == ivs;
    if WholeBlocks(r) {
      WideShared(ivs, r);
      WideMeasured(ivs, r, |ivs|);
    } else {
      NarrowShared(ivs, r);
      NarrowMeasured(ivs, r, |ivs|);
      NarrowRight(ivs, r);
    }
  }

  lemma NarrowRight(ivs: seq<Interval>, r: Interval)
    requires AllAligned(ivs) && OneBlock(r) && !WholeBlocks(r) && r.lo <= r.hi
    ensures (SomeTaken(ivs, r, |ivs|) <==> exists iv :: iv in ivs && !Apart(iv, r)) <==> CountsRight(ivs, r)
  {
    forall iv | iv in ivs
      ensures Takes(iv, r)
        <==> iv.lo <= r.hi && (iv.hi / BLOCK > r.lo / BLOCK || (EndsInBlock(iv, r) && r.lo / BLOCK >= r.lo % BLOCK))
      ensures iv.lo <= r.hi && iv.hi / BLOCK > r.lo / BLOCK ==> !Apart(iv, r)
      ensures !Apart(iv, r) ==> iv.lo <= r.hi && iv.hi / BLOCK >= r.lo / BLOCK
    {
    }
    if j, iv :| 0 <= j < |ivs| && Takes(ivs[j], r) && iv in ivs && EndsInBlock(iv, r) && !Apart(iv, r) {
      NotBoth(ivs, r, ivs[j], iv);
    }
  }

  /** An interval that runs past r's block and meets r leaves no room for one that ends in it. */
  lemma NotBoth(ivs: seq<Interval>, r: Interval, past: Interval, ends: Interval)
    requires AllAligned(ivs) && OneBlock(r) && past in ivs && ends in ivs
    requires past.lo <= r.hi && EndsInBlock(ends, r) && !Apart(ends, r)
    ensures past.hi / BLOCK <= r.lo / BLOCK
  {
    if past.hi / BLOCK > r.lo / BLOCK {
      assert past.hi > ends.hi;
      assert ends.hi < past.lo;
      SpansApartOrEqual(ends, past);
    }
  }

  function Zeros(n: nat): (k: Key)
    ensures |k| == n
  {
    seq(n, _ => false)
  }

  lemma {:induction false} LoBehindZeros(n: nat, k: Key, width: nat)
    requires n + |k| <= width
    ensures Lo(Zeros(n) + k, width) == Lo(k, width - n)
  {
    if n == 0 {
      assert Zeros(0) + k == k;
    } else {
      LoBehindZeros(n - 1, k, width - 1);
      assert (Zeros(n) + k)[1..] == Zeros(n - 1) + k && !(Zeros(n) + k)[0];
    }
  }

  lemma LoOfOne(k: Key, width: nat)
    requires |k| < width
    ensures Lo([true] + k, width) == Pow2(width - 1) + Lo(k, width - 1)
  {
    assert ([true] + k)[1..] == k;
  }

  /** The number written as 63 zero bits, a one, 63 more zero bits and a last bit. */
  lemma HalfAndBit(last: bool)
    ensures Lo(Zeros(63) + ([true] + (Zeros(63) + [last])), 128) == BLOCK + if last then 1 else 0
  {
    LoBehindZeros(63, [true] + (Zeros(63) + [last]), 128);
    LoOfOne(Zeros(63) + [last], 65);
    LoBehindZeros(63, [last], 64);
    assert [last][1..] == [] && Lo([last], 1) == if last then 1 else 0;
    Pow2At64();
  }

  /** With 0:0:0:1::/128 added, 0:0:0:1::1/128 is counted as sharing a block with it. */
  lemma Miscounted() returns (k: Key, j: Key)
    ensures |k| == |j| == 128 && AfterAdding([k], 128) == [Range(k, 128)]
    ensures Measured([Range(k, 128)], Range(j, 128)) == 1 && SharedBlocks([Range(k, 128)], Range(j, 128)) == {}
  {
    k, j := Zeros(63) + ([true] + (Zeros(63) + [false])), Zeros(63) + ([true] + (Zeros(63) + [true]));
    HalfAndBit(false);
    HalfAndBit(true);
    assert [k][..0] == [] && Merge([], Range(k, 128)) == [Range(k, 128)];
    assert Range(k, 128) == Interval(BLOCK, BLOCK) && Range(j, 128) == Interval(BLOCK + 1, BLOCK + 1);
    UnionIsCovered([Interval(BLOCK, BLOCK)]);
    MeasuredStep([Interval(BLOCK, BLOCK)], Interval(BLOCK + 1, BLOCK + 1), 0);
  }

  // ---------- the flag ----------

  ghost predicate FlagUpTo(ivs: seq<Interval>, r: Interval, n: nat)
    requires n <= |ivs|
  {
    exists j :: 0 <= j < n && Takes(ivs[j], r) && Cut(ivs[j], r) == BlockSpan(r)
  }

  /** For more than one block the flag is right; for less it says no more than the count does. */
  lemma FlagMeans(ivs: seq<Interval>, r: Interval)
    requires AllAligned(ivs) && BlockAligned(r) && r.lo <= r.hi
    ensures !OneBlock(r) ==> (FlagUpTo(ivs, r, |ivs|) <==> Housed(ivs, r))
    ensures OneBlock(r) ==> (FlagUpTo(ivs, r, |ivs|) <==> Measured(ivs, r) > 0)
  {
    if OneBlock(r) {
      assert ivs[..|ivs|] == ivs;
      NarrowMeasured(ivs, r, |ivs|);
      if j :| 0 <= j < |ivs| && Takes(ivs[j], r) {
        NarrowTakes(ivs[j], r);
      }
    } else {
      forall iv | iv in ivs
        ensures Takes(iv, r) && Cut(iv, r) == BlockSpan(r) <==> Contained(r, iv)
      {
      }
    }
  }

  // ---------- the loop ----------

  lemma MeasuredBound(ivs: seq<Interval>, r: Interval, n: nat)
    requires AllAligned(ivs) && BlockAligned(r) && r.lo <= r.hi && n <= |ivs|
    ensures 0 <= Measured(ivs[..n], r) <= BlockSpan(r).hi - BlockSpan(r).lo + 1
  {
    if OneBlock(r) {
      NarrowMeasured(ivs, r, n);
    } else {
      WideMeasured(ivs, r, n);
      AddressCount(BlockSpan(r));
      Within(BlockUnion(ivs[..n]), Addresses(BlockSpan(r)));
    }
  }

  lemma Within<T>(a: set<T>, w: set<T>)
    ensures |a * w| <= |w|
  {
    assert w == a * w + (w - a);
  }

  lemma FlagStep(ivs: seq<Interval>, r: Interval, i: nat)
    requires Sorted(ivs) && i < |ivs|
    ensures FlagUpTo(ivs, r, i + 1)
      <==> FlagUpTo(ivs, r, i) || (Takes(ivs[i], r) && !Again(ivs, i) && Cut(ivs[i], r) == BlockSpan(r))
  {
    if Takes(ivs[i], r) && Again(ivs, i) {
      BeforeIsTaken(ivs, r, i);
      assert Cut(ivs[i], r) == Cut(ivs[i - 1], r);
    }
  }

  /** Nothing is taken from an interval on that starts after r. */
  lemma NotTaken(ivs: seq<Interval>, r: Interval, i: nat, n: nat)
    requires Sorted(ivs) && i <= n < |ivs| && ivs[i].lo > r.hi
    ensures !Takes(ivs[n], r)
  {
    assert i < n ==> ivs[i].hi < ivs[n].lo;
  }

  lemma {:induction false} MeasuredEnds(ivs: seq<Interval>, r: Interval, i: nat, n: nat)
    requires Sorted(ivs) && i <= n <= |ivs| && (i < |ivs| ==> ivs[i].lo > r.hi)
    ensures Measured(ivs[..n], r) == Measured(ivs[..i], r) && (FlagUpTo(ivs, r, n) <==> FlagUpTo(ivs, r, i))
  {
    if i < n {
      MeasuredEnds(ivs, r, i, n - 1);
      NotTaken(ivs, r, i, n - 1);
      MeasuredStep(ivs, r, n - 1);
      FlagStep(ivs, r, n - 1);
    }
  }

  lemma CutSize(iv: Interval, r: Interval)
    requires Takes(iv, r) && iv.lo <= iv.hi && r.lo <= r.hi
    ensures Cut(iv, r).lo <= Cut(iv, r).hi
    ensures Cut(iv, r).hi - Cut(iv, r).lo == BlockSpan(r).hi - BlockSpan(r).lo <==> Cut(iv, r) == BlockSpan(r)
  {
  }

  /** The most significant halves of the later start and the earlier end. */
  function CutOf(iv: Interval, r: Interval): (cut: Interval)
    ensures cut == Cut(iv, r)
  {
    var startsBefore :=
      iv.lo / BLOCK < r.lo / BLOCK || (iv.lo / BLOCK == r.lo / BLOCK && iv.lo / BLOCK < r.lo % BLOCK);
    var endsBehind :=
      iv.hi / BLOCK > r.hi / BLOCK || (iv.hi / BLOCK == r.hi / BLOCK && iv.hi % BLOCK > r.hi % BLOCK);
    Interval(if startsBefore then r.lo / BLOCK else iv.lo / BLOCK, if endsBehind then r.hi / BLOCK else iv.hi / BLOCK)
  }

  /** What an interval adds that is not passed over. */
  lemma AddedBlocks(ivs: seq<Interval>, i: nat, r: Interval)
    requires AllAligned(ivs) && i < |ivs| && Takes(ivs[i], r) && !Again(ivs, i)
    requires BlockAligned(r) && r.lo <= r.hi && BlockSpan(r).hi - BlockSpan(r).lo + 1 < WRAP
    ensures var blocks := Cut(ivs[i], r).hi - Cut(ivs[i], r).lo + 1;
      && blocks >= 0 && Measured(ivs[..i], r) >= 0
      && Measured(ivs[..i + 1], r) == Measured(ivs[..i], r) + blocks < WRAP
      && (FlagUpTo(ivs, r, i + 1) <==> FlagUpTo(ivs, r, i) || blocks == BlockSpan(r).hi - BlockSpan(r).lo + 1)
  {
    MeasuredStep(ivs, r, i);
    FlagStep(ivs, r, i);
    MeasuredBound(ivs, r, i + 1);
    MeasuredBound(ivs, r, i);
    CutSize(ivs[i], r);
  }

  lemma NoWrap(n: nat)
    requires n < WRAP
    ensures n % WRAP == n
  {
  }

  /** An interval that is passed over, or spans what the one before it spans, adds nothing. */
  lemma AddedNothing(ivs: seq<Interval>, i: nat, r: Interval)
    requires AllAligned(ivs) && i < |ivs| && (!Takes(ivs[i], r) || Again(ivs, i))
    ensures Measured(ivs[..i + 1], r) == Measured(ivs[..i], r) && (FlagUpTo(ivs, r, i + 1) <==> FlagUpTo(ivs, r, i))
  {
    MeasuredStep(ivs, r, i);
    FlagStep(ivs, r, i);
  }

  /** The comparison of both halves is that of the addresses. */
  predicate StartsAfter(iv: Interval, r: Interval)
    ensures StartsAfter(iv, r) <==> iv.lo > r.hi
  {
    iv.lo / BLOCK > r.hi / BLOCK || (iv.lo / BLOCK == r.hi / BLOCK && iv.lo % BLOCK > r.hi % BLOCK)
  }

  /** What one turn of the loop makes of the count and the flag: nothing, or `blocks` more. */
  function Turned(skip: bool, blocks: int, size: int, count: nat, flag: bool): (nat, bool)
  {
    if skip then (count, flag) else ((count + blocks) % WRAP, flag || blocks % WRAP == size)
  }

  lemma TurnedNoWrap(blocks: int, size: int, count: nat, flag: bool)
    requires 0 <= blocks && count + blocks < WRAP
    ensures Turned(false, blocks, size, count, flag) == (count + blocks, flag || blocks == size)
  {
    NoWrap(blocks);
    NoWrap(count + blocks);
  }

  lemma TurnedIs(ivs: seq<Interval>, i: nat, r: Interval, skip: bool, blocks: int, size: int, count: nat, flag: bool)
    requires AllAligned(ivs) && i < |ivs| && ivs[i].lo <= r.hi && r.lo <= r.hi && BlockAligned(r)
    requires size == BlockSpan(r).hi - BlockSpan(r).lo + 1 < WRAP && (skip <==> Passed(ivs[i], r) || Again(ivs, i))
    requires count == Measured(ivs[..i], r) && (flag <==> FlagUpTo(ivs, r, i))
    requires blocks == Cut(ivs[i], r).hi - Cut(ivs[i], r).lo + 1
    ensures Turned(skip, blocks, size, count, flag) == (Measured(ivs[..i + 1], r), FlagUpTo(ivs, r, i + 1))
  {
    if skip {
      AddedNothing(ivs, i, r);
    } else {
      AddedBlocks(ivs, i, r);
      TurnedNoWrap(blocks, size, count, flag);
    }
  }

  /** The turn at an interval, which may have the span of the one before it. */
  function Turn(iv: Interval, again: bool, r: Interval, count: nat, flag: bool): (nat, bool)
  {
    var cut := CutOf(iv, r);
    Turned(Passed(iv, r) || again, cut.hi - cut.lo + 1, BlockSpan(r).hi - BlockSpan(r).lo + 1, count, flag)
  }

  lemma TurnIs(ivs: seq<Interval>, i: nat, r: Interval, count: nat, flag: bool)
    requires AllAligned(ivs) && i < |ivs| && ivs[i].lo <= r.hi && r.lo <= r.hi && BlockAligned(r)
    requires BlockSpan(r).hi - BlockSpan(r).lo + 1 < WRAP
    requires count == Measured(ivs[..i], r) && (flag <==> FlagUpTo(ivs, r, i))
    ensures Turn(ivs[i], Again(ivs, i), r, count, flag) == (Measured(ivs[..i + 1], r), FlagUpTo(ivs, r, i + 1))
  {
    var skip, size := Passed(ivs[i], r) || Again(ivs, i), BlockSpan(r).hi - BlockSpan(r).lo + 1;
    var cut := CutOf(ivs[i], r);
    TurnUnfolded(ivs[i], Again(ivs, i), r, count, flag);
    TurnedIs(ivs, i, r, skip, cut.hi - cut.lo + 1, size, count, flag);
  }

  lemma TurnUnfolded(iv: Interval, again: bool, r: Interval, count: nat, flag: bool)
    ensures var size, cut := BlockSpan(r).hi - BlockSpan(r).lo + 1, CutOf(iv, r);
      Turn(iv, again, r, count, flag) == Turned(Passed(iv, r) || again, cut.hi - cut.lo + 1, size, count, flag)
  {
  }

  /** What the turns over the intervals come to. */
  ghost function Turns(ivs: seq<Interval>, r: Interval): (nat, bool)
  {
    if ivs == [] then (0, false)
    else
      var (count, flag) := Turns(ivs[..|ivs| - 1], r);
      Turn(ivs[|ivs| - 1], Again(ivs, |ivs| - 1), r, count, flag)
  }

  lemma TurnsStep(ivs: seq<Interval>, r: Interval, i: nat)
    requires i < |ivs|
    ensures Turns(ivs[..i + 1], r) == Turn(ivs[i], Again(ivs, i), r, Turns(ivs[..i], r).0, Turns(ivs[..i], r).1)
  {
    assert ivs[..i + 1][..i] == ivs[..i];
  }

  lemma {:induction false} TurnsAre(ivs: seq<Interval>, r: Interval, n: nat)
    requires AllAligned(ivs) && r.lo <= r.hi && BlockAligned(r) && BlockSpan(r).hi - BlockSpan(r).lo + 1 < WRAP
    requires n <= |ivs| && (n > 0 ==> ivs[n - 1].lo <= r.hi)
    ensures Turns(ivs[..n], r) == (Measured(ivs[..n], r), FlagUpTo(ivs, r, n))
  {
    if n > 0 {
      TurnsAre(ivs, r, n - 1);
      TurnsStep(ivs, r, n - 1);
      TurnIs(ivs, n - 1, r, Turns(ivs[..n - 1], r).0, Turns(ivs[..n - 1], r).1);
    }
  }

  /** The loop of is_overlapping6, up to an interval that starts behind r. */
  method TakeTurns(list: Queue, r: Interval) returns (count: nat, moreSpecific: bool, ghost n: nat)
    requires list.Linked()
    ensures n <= |list.Ivs()| && (n < |list.Ivs()| ==> list.Ivs()[n].lo > r.hi)
    ensures n > 0 ==> list.Ivs()[n - 1].lo <= r.hi
    ensures (count, moreSpecific) == Turns(list.Ivs()[..n], r)
  {
    ghost var ivs := list.Ivs();
    count, moreSpecific, n := 0, false, 0;
    var current, previous := list.head, list.head;
    while current != null
      invariant n <= |ivs| && current == if n == |ivs| then null else list.links[n]
      invariant previous == if n == 0 then list.head else list.links[n - 1]
      invariant (count, moreSpecific) == Turns(ivs[..n], r) && (n > 0 ==> ivs[n - 1].lo <= r.hi)
      decreases |ivs| - n
    {
      list.LinkAt(n);
      var iv := Interval(current.start, current.end);
      if StartsAfter(iv, r) {
        break;
      }
      TurnsStep(ivs, r, n);
      var again := previous != current && BlockSpan(Interval(previous.start, previous.end)) == BlockSpan(iv);
      var turned := Turn(iv, again, r, count, moreSpecific);
      count, moreSpecific := turned.0, turned.1;
      previous, current, n := current, current.next, n + 1;
    }
  }

  /** Over aligned intervals the turns add up exactly, without a wrap-around. */
  method MeasureOverlap6(list: Queue, r: Interval) returns (count: nat, moreSpecific: bool)
    requires list.Linked() && AllAligned(list.Ivs()) && r.lo <= r.hi && BlockAligned(r)
    requires BlockSpan(r).hi - BlockSpan(r).lo + 1 < WRAP
    ensures count == Measured(list.Ivs(), r)
    ensures moreSpecific <==> FlagUpTo(list.Ivs(), r, |list.Ivs()|)
  {
    ghost var ivs := list.Ivs();
    ghost var n;
    count, moreSpecific, n := TakeTurns(list, r);
    TurnsAre(ivs, r, n);
    MeasuredEnds(ivs, r, n, |ivs|);
    assert ivs[..|ivs|] == ivs;
  }

  /** bgpstream_ip_counter_is_overlapping6: when the count is the number of /64 blocks shared, and
      what the flag says. */
  method IsOverlapping6(c: Counter, pfx: Prefix) returns (count: nat, moreSpecific: bool)
    requires c.Valid() && c.v == V6 && WellFormed(pfx) && pfx.version == V6 && pfx.maskLen >= 1
    ensures var r := Range(KeyOf(pfx), 128);
      && (count == |SharedBlocks(c.list.Ivs(), r)| <==> CountsRight(c.list.Ivs(), r))
      && (pfx.maskLen <= 64 ==> CountsRight(c.list.Ivs(), r))
    ensures pfx.maskLen < 64 ==> (moreSpecific <==> exists k :: k in c.added && k <= KeyOf(pfx))
    ensures pfx.maskLen >= 64 ==> (moreSpecific <==> count > 0)
  {
    var size := Pow2(128 - pfx.maskLen);
    var start := Masked(AddrValue(pfx.addr), size);
    MaskedRange(pfx);
    var r := Interval(start, start + (size - 1));
    count, moreSpecific := MeasureKey(c.list, r, c.added, KeyOf(pfx));
  }

  method MeasureKey(list: Queue, r: Interval, ghost added: set<Key>, ghost k: Key)
    returns (count: nat, moreSpecific: bool)
    requires list.Linked() && Canonical(list.Ivs(), added, 128) && 1 <= |k| <= 128 && r == Range(k, 128)
    ensures count == |SharedBlocks(list.Ivs(), r)| <==> CountsRight(list.Ivs(), r)
    ensures |k| <= 64 ==> CountsRight(list.Ivs(), r)
    ensures |k| < 64 ==> (moreSpecific <==> exists j :: j in added && j <= k)
    ensures |k| >= 64 ==> (moreSpecific <==> count > 0)
  {
    SixFacts(list.Ivs(), added, k);
    count, moreSpecific := MeasureOverlap6(list, r);
    SixMeans(list.Ivs(), added, k, r, count, moreSpecific);
  }

  /** What the loop comes to for the range of a prefix. */
  lemma SixMeans(ivs: seq<Interval>, added: set<Key>, k: Key, r: Interval, count: nat, moreSpecific: bool)
    requires Canonical(ivs, added, 128) && 1 <= |k| <= 128 && r == Range(k, 128)
    requires count == Measured(ivs, r) && (moreSpecific <==> FlagUpTo(ivs, r, |ivs|))
    ensures count == |SharedBlocks(ivs, r)| <==> CountsRight(ivs, r)
    ensures |k| <= 64 ==> CountsRight(ivs, r)
    ensures |k| < 64 ==> (moreSpecific <==> exists j :: j in added && j <= k)
    ensures |k| >= 64 ==> (moreSpecific <==> count > 0)
  {
    SixFacts(ivs, added, k);
    OverlapMeans(ivs, added, k);
  }

  lemma OverlapMeans(ivs: seq<Interval>, added: set<Key>, k: Key)
    requires Canonical(ivs, added, 128) && |k| <= 128
    requires AllAligned(ivs) && BlockAligned(Range(k, 128)) && Range(k, 128).lo <= Range(k, 128).hi
    ensures var r := Range(k, 128);
      && (Measured(ivs, r) == |SharedBlocks(ivs, r)| <==> CountsRight(ivs, r))
      && (!OneBlock(r) ==> (FlagUpTo(ivs, r, |ivs|) <==> exists j :: j in added && j <= k))
      && (OneBlock(r) ==> (FlagUpTo(ivs, r, |ivs|) <==> Measured(ivs, r) > 0))
  {
    CountsRightExactly(ivs, Range(k, 128));
    FlagMeans(ivs, Range(k, 128));
    ContainedIsCovered(ivs, added, 128, k);
  }

  lemma WholeRange(r: Interval, q: nat)
    requires BlockAligned(r) && q >= 1 && r.hi - r.lo + 1 == q * BLOCK
    ensures WholeBlocks(r) && BlockSpan(r).hi - BlockSpan(r).lo + 1 == q && (q >= 2 <==> !OneBlock(r))
  {
  }

  lemma PartRange(r: Interval)
    requires BlockAligned(r) && r.lo <= r.hi && r.hi - r.lo + 1 < BLOCK
    ensures OneBlock(r)
  {
  }

  /** How many addresses an IPv6 prefix of m bits has. */
  lemma SixSize(m: nat) returns (q: nat)
    requires 1 <= m <= 128
    ensures m <= 64 ==> Pow2(128 - m) == q * BLOCK && 1 <= q < WRAP && (m < 64 <==> q >= 2)
    ensures m > 64 ==> Pow2(128 - m) < BLOCK
  {
    Pow2At64();
    if m <= 64 {
      q := Pow2(64 - m);
      MultipleOfBlock(128 - m);
      Pow2Grows(64 - m, 64);
      if m < 64 {
        Pow2Grows(0, 64 - m);
      }
    } else {
      q := 0;
      Pow2Grows(128 - m, 64);
    }
  }

  /** The range of an IPv6 prefix: whole blocks up to 64 bits of mask, within a block from there. */
  lemma SixFacts(ivs: seq<Interval>, added: set<Key>, k: Key)
    requires Canonical(ivs, added, 128) && 1 <= |k| <= 128
    ensures AllAligned(ivs) && BlockAligned(Range(k, 128)) && Range(k, 128).lo <= Range(k, 128).hi
    ensures BlockSpan(Range(k, 128)).hi - BlockSpan(Range(k, 128)).lo + 1 < WRAP
    ensures (|k| <= 64 ==> WholeBlocks(Range(k, 128))) && (|k| < 64 <==> !OneBlock(Range(k, 128)))
  {
    CanonicalAligned(ivs, added, 128);
    RangeAligned(k, 128);
    RangeBound(k, 128);
    SpanOfSize(Range(k, 128), |k|);
  }

  lemma SpanOfSize(r: Interval, m: nat)
    requires 1 <= m <= 128 && BlockAligned(r) && r.lo <= r.hi && r.hi - r.lo + 1 == Pow2(128 - m)
    ensures BlockSpan(r).hi - BlockSpan(r).lo + 1 < WRAP
    ensures (m <= 64 ==> WholeBlocks(r)) && (m < 64 <==> !OneBlock(r))
  {
    var q := SixSize(m);
    if m <= 64 {
      WholeRange(r, q);
    } else {
      PartRange(r);
    }
  }
}
