/** Counting the /size blocks a tree touches (count_subnets): stopping at the first labelled
    node, or at a glue node already at least size deep, counts every touched block once. */
module TrieSubnets {
  import opened Prefixes
  import opened Trie
  import opened TrieSteps
  import opened TrieListing

  function Pow2(n: nat): (p: nat)
    ensures p >= 1
  {
    if n == 0 then 1 else 2 * Pow2(n - 1)
  }

  /** All /size blocks. */
  ghost function Blocks(size: nat): (bs: set<Key>)
    ensures forall b :: b in bs ==> |b| == size
  {
    if size == 0 then {[]}
    else (set b | b in Blocks(size - 1) :: b + [false]) + (set b | b in Blocks(size - 1) :: b + [true])
  }

  lemma {:induction false} EveryBlock(b: Key)
    ensures b in Blocks(|b|)
  {
    if b != [] {
      var init := b[..|b| - 1];
      EveryBlock(init);
      if b[|b| - 1] {
        assert b == init + [true];
      } else {
        assert b == init + [false];
      }
    }
  }

  /** Block b and prefix k have an address in common: one contains the other. */
  ghost predicate Meets(k: Key, b: Key)
  {
    k <= b || b <= k
  }

  /** The /size blocks that meet a stored prefix below n. */
  ghost function Touched(s: State, n: Node?, size: nat): set<Key>
    requires At(s, n)
  {
    set b | b in Blocks(size) && exists m {:trigger s.K[m]} ::
      m in s.K && InSubtree(s, n, m) && Real(s.M, m) && Meets(s.K[m], b)
  }

  lemma TouchedBy(s: State, n: Node?, m: Node, b: Key)
    requires At(s, n) && InSubtree(s, n, m) && Real(s.M, m) && Meets(s.K[m], b)
    ensures b in Touched(s, n, |b|)
  {
    EveryBlock(b);
  }

  ghost function Inside(k: Key, size: nat): set<Key>
  {
    set b | b in Blocks(size) && k <= b
  }

  /** The blocks inside k are those inside its two halves. */
  lemma InsideHalves(k: Key, size: nat)
    requires |k| < size
    ensures Inside(k, size) == Inside(k + [false], size) + Inside(k + [true], size)
    ensures Inside(k + [false], size) !! Inside(k + [true], size)
  {
    forall b | b in Blocks(size)
      ensures k + [false] <= b <==> k <= b && !b[|k|]
      ensures k + [true] <= b <==> k <= b && b[|k|]
    {
      HalfOf(k, false, b);
      HalfOf(k, true, b);
    }
  }

  lemma HalfOf(k: Key, x: bool, b: Key)
    requires |k| < |b|
    ensures k + [x] <= b <==> k <= b && b[|k|] == x
  {
    if k + [x] <= b {
      assert (k + [x])[..|k|] == k && (k + [x])[|k|] == x;
    }
    if k <= b && b[|k|] == x {
      assert k + [x] == b[..|k| + 1];
    }
  }

  lemma {:induction false} InsideCount(k: Key, size: nat)
    requires |k| <= size
    ensures |Inside(k, size)| == Pow2(size - |k|)
    decreases size - |k|
  {
    if |k| == size {
      EveryBlock(k);
      forall b | b in Inside(k, size) ensures b == k { assert |b| == |k|; }
      assert Inside(k, size) == {k};
    } else {
      InsideCount(k + [false], size);
      InsideCount(k + [true], size);
      InsideHalves(k, size);
    }
  }

  lemma AllBlocksCount(size: nat)
    ensures |Blocks(size)| == Pow2(size)
  {
    InsideCount([], size);
    assert Inside([], size) == Blocks(size);
  }

  /** Every subtree holds a labelled node. */
  lemma {:induction false} HasReal(v: Version, s: State, n: Node) returns (m: Node)
    requires Good(v, s) && n in s.K
    ensures InSubtree(s, n, m) && Real(s.M, m)
    decreases Room(v, s, n)
  {
    if Real(s.M, n) {
      m := n;
    } else {
      assert LabelledAt(v, s.M, s.K, n);
      Descent(v, s, n, false);
      m := HasReal(v, s, s.M[n].l);
      SubtreeSplit(v, s, n, m);
    }
  }

  /** A labelled node shorter than size touches just the blocks inside it. */
  lemma TouchedByShort(v: Version, s: State, n: Node, size: nat)
    requires Good(v, s) && n in s.K && Real(s.M, n) && |s.K[n]| < size
    ensures Touched(s, n, size) == Inside(s.K[n], size)
  {
    forall b | b in Inside(s.K[n], size)
      ensures b in Touched(s, n, size)
    {
      TouchedBy(s, n, n, b);
    }
    forall b | b in Touched(s, n, size)
      ensures s.K[n] <= b
    {
      var m :| m in s.K && InSubtree(s, n, m) && Real(s.M, m) && Meets(s.K[m], b);
    }
  }

  /** A node at least size deep touches one block. */
  lemma TouchedByDeep(v: Version, s: State, n: Node, size: nat)
    requires Good(v, s) && n in s.K && size <= |s.K[n]|
    ensures Touched(s, n, size) == {s.K[n][..size]}
  {
    var m := HasReal(v, s, n);
    var block := s.K[n][..size];
    assert block <= s.K[m];
    TouchedBy(s, n, m, block);
    forall b | b in Touched(s, n, size)
      ensures b == block
    {
      var x :| x in s.K && InSubtree(s, n, x) && Real(s.M, x) && Meets(s.K[x], b);
      assert b == s.K[x][..size] == block;
    }
  }

  lemma TouchedSide(v: Version, s: State, n: Node, side: bool, size: nat, b: Key)
    requires Good(v, s) && n in s.K && |s.K[n]| < size
    requires At(s, s.M[n].Child(side)) && b in Touched(s, s.M[n].Child(side), size)
    ensures b[|s.K[n]|] == side && b in Touched(s, n, size)
  {
    var c := s.M[n].Child(side);
    var m :| m in s.K && InSubtree(s, c, m) && Real(s.M, m) && Meets(s.K[m], b);
    SubtreeSplit(v, s, n, m);
    TouchedBy(s, n, m, b);
  }

  /** A glue node less than size deep touches what its two sides touch, and these differ. */
  lemma TouchedByGlue(v: Version, s: State, n: Node, size: nat)
    requires Good(v, s) && n in s.K && !Real(s.M, n) && |s.K[n]| < size
    ensures At(s, s.M[n].l) && At(s, s.M[n].r)
    ensures Touched(s, n, size) == Touched(s, s.M[n].l, size) + Touched(s, s.M[n].r, size)
    ensures Touched(s, s.M[n].l, size) !! Touched(s, s.M[n].r, size)
  {
    Descent(v, s, n, false);
    Descent(v, s, n, true);
    var l, r := s.M[n].l, s.M[n].r;
    forall b | b in Touched(s, l, size)
      ensures b[|s.K[n]|] == false && b in Touched(s, n, size)
    {
      TouchedSide(v, s, n, false, size, b);
    }
    forall b | b in Touched(s, r, size)
      ensures b[|s.K[n]|] == true && b in Touched(s, n, size)
    {
      TouchedSide(v, s, n, true, size, b);
    }
    forall b | b in Touched(s, n, size)
      ensures b in Touched(s, l, size) || b in Touched(s, r, size)
    {
      var m :| m in s.K && InSubtree(s, n, m) && Real(s.M, m) && Meets(s.K[m], b);
      SubtreeSplit(v, s, n, m);
      if InSubtree(s, l, m) {
        TouchedBy(s, l, m, b);
      } else {
        TouchedBy(s, r, m, b);
      }
    }
  }

  const WRAP: nat := 0x1_0000_0000_0000_0000

  /** count_subnets in 64-bit unsigned arithmetic. A prefix 64 bits shorter than the blocks
      yields UINT64_MAX; sums wrap. */
  ghost function CountSubnets(v: Version, s: State, n: Node?, size: nat): nat
    requires Good(v, s) && At(s, n) && size <= 64
    decreases Room(v, s, n)
  {
    if n == null then 0
    else
      Descent(v, s, n, false);
      Descent(v, s, n, true);
      if !Real(s.M, n) then
        if s.M[n].bit >= size then 1
        else (CountSubnets(v, s, s.M[n].l, size) + CountSubnets(v, s, s.M[n].r, size)) % WRAP
      else
        assert LabelledAt(v, s.M, s.K, n);
        if s.M[n].pfx.value.maskLen >= size then 1
        else
          var diff := size - s.M[n].pfx.value.maskLen;
          if diff == 64 then WRAP - 1 else Pow2(diff)
  }

  lemma {:induction false} Pow2Grows(a: nat, b: nat)
    requires a < b
    ensures 2 * Pow2(a) <= Pow2(b)
  {
    if a + 1 < b {
      Pow2Grows(a, b - 1);
    }
  }

  lemma Pow2At64()
    ensures Pow2(64) == WRAP
  {
    assert Pow2(8) == 0x100;
    assert Pow2(16) == 0x1_0000 by { assert Pow2(12) == 0x1000; }
    assert Pow2(24) == 0x100_0000 by { assert Pow2(20) == 0x10_0000; }
    assert Pow2(32) == 0x1_0000_0000 by { assert Pow2(28) == 0x1000_0000; }
    assert Pow2(40) == 0x100_0000_0000 by { assert Pow2(36) == 0x10_0000_0000; }
    assert Pow2(48) == 0x1_0000_0000_0000 by { assert Pow2(44) == 0x1000_0000_0000; }
    assert Pow2(56) == 0x100_0000_0000_0000 by { assert Pow2(52) == 0x10_0000_0000_0000; }
    assert Pow2(60) == 0x1000_0000_0000_0000;
  }

  /** The blocks inside a bit string in 64-bit numbers: all 2^64 only for the empty one. */
  lemma InsideBound(k: Key, size: nat)
    requires |k| < size <= 64
    ensures |Inside(k, size)| == Pow2(size - |k|) <= WRAP
    ensures size - |k| < 64 ==> 2 * |Inside(k, size)| <= WRAP
    ensures |Inside(k, size)| == WRAP <==> size - |k| == 64
  {
    Pow2At64();
    InsideCount(k, size);
    if size - |k| < 64 {
      Pow2Grows(size - |k|, 64);
    }
  }

  /** A node can touch no more blocks than lie inside its bit string. */
  lemma TouchedBound(v: Version, s: State, n: Node, size: nat)
    requires Good(v, s) && n in s.K && size <= 64
    ensures |Touched(s, n, size)| <= WRAP
    ensures |s.K[n]| > 0 ==> 2 * |Touched(s, n, size)| <= WRAP
  {
    if size <= |s.K[n]| {
      TouchedByDeep(v, s, n, size);
    } else {
      InsideBound(s.K[n], size);
      forall b | b in Touched(s, n, size)
        ensures s.K[n] <= b
      {
        var m :| m in s.K && InSubtree(s, n, m) && Real(s.M, m) && Meets(s.K[m], b);
      }
      Larger(Touched(s, n, size), Inside(s.K[n], size));
    }
  }

  /** A glue node's two sides, counted and touched. */
  lemma GlueCount(v: Version, s: State, n: Node, size: nat)
    requires Good(v, s) && n in s.K && !Real(s.M, n) && |s.K[n]| < size <= 64
    ensures At(s, s.M[n].l) && At(s, s.M[n].r)
    ensures CountSubnets(v, s, n, size)
      == (CountSubnets(v, s, s.M[n].l, size) + CountSubnets(v, s, s.M[n].r, size)) % WRAP
    ensures |Touched(s, n, size)| == |Touched(s, s.M[n].l, size)| + |Touched(s, s.M[n].r, size)|
    ensures 2 * |Touched(s, s.M[n].l, size)| <= WRAP && 2 * |Touched(s, s.M[n].r, size)| <= WRAP
  {
    Descent(v, s, n, false);
    Descent(v, s, n, true);
    assert LabelledAt(v, s.M, s.K, n);
    TouchedByGlue(v, s, n, size);
    TouchedBound(v, s, s.M[n].l, size);
    TouchedBound(v, s, s.M[n].r, size);
  }

  /** A labelled node, or one at least size deep. */
  lemma StopCount(v: Version, s: State, n: Node, size: nat)
    requires Good(v, s) && n in s.K && size <= 64 && (Real(s.M, n) || size <= |s.K[n]|)
    ensures |Touched(s, n, size)| <= WRAP
    ensures |Touched(s, n, size)| == WRAP ==> Real(s.M, n) && s.K[n] == []
    ensures CountSubnets(v, s, n, size) == if |Touched(s, n, size)| == WRAP then WRAP - 1 else |Touched(s, n, size)|
  {
    StopAnswer(v, s, n, size);
    if size <= |s.K[n]| {
      TouchedByDeep(v, s, n, size);
    } else {
      StopTouched(v, s, n, size);
    }
  }

  lemma StopTouched(v: Version, s: State, n: Node, size: nat)
    requires Good(v, s) && n in s.K && Real(s.M, n) && |s.K[n]| < size <= 64
    ensures |Touched(s, n, size)| == Pow2(size - |s.K[n]|) <= WRAP
    ensures |Touched(s, n, size)| == WRAP <==> size - |s.K[n]| == 64
  {
    TouchedByShort(v, s, n, size);
    InsideBound(s.K[n], size);
  }

  lemma StopAnswer(v: Version, s: State, n: Node, size: nat)
    requires Good(v, s) && n in s.K && size <= 64 && (Real(s.M, n) || size <= |s.K[n]|)
    ensures CountSubnets(v, s, n, size) == if size <= |s.K[n]| then 1
      else if size - |s.K[n]| == 64 then WRAP - 1 else Pow2(size - |s.K[n]|)
  {
    assert LabelledAt(v, s.M, s.K, n);
    Descent(v, s, n, false);
    Descent(v, s, n, true);
  }

  /** What count_subnets answers when c blocks are touched. */
  ghost function Answer(c: nat, whole: bool): nat
  {
    if c < WRAP then c else if whole then WRAP - 1 else 0
  }

  lemma HalvesAdd(a: nat, b: nat, l: nat, r: nat, wholeA: bool, wholeB: bool)
    requires 2 * a <= WRAP && 2 * b <= WRAP && l == Answer(a, wholeA) && r == Answer(b, wholeB)
    ensures (l + r) % WRAP == Answer(a + b, false)
  {
  }

  /** The count is the number of distinct blocks touched, unless all 2^64 are; then the code
      answers 2^64 - 1 when the node itself is the zero-length prefix and 0 otherwise. */
  lemma {:induction false} CountIsTouched(v: Version, s: State, n: Node?, size: nat)
    requires Good(v, s) && At(s, n) && size <= 64
    ensures |Touched(s, n, size)| <= WRAP
    ensures CountSubnets(v, s, n, size) == Answer(|Touched(s, n, size)|, n != null && Real(s.M, n))
    decreases Room(v, s, n)
  {
    if n == null {
      assert Touched(s, n, size) == {};
    } else if Real(s.M, n) || size <= |s.K[n]| {
      StopCount(v, s, n, size);
    } else {
      Descent(v, s, n, false);
      Descent(v, s, n, true);
      CountIsTouched(v, s, s.M[n].l, size);
      CountIsTouched(v, s, s.M[n].r, size);
      SidesCounted(v, s, n, size);
    }
  }

  ghost predicate CountedRight(v: Version, s: State, n: Node?, size: nat)
    requires Good(v, s) && At(s, n) && size <= 64
  {
    CountSubnets(v, s, n, size) == Answer(|Touched(s, n, size)|, n != null && Real(s.M, n))
  }

  lemma SidesCounted(v: Version, s: State, n: Node, size: nat)
    requires Good(v, s) && n in s.K && !Real(s.M, n) && |s.K[n]| < size <= 64
    requires At(s, s.M[n].l) && At(s, s.M[n].r)
    requires CountedRight(v, s, s.M[n].l, size) && CountedRight(v, s, s.M[n].r, size)
    ensures |Touched(s, n, size)| <= WRAP && CountedRight(v, s, n, size)
  {
    GlueCount(v, s, n, size);
    var l, r := s.M[n].l, s.M[n].r;
    assert |Touched(s, n, size)| == |Touched(s, l, size)| + |Touched(s, r, size)| <= WRAP;
    HalvesAdd(|Touched(s, l, size)|, |Touched(s, r, size)|, CountSubnets(v, s, l, size), CountSubnets(v, s, r, size),
      l != null && Real(s.M, l), r != null && Real(s.M, r));
  }
}
