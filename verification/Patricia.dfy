/** The patricia tree: nodes with child and parent links updated in place. Every method is
    proved against the steps of TrieSteps on a snapshot of the nodes. */
module Patricia {
  import opened Wrappers
  import opened Prefixes
  import opened Trie
  import opened TrieInsertion
  import opened TrieRemoval
  import opened TrieStored
  import opened TrieSteps

  const MAXBITS: nat := 128

  /** The descent took the side of `a` at every node above t. */
  ghost predicate OnPath(K: Keys, t: Node, a: Key)
  {
    t in K && |K[t]| <= |a| &&
    forall n {:trigger K[n]} :: n in K && K[n] <= K[t] && n != t && |K[n]| < |K[t]| ==> K[t][|K[n]|] == a[|K[n]|]
  }

  lemma StepDown(v: Version, M: Heap, K: Keys, h: Node?, t: Node, b: bool, c: Node, a: Key)
    requires Shaped(v, M, K, h) && OnPath(K, t, a) && |a| == Width(v)
    requires |K[t]| < |a| && a[|K[t]|] == b && M[t].Child(b) == c
    ensures c in K && |K[t]| < |K[c]| && OnPath(K, c, a)
  {
    assert LinkedAt(M, K, t, b);
    forall n | n in K && K[n] <= K[c] && |K[n]| < |K[c]|
      ensures K[c][|K[n]|] == a[|K[n]|]
    {
      assert CompleteAt(M, K, t, b, n);
    }
  }

  /** Walk down along the bits of addr until a labelled node at least bitlen deep, or until
      there is no child on that side. */
  method Descend(ghost v: Version, ghost K: Keys, head: Node, addr: seq<bv8>, bitlen: nat) returns (node: Node)
    requires Ok(v, Snapshot(K.Keys), K, head)
    requires 8 * |addr| == Width(v) <= MAXBITS && bitlen <= Width(v)
    ensures OnPath(K, node, Bits(addr)) && Real(Snapshot(K.Keys), node)
    ensures node.bit < bitlen ==> (if Bits(addr)[node.bit] then node.r else node.l) == null
  {
    ghost var M := Snapshot(K.Keys);
    node := head;
    while node.bit < bitlen || node.prefix.version == Unknown
      invariant OnPath(K, node, Bits(addr))
      decreases Width(v) - node.bit
    {
      assert LabelledAt(v, M, K, node);
      assert LinkedAt(M, K, node, false) && LinkedAt(M, K, node, true);
      if node.bit < MAXBITS && AddrBit(addr, node.bit) {
        if node.r == null {
          break;
        }
        StepDown(v, M, K, head, node, true, node.r, Bits(addr));
        node := node.r;
      } else {
        if node.l == null {
          break;
        }
        StepDown(v, M, K, head, node, false, node.l, Bits(addr));
        node := node.l;
      }
    }
  }

  /** Climb while the parent is at least differBit deep. */
  method Climb(ghost v: Version, ghost K: Keys, ghost head: Node, start: Node, differBit: nat) returns (node: Node)
    requires Ok(v, Snapshot(K.Keys), K, head) && start in K && differBit <= start.bit
    ensures node in K && K[node] <= K[start] && differBit <= node.bit
    ensures node.parent != null ==> node.parent in K && node.parent.bit < differBit
  {
    ghost var M := Snapshot(K.Keys);
    node := start;
    OnItsSide(v, M, K, head, node);
    var parent := node.parent;
    while parent != null && parent.bit >= differBit
      invariant node in K && parent == node.parent && K[node] <= K[start] && differBit <= node.bit
      invariant parent != null ==> parent in K && Below(K[parent], parent.r == node, K[node])
      decreases node.bit
    {
      node := parent;
      OnItsSide(v, M, K, head, node);
      parent := node.parent;
    }
  }

  // ---------- search_exact ----------

  /** Whoever holds the key a[..bitlen] is still below (or at) node. */
  ghost predicate TargetBelow(K: Keys, node: Node, a: Key, bitlen: nat)
    requires bitlen <= |a|
  {
    node in K && forall m {:trigger K[m]} :: m in K && K[m] == a[..bitlen] ==> K[node] <= K[m]
  }

  lemma TargetStep(v: Version, M: Heap, K: Keys, h: Node?, node: Node, a: Key, bitlen: nat)
    requires Shaped(v, M, K, h) && bitlen <= |a| && TargetBelow(K, node, a, bitlen) && |K[node]| < bitlen
    ensures var c := M[node].Child(a[|K[node]|]);
      if c == null then a[..bitlen] !in K.Values
      else c in K && |K[node]| < |K[c]| && TargetBelow(K, c, a, bitlen)
  {
    var b := a[|K[node]|];
    assert LinkedAt(M, K, node, b);
    forall m | m in K && K[m] == a[..bitlen]
      ensures M[node].Child(b) != null && M[node].Child(b) in K && K[M[node].Child(b)] <= K[m]
    {
      assert CompleteAt(M, K, node, b, m);
    }
  }

  method FindExact(ghost v: Version, ghost K: Keys, head: Node?, pfx: Prefix) returns (node: Node?)
    requires Ok(v, Snapshot(K.Keys), K, head) && WellFormed(pfx) && pfx.version == v
    ensures node != null <==> KeyOf(pfx) in Stored(Snapshot(K.Keys), K)
    ensures node != null ==> node in K && K[node] == KeyOf(pfx) && Real(Snapshot(K.Keys), node)
  {
    ghost var M, a := Snapshot(K.Keys), Bits(pfx.addr);
    var bitlen := pfx.maskLen;
    node := head;
    if node == null {
      return;
    }
    while node.bit < bitlen
      invariant node != null && TargetBelow(K, node, a, bitlen)
      decreases Width(v) - node.bit
    {
      TargetStep(v, M, K, head, node, a, bitlen);
      if AddrBit(pfx.addr, node.bit) {
        node := node.r;
      } else {
        node := node.l;
      }
      if node == null {
        return;
      }
    }
    assert LabelledAt(v, M, K, node);
    if node.bit > bitlen || node.prefix.version == Unknown {
      node := null;
      return;
    }
    CompWithMaskIsBitwise(node.prefix.addr, pfx.addr, bitlen);
    if !CompWithMask(node.prefix.addr, pfx.addr, bitlen) {
      node := null;
    }
  }

  // ---------- choosing the placement ----------

  /** What is known once the descent stopped at t, the first difference d was found and the
      climb stopped at n. a holds the bits of the new address. */
  ghost predicate Stopped(v: Version, s: State, t: Node, n: Node, a: Key, bitlen: nat, d: nat)
  {
    && Ok(v, s.M, s.K, s.h) && OnPath(s.K, t, a) && |a| == Width(v) && bitlen <= |a|
    && (|s.K[t]| < bitlen ==> s.M[t].Child(a[|s.K[t]|]) == null)
    && d <= |s.K[t]| && d <= bitlen && a[..d] == s.K[t][..d]
    && (d < |s.K[t]| && d < bitlen ==> a[d] != s.K[t][d])
    && n in s.K && s.K[n] <= s.K[t] && d <= |s.K[n]|
    && (s.M[n].parent != null ==> s.M[n].parent in s.K && |s.K[s.M[n].parent]| < d)
  }

  lemma SamePlace(v: Version, s: State, t: Node, n: Node, a: Key, bitlen: nat, d: nat)
    requires Stopped(v, s, t, n, a, bitlen, d) && d == bitlen == |s.K[n]|
    ensures s.K[n] == a[..bitlen]
  {
    assert s.K[n] == s.K[t][..d];
  }

  lemma PrefixThenBit(a: Key, d: nat, b: bool, c: Key)
    requires d < |c| && d <= |a| && a[..d] == c[..d] && c[d] == b
    ensures Below(a[..d], b, c)
  {
  }

  /** The slot insert asserts to be empty is empty. */
  lemma ChildPlace(v: Version, s: State, t: Node, n: Node, a: Key, bitlen: nat, d: nat)
    requires Stopped(v, s, t, n, a, bitlen, d) && |s.K[n]| == d && d != bitlen
    ensures d < bitlen && s.M[n].Child(a[d]) == null && Below(s.K[n], a[d], a[..bitlen])
  {
    assert n == t;
    assert s.K[t][..d] == s.K[t];
    assert a[..bitlen][..d] == a[..d];
  }

  lemma ParentPlace(v: Version, s: State, t: Node, n: Node, a: Key, bitlen: nat, d: nat)
    requires Stopped(v, s, t, n, a, bitlen, d) && d == bitlen < |s.K[n]|
    ensures Below(a[..bitlen], s.K[t][bitlen], s.K[n])
  {
    assert s.K[n][..d] == s.K[t][..d];
    PrefixThenBit(a, d, s.K[t][d], s.K[n]);
  }

  lemma GluePlace(v: Version, s: State, t: Node, n: Node, a: Key, bitlen: nat, d: nat)
    requires Stopped(v, s, t, n, a, bitlen, d) && d < bitlen && d < |s.K[n]|
    ensures Below(a[..d], !a[d], s.K[n]) && Below(a[..d], a[d], a[..bitlen])
  {
    assert s.K[n][..d] == s.K[t][..d];
    PrefixThenBit(a, d, !a[d], s.K[n]);
    PrefixThenBit(a, d, a[d], a[..bitlen]);
  }

  // ---------- the four placements, in place ----------

  lemma SnapshotAdd(S: set<Node>, x: Node)
    ensures Snapshot(S + {x}) == Snapshot(S)[x := x.View()]
  {
  }

  method LinkChild(ghost K: Keys, n: Node, addr: seq<bv8>, pfx: Prefix) returns (node: Node)
    requires n in K && n.bit < 8 * |addr| <= MAXBITS && pfx.version != Unknown
    modifies n
    ensures fresh(node)
    ensures Snapshot(K.Keys + {node})
      == InsertBelow(old(Snapshot(K.Keys)), n, Bits(addr)[old(n.bit)], node, pfx.maskLen, Some(Created(pfx)))
  {
    node := new Node.FromPrefix(pfx);
    node.parent := n;
    if n.bit < MAXBITS && AddrBit(addr, n.bit) {
      n.r := node;
    } else {
      n.l := node;
    }
  }

  /** Whatever held n holds x instead; n itself is left alone. */
  method Unhook(ghost K: Keys, n: Node, x: Node?)
    requires n in K && n.parent != n && (n.parent != null ==> n.parent in K)
    modifies n.parent
    ensures Snapshot(K.Keys) == Redirect(old(Snapshot(K.Keys)), n.parent, n, x)
    ensures n.parent == old(n.parent)
  {
    if n.parent != null {
      if n.parent.r == n {
        n.parent.r := x;
      } else {
        n.parent.l := x;
      }
    }
  }

  method SetParent(ghost K: Keys, n: Node, p: Node?)
    requires n in K
    modifies n
    ensures Snapshot(K.Keys) == old(Snapshot(K.Keys))[n := old(Snapshot(K.Keys))[n].(parent := p)]
  {
    n.parent := p;
  }

  /** x comes between n and whatever held it. */
  method Repoint(ghost K: Keys, n: Node, x: Node)
    requires n in K && n.parent != n && (n.parent != null ==> n.parent in K)
    modifies n, n.parent
    ensures Snapshot(K.Keys)
      == Redirect(old(Snapshot(K.Keys)), old(n.parent), n, x)[n := old(Snapshot(K.Keys))[n].(parent := x)]
  {
    Unhook(K, n, x);
    SetParent(K, n, x);
  }

  method LinkParent(ghost K: Keys, n: Node, side: bool, pfx: Prefix) returns (node: Node)
    requires n in K && n.parent != n && (n.parent != null ==> n.parent in K) && pfx.version != Unknown
    modifies n, n.parent
    ensures fresh(node)
    ensures Snapshot(K.Keys + {node})
      == InsertAbove(old(Snapshot(K.Keys)), n, side, node, pfx.maskLen, Some(Created(pfx)))
  {
    node := new Node.FromPrefix(pfx);
    if side {
      node.r := n;
    } else {
      node.l := n;
    }
    node.parent := n.parent;
    assert Snapshot(K.Keys) == old(Snapshot(K.Keys));
    Repoint(K, n, node);
    SnapshotAdd(K.Keys, node);
  }

  lemma GlueAsTwoSteps(M: Heap, n: Node, b: bool, g: Node, d: nat, x: Node, bit: nat, p: Prefix)
    requires n in M && M[n].parent != n && (M[n].parent != null ==> M[n].parent in M)
    requires g !in M && x !in M && x != g
    ensures var up := M[n].parent;
      InsertGlue(M, n, b, g, d, x, bit, p)
      == Redirect(M, up, n, g)[n := M[n].(parent := g)]
           [g := Cell(d, None, null, null, up).WithChild(b, n).WithChild(!b, x)][x := Cell(bit, Some(p), null, null, g)]
  {
  }

  /** The new node and its glue node, not yet linked from above. */
  method GluePair(n: Node, side: bool, differBit: nat, pfx: Prefix) returns (node: Node, glue: Node)
    requires pfx.version != Unknown
    ensures fresh(node) && fresh(glue) && node != glue
    ensures glue.View() == Cell(differBit, None, null, null, n.parent).WithChild(!side, n).WithChild(side, node)
    ensures node.View() == Cell(pfx.maskLen, Some(Created(pfx)), null, null, glue)
  {
    node := new Node.FromPrefix(pfx);
    glue := new Node.Glue();
    glue.bit := differBit;
    glue.parent := n.parent;
    if side {
      glue.r := node;
      glue.l := n;
    } else {
      glue.r := n;
      glue.l := node;
    }
    node.parent := glue;
  }

  method LinkGlue(ghost K: Keys, n: Node, side: bool, differBit: nat, pfx: Prefix) returns (node: Node, glue: Node)
    requires n in K && n.parent != n && (n.parent != null ==> n.parent in K) && pfx.version != Unknown
    modifies n, n.parent
    ensures fresh(node) && fresh(glue) && node != glue
    ensures Snapshot(K.Keys + {glue} + {node})
      == InsertGlue(old(Snapshot(K.Keys)), n, !side, glue, differBit, node, pfx.maskLen, Created(pfx))
  {
    node, glue := GluePair(n, side, differBit, pfx);
    assert Snapshot(K.Keys) == old(Snapshot(K.Keys));
    ghost var M, a, b := Snapshot(K.Keys), glue.View(), node.View();
    Repoint(K, n, glue);
    assert glue.View() == a && node.View() == b;
    SnapshotAdd(K.Keys, glue);
    SnapshotAdd(K.Keys + {glue}, node);
    GlueAsTwoSteps(M, n, !side, glue, differBit, node, pfx.maskLen, Created(pfx));
  }

  ghost predicate IsInsert(v: Version, s: State, how: Placement, node: Node, pfx: Prefix, t: State)
  {
    WellFormed(pfx) && Possible(v, s, how, node, pfx) && t == Place(v, s, how, node, pfx)
  }

  /** A labelled node's key is the front of its own address. */
  lemma KeyInAddress(v: Version, M: Heap, K: Keys, n: Node)
    requires Keyed(v, M, K) && n in K && LabelledAt(v, M, K, n) && Real(M, n)
    ensures M[n].bit <= 8 * |M[n].pfx.value.addr| == Width(v)
    ensures K[n] == Bits(M[n].pfx.value.addr)[..M[n].bit]
  {
    assert |K[n]| == M[n].pfx.value.maskLen;
  }

  /** A first difference between two addresses is one between an address and a front of the other. */
  lemma DifferenceInFront(a: Key, b: Key, bit: nat, d: nat)
    requires d <= bit <= |b| && d <= |a| && a[..d] == b[..d]
    ensures a[..d] == b[..bit][..d] && (d < bit ==> b[..bit][d] == b[d])
  {
  }

  /** The labelled node the descent stops at, and where the new address first differs from its key. */
  method Compare(ghost v: Version, ghost K: Keys, head: Node, pfx: Prefix) returns (stop: Node, differBit: nat)
    requires Ok(v, Snapshot(K.Keys), K, head) && WellFormed(pfx) && pfx.version == v
    ensures OnPath(K, stop, Bits(pfx.addr)) && Real(Snapshot(K.Keys), stop) && |stop.prefix.addr| == |pfx.addr|
    ensures stop.bit < pfx.maskLen ==> (if Bits(pfx.addr)[stop.bit] then stop.r else stop.l) == null
    ensures K[stop] == Bits(stop.prefix.addr)[..stop.bit]
    ensures differBit <= stop.bit && differBit <= pfx.maskLen
    ensures Bits(pfx.addr)[..differBit] == K[stop][..differBit]
    ensures differBit < stop.bit && differBit < pfx.maskLen ==> Bits(pfx.addr)[differBit] != K[stop][differBit]
  {
    stop := Descend(v, K, head, pfx.addr, pfx.maskLen);
    assert Snapshot(K.Keys)[stop] == stop.View() && LabelledAt(v, Snapshot(K.Keys), K, stop);
    KeyInAddress(v, Snapshot(K.Keys), K, stop);
    var checkBit := if stop.bit < pfx.maskLen then stop.bit else pfx.maskLen;
    differBit := FirstDifference(pfx.addr, stop.prefix.addr, checkBit);
    DifferenceInFront(Bits(pfx.addr), Bits(stop.prefix.addr), stop.bit, differBit);
  }

  /** Descend, compare, climb: the node to insert at, and what is known there. */
  method Locate(ghost v: Version, ghost K: Keys, head: Node, pfx: Prefix) returns (stop: Node, n: Node, differBit: nat)
    requires Ok(v, Snapshot(K.Keys), K, head) && WellFormed(pfx) && pfx.version == v
    ensures Stopped(v, State(Snapshot(K.Keys), K, head), stop, n, Bits(pfx.addr), pfx.maskLen, differBit)
    ensures Real(Snapshot(K.Keys), stop) && |stop.prefix.addr| == |pfx.addr|
    ensures K[stop] == Bits(stop.prefix.addr)[..stop.bit]
  {
    stop, differBit := Compare(v, K, head, pfx);
    n := Climb(v, K, head, stop, differBit);
  }

  method PutChild(ghost v: Version, ghost K: Keys, ghost head: Node, ghost stop: Node, n: Node, pfx: Prefix,
      differBit: nat)
    returns (node: Node, ghost how: Placement)
    requires WellFormed(pfx) && pfx.version == v
    requires Stopped(v, State(Snapshot(K.Keys), K, head), stop, n, Bits(pfx.addr), pfx.maskLen, differBit)
    requires n.bit == differBit != pfx.maskLen
    modifies n
    ensures fresh(node) && !how.Present?
    ensures var K' := K[node := KeyOf(pfx)];
      IsInsert(v, State(old(Snapshot(K.Keys)), K, head), how, node, pfx, State(Snapshot(K'.Keys), K', head))
  {
    ghost var s := State(Snapshot(K.Keys), K, head);
    ChildPlace(v, s, stop, n, Bits(pfx.addr), pfx.maskLen, differBit);
    node := LinkChild(K, n, pfx.addr, pfx);
    how := AsChild(n, Bits(pfx.addr)[differBit]);
    assert K[node := KeyOf(pfx)].Keys == K.Keys + {node};
  }

  method PutParent(ghost v: Version, ghost K: Keys, head: Node, stop: Node, n: Node, pfx: Prefix)
    returns (node: Node, newHead: Node, ghost how: Placement)
    requires WellFormed(pfx) && pfx.version == v
    requires Stopped(v, State(Snapshot(K.Keys), K, head), stop, n, Bits(pfx.addr), pfx.maskLen, pfx.maskLen)
    requires |stop.prefix.addr| == |pfx.addr| && K[stop] == Bits(stop.prefix.addr)[..stop.bit]
    requires n.bit > pfx.maskLen
    modifies K.Keys
    ensures fresh(node) && !how.Present?
    ensures var K' := K[node := KeyOf(pfx)];
      IsInsert(v, State(old(Snapshot(K.Keys)), K, head), how, node, pfx, State(Snapshot(K'.Keys), K', newHead))
  {
    ghost var s := State(Snapshot(K.Keys), K, head);
    ParentPlace(v, s, stop, n, Bits(pfx.addr), pfx.maskLen, pfx.maskLen);
    OnItsSide(v, s.M, K, head, n);
    var side := pfx.maskLen < MAXBITS && AddrBit(stop.prefix.addr, pfx.maskLen);
    var atRoot := n.parent == null;
    node := LinkParent(K, n, side, pfx);
    newHead := if atRoot then node else head;
    how := AsParent(n, side);
    assert K[node := KeyOf(pfx)].Keys == K.Keys + {node};
  }

  method PutGlue(ghost v: Version, ghost K: Keys, head: Node, ghost stop: Node, n: Node, pfx: Prefix, differBit: nat)
    returns (node: Node, newHead: Node, ghost K': Keys, ghost how: Placement)
    requires WellFormed(pfx) && pfx.version == v
    requires Stopped(v, State(Snapshot(K.Keys), K, head), stop, n, Bits(pfx.addr), pfx.maskLen, differBit)
    requires differBit < n.bit && differBit < pfx.maskLen
    modifies K.Keys
    ensures K.Keys <= K'.Keys && fresh(K'.Keys - K.Keys) && !how.Present?
    ensures IsInsert(v, State(old(Snapshot(K.Keys)), K, head), how, node, pfx, State(Snapshot(K'.Keys), K', newHead))
  {
    ghost var s, a := State(Snapshot(K.Keys), K, head), Bits(pfx.addr);
    GluePlace(v, s, stop, n, a, pfx.maskLen, differBit);
    OnItsSide(v, s.M, K, head, n);
    var side := differBit < MAXBITS && AddrBit(pfx.addr, differBit);
    var atRoot := n.parent == null;
    var glue;
    node, glue := LinkGlue(K, n, side, differBit, pfx);
    newHead := if atRoot then glue else head;
    assert CanSplice(v, s.M, K, head, n, !side, glue, a[..differBit]);
    K', how := GlueKeys(K, glue, a[..differBit], node, KeyOf(pfx)), UnderNewGlue(n, !side, glue, a[..differBit]);
    GlueFits(v, s, n, side, glue, a[..differBit], node, pfx);
  }

  ghost function GlueKeys(K: Keys, g: Node, f: Key, x: Node, k: Key): (K': Keys)
    ensures K'.Keys == K.Keys + {g} + {x}
  {
    K[g := f][x := k]
  }

  lemma GlueFits(v: Version, s: State, n: Node, side: bool, g: Node, f: Key, x: Node, pfx: Prefix)
    requires WellFormed(pfx) && pfx.version == v && CanSplice(v, s.M, s.K, s.h, n, !side, g, f) && Ok(v, s.M, s.K, s.h)
    requires x !in s.K && x != g && Below(f, side, KeyOf(pfx))
    ensures var how := UnderNewGlue(n, !side, g, f);
      && s.M[n].parent != n && (s.M[n].parent != null ==> s.M[n].parent in s.M)
      && IsInsert(v, s, how, x, pfx,
           State(InsertGlue(s.M, n, !side, g, |f|, x, pfx.maskLen, Created(pfx)), GlueKeys(s.K, g, f, x, KeyOf(pfx)),
             if s.M[n].parent == null then g else s.h))
  {
    OnItsSide(v, s.M, s.K, s.h, n);
  }

  method SetPrefix(ghost K: Keys, n: Node, pfx: Prefix)
    requires n in K && pfx.version != Unknown
    modifies n
    ensures Snapshot(K.Keys) == Relabel(old(Snapshot(K.Keys)), n, pfx)
  {
    n.prefix := pfx;
  }

  /** A glue node takes the whole prefix, allowed_matches included. */
  method PutLabel(ghost v: Version, ghost K: Keys, ghost head: Node, n: Node, pfx: Prefix)
    requires Ok(v, Snapshot(K.Keys), K, head) && WellFormed(pfx) && pfx.version == v
    requires n in K && K[n] == KeyOf(pfx) && n.prefix.version == Unknown
    modifies n
    ensures IsInsert(v, State(old(Snapshot(K.Keys)), K, head), GlueMod, n, pfx, State(Snapshot(K.Keys), K, head))
  {
    SetPrefix(K, n, pfx);
  }

  /** bgpstream_patricia_tree_insert on an empty tree. */
  method PlantFirst(ghost v: Version, ghost K: Keys, pfx: Prefix)
    returns (node: Node, ghost K': Keys, ghost how: Placement)
    requires Ok(v, Snapshot(K.Keys), K, null) && WellFormed(pfx) && pfx.version == v
    ensures K.Keys <= K'.Keys && fresh(K'.Keys - K.Keys) && !how.Present?
    ensures IsInsert(v, State(old(Snapshot(K.Keys)), K, null), how, node, pfx, State(Snapshot(K'.Keys), K', node))
  {
    node := new Node.FromPrefix(pfx);
    how, K' := First, map[node := KeyOf(pfx)];
    assert K == map[];
  }

  /** bgpstream_patricia_tree_insert on a tree that is not empty. */
  method InsertInto(ghost v: Version, ghost K: Keys, head: Node, pfx: Prefix)
    returns (node: Node, newHead: Node, isNew: bool, ghost K': Keys, ghost how: Placement)
    requires Ok(v, Snapshot(K.Keys), K, head) && WellFormed(pfx) && pfx.version == v
    modifies K.Keys
    ensures K.Keys <= K'.Keys && fresh(K'.Keys - K.Keys)
    ensures IsInsert(v, State(old(Snapshot(K.Keys)), K, head), how, node, pfx, State(Snapshot(K'.Keys), K', newHead))
    ensures isNew <==> !how.Present?
  {
    var stop, n, differBit := Locate(v, K, head, pfx);
    ghost var s := State(Snapshot(K.Keys), K, head);
    K', newHead, isNew := K, head, true;
    if differBit == pfx.maskLen && n.bit == pfx.maskLen {
      SamePlace(v, s, stop, n, Bits(pfx.addr), pfx.maskLen, differBit);
      node := n;
      if n.prefix.version != Unknown {
        isNew, how := false, Present;
      } else {
        PutLabel(v, K, head, n, pfx);
        how := GlueMod;
      }
    } else if n.bit == differBit {
      node, how := PutChild(v, K, head, stop, n, pfx, differBit);
      K' := K[node := KeyOf(pfx)];
    } else if pfx.maskLen == differBit {
      node, newHead, how := PutParent(v, K, head, stop, n, pfx);
      K' := K[node := KeyOf(pfx)];
    } else {
      node, newHead, K', how := PutGlue(v, K, head, stop, n, pfx, differBit);
    }
  }

  // ---------- remove_node ----------

  lemma SnapshotDrop(S: set<Node>, x: Node)
    ensures Snapshot(S - {x}) == Snapshot(S) - {x}
  {
  }

  method Lift(ghost K: Keys, n: Node, c: Node)
    requires n in K && n.parent != n && (n.parent != null ==> n.parent in K)
    requires c in K && c != n && c != n.parent
    modifies n.parent, c
    ensures n.parent == old(n.parent)
    ensures Snapshot(K.Keys)
      == Redirect(old(Snapshot(K.Keys)), n.parent, n, c)[c := old(Snapshot(K.Keys))[c].(parent := n.parent)]
  {
    Unhook(K, n, c);
    SetParent(K, c, n.parent);
  }

  /** The one child c of n takes its place. */
  method Bypass(ghost v: Version, ghost K: Keys, ghost h: Node?, n: Node, ghost b: bool, c: Node)
    requires Shaped(v, Snapshot(K.Keys), K, h) && Unary(v, Snapshot(K.Keys), K, h, n, b, c)
    modifies K.Keys
    ensures n.parent == old(n.parent) != c && c in K && (n.parent != null ==> n.parent in K)
    ensures Snapshot((K - {n}).Keys) == RemoveUnary(old(Snapshot(K.Keys)), n, c)
  {
    ghost var M := Snapshot(K.Keys);
    OnlyChild(v, M, K, h, n, b, c);
    Lift(K, n, c);
    SnapshotDrop(K.Keys, n);
    assert (K - {n}).Keys == K.Keys - {n};
  }

  /** A childless node goes. */
  method Prune(ghost v: Version, ghost K: Keys, ghost h: Node?, n: Node)
    requires Leaf(v, Snapshot(K.Keys), K, h, n)
    modifies K.Keys
    ensures n.parent == old(n.parent) && (n.parent != null ==> n.parent in K)
    ensures Snapshot((K - {n}).Keys) == RemoveLeaf(old(Snapshot(K.Keys)), n)
  {
    OnItsSide(v, Snapshot(K.Keys), K, h, n);
    Unhook(K, n, null);
    SnapshotDrop(K.Keys, n);
    assert (K - {n}).Keys == K.Keys - {n};
  }

  /** A node with both children stays as glue. */
  method BecomeGlue(ghost K: Keys, node: Node)
    requires node in K
    modifies node
    ensures node.l == old(node.l) && node.r == old(node.r)
    ensures Snapshot(K.Keys) == Unlabel(old(Snapshot(K.Keys)), node)
  {
    node.prefix := node.prefix.(version := Unknown);
  }

  /** bgpstream_patricia_tree_remove_node on a labelled node. `counted` says whether the code
      reaches the decrement of the active-node counter: it returns before it when the node has
      both children. */
  method RemoveFrom(ghost v: Version, ghost K: Keys, head: Node, node: Node)
    returns (newHead: Node?, counted: bool, ghost K': Keys)
    requires Ok(v, Snapshot(K.Keys), K, head) && node in K && Real(Snapshot(K.Keys), node)
    modifies K.Keys
    ensures K'.Keys <= K.Keys
    ensures State(Snapshot(K'.Keys), K', newHead) == Remove(v, State(old(Snapshot(K.Keys)), K, head), node)
    ensures counted <==> !(old(node.l) != null && old(node.r) != null)
  {
    ghost var s := State(Snapshot(K.Keys), K, head);
    OnItsSide(v, s.M, K, head, node);
    newHead, counted, K' := head, true, K;
    if node.r != null && node.l != null {
      BecomeGlue(K, node);
      counted := false;
    } else if node.r == null && node.l == null {
      newHead, K' := RemoveChildless(v, K, head, node);
    } else {
      var child := if node.r != null then node.r else node.l;
      var atRoot := node.parent == null;
      Bypass(v, K, head, node, s.M[node].r != null, child);
      newHead, K' := if atRoot then child else head, K - {node};
    }
  }

  method RemoveChildless(ghost v: Version, ghost K: Keys, head: Node, node: Node)
    returns (newHead: Node?, ghost K': Keys)
    requires Ok(v, Snapshot(K.Keys), K, head) && node in K && Real(Snapshot(K.Keys), node)
    requires node.l == null && node.r == null
    modifies K.Keys
    ensures K'.Keys <= K.Keys
    ensures State(Snapshot(K'.Keys), K', newHead) == Remove(v, State(old(Snapshot(K.Keys)), K, head), node)
  {
    ghost var s := State(Snapshot(K.Keys), K, head);
    OnItsSide(v, s.M, K, head, node);
    var parent := node.parent;
    if parent == null {
      Prune(v, K, head, node);
      newHead, K' := null, K - {node};
    } else {
      assert LabelledAt(v, s.M, K, parent);
      var sibling := if parent.r == node then parent.l else parent.r;
      if parent.prefix.version != Unknown {
        Prune(v, K, head, node);
        newHead, K' := head, K - {node};
      } else {
        ghost var g, b, c := GlueParent(v, s.M, K, head, node);
        RemoveLeafShaped(v, s.M, K, head, node);
        Prune(v, K, head, node);
        var atRoot := parent.parent == null;
        assert Snapshot((K - {node}).Keys)[parent] == parent.View();
        Bypass(v, K - {node}, head, parent, !b, sibling);
        newHead, K' := if atRoot then sibling else head, K - {node} - {parent};
      }
    }
  }
}
