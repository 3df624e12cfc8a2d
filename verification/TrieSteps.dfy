/** Insert and remove as steps on the value of a tree: what each step does, that it keeps the
    invariant and changes the stored set by exactly one prefix, and that removing a prefix
    that an insert has just added gives back the very same heap. */
module TrieSteps {
  import opened Wrappers
  import opened Prefixes
  import opened Trie
  import opened TrieInsertion
  import opened TrieRemoval
  import opened TrieStored

  /** Where insert puts a prefix. */
  datatype Placement =
    | Present
    | GlueMod
    | First
    | AsChild(n: Node, b: bool)
    | AsParent(n: Node, b: bool)
    | UnderNewGlue(n: Node, b: bool, g: Node, f: Key)

  datatype State = State(M: Heap, K: Keys, h: Node?)

  /** The placement is possible in s for a node x that is to carry prefix p. */
  ghost predicate Possible(v: Version, s: State, how: Placement, x: Node, p: Prefix)
    requires WellFormed(p)
  {
    var k := KeyOf(p);
    Ok(v, s.M, s.K, s.h) && p.version == v &&
    match how
    case Present => x in s.K && s.K[x] == k && Real(s.M, x)
    case GlueMod => x in s.K && s.K[x] == k && !Real(s.M, x)
    case First => s.h == null
    case AsChild(n, b) => CanHang(v, s.M, s.K, s.h, n, b, x, k)
    case AsParent(n, b) => CanSplice(v, s.M, s.K, s.h, n, b, x, k)
    case UnderNewGlue(n, b, g, f) => CanSplice(v, s.M, s.K, s.h, n, b, g, f) && x !in s.K && x != g && Below(f, !b, k)
  }

  /** The tree after the placement. */
  ghost function Place(v: Version, s: State, how: Placement, x: Node, p: Prefix): State
    requires WellFormed(p) && Possible(v, s, how, x, p)
  {
    var k, q := KeyOf(p), Created(p);
    match how
    case Present => s
    case GlueMod => State(Relabel(s.M, x, p), s.K, s.h)
    case First => State(Planted(x, p.maskLen, q), PlantedKey(x, k), x)
    case AsChild(n, b) => State(InsertBelow(s.M, n, b, x, p.maskLen, Some(q)), s.K[x := k], s.h)
    case AsParent(n, b) =>
      OnItsSide(v, s.M, s.K, s.h, n);
      State(InsertAbove(s.M, n, b, x, p.maskLen, Some(q)), s.K[x := k], if s.M[n].parent == null then x else s.h)
    case UnderNewGlue(n, b, g, f) =>
      OnItsSide(v, s.M, s.K, s.h, n);
      var M' := InsertGlue(s.M, n, b, g, |f|, x, p.maskLen, q);
      State(M', s.K[g := f][x := k], if s.M[n].parent == null then g else s.h)
  }

  /** Every placement keeps the invariant and makes the stored set exactly old + {prefix}. */
  lemma PlaceOk(v: Version, s: State, how: Placement, x: Node, p: Prefix)
    requires WellFormed(p) && Possible(v, s, how, x, p)
    ensures var t := Place(v, s, how, x, p);
      && Ok(v, t.M, t.K, t.h)
      && Stored(t.M, t.K) == Stored(s.M, s.K) + {KeyOf(p)}
  {
    var k, q := KeyOf(p), Created(p);
    assert Fits(v, q, k);
    match how
    case Present =>
    case GlueMod => RelabelOk(v, s.M, s.K, s.h, x, p);
    case First => PlantOk(v, x, k, q);
    case AsChild(n, b) => InsertChildOk(v, s.M, s.K, s.h, n, b, x, k, q);
    case AsParent(n, b) => InsertParentOk(v, s.M, s.K, s.h, n, b, x, k, q);
    case UnderNewGlue(n, b, g, f) => InsertGlueOk(v, s.M, s.K, s.h, n, b, g, f, x, k, q);
  }

  lemma PlaceAt(v: Version, s: State, how: Placement, x: Node, p: Prefix)
    requires WellFormed(p) && Possible(v, s, how, x, p)
    ensures var t := Place(v, s, how, x, p);
      && x in t.K && t.K[x] == KeyOf(p) && Real(t.M, x)
      && (forall n :: n in s.K ==> n in t.K && t.K[n] == s.K[n])
  {
  }

  /** What remove_node does to a real node. */
  ghost function Remove(v: Version, s: State, n: Node): State
    requires Ok(v, s.M, s.K, s.h) && n in s.K
  {
    OnItsSide(v, s.M, s.K, s.h, n);
    var M, c := s.M, s.M[n];
    if c.l != null && c.r != null then State(Unlabel(M, n), s.K, s.h)
    else if c.l == null && c.r == null then
      if c.parent == null then State(M - {n}, s.K - {n}, null)
      else if Real(M, c.parent) then State(RemoveLeaf(M, n), s.K - {n}, s.h)
      else
        var g := c.parent;
        assert LabelledAt(v, M, s.K, g);
        var sibling := M[g].Child(M[g].r != n);
        CollapseOk(v, M, s.K, s.h, n, g, M[g].r == n, sibling);
        State(Collapse(M, n, g, sibling), s.K - {n} - {g}, if g == s.h then sibling else s.h)
    else
      var child := if c.r != null then c.r else c.l;
      OnlyChild(v, M, s.K, s.h, n, c.r != null, child);
      State(RemoveUnary(M, n, child), s.K - {n}, if n == s.h then child else s.h)
  }

  /** Removing a real node keeps the invariant and makes the stored set exactly old - {prefix}. */
  lemma RemoveOk(v: Version, s: State, n: Node)
    requires Ok(v, s.M, s.K, s.h) && n in s.K && Real(s.M, n)
    ensures var t := Remove(v, s, n);
      && Ok(v, t.M, t.K, t.h)
      && Stored(t.M, t.K) == Stored(s.M, s.K) - {s.K[n]}
  {
    OnItsSide(v, s.M, s.K, s.h, n);
    var M, c := s.M, s.M[n];
    if c.l != null && c.r != null {
      UnlabelOk(v, M, s.K, s.h, n);
    } else if c.l == null && c.r == null {
      if c.parent == null || Real(M, c.parent) {
        RemoveLeafOk(v, M, s.K, s.h, n);
      } else {
        assert LabelledAt(v, M, s.K, c.parent);
        CollapseOk(v, M, s.K, s.h, n, c.parent, M[c.parent].r == n, M[c.parent].Child(M[c.parent].r != n));
      }
    } else {
      RemoveUnaryOk(v, M, s.K, s.h, n, c.r != null, if c.r != null then c.r else c.l);
    }
  }

  lemma UndoGlueMod(v: Version, s: State, x: Node, p: Prefix)
    requires WellFormed(p) && Possible(v, s, GlueMod, x, p)
    ensures var t := Place(v, s, GlueMod, x, p);
      Ok(v, t.M, t.K, t.h) && x in t.K && Remove(v, t, x) == s
  {
    PlaceOk(v, s, GlueMod, x, p);
    assert LabelledAt(v, s.M, s.K, x);
    UnlabelUndoesRelabel(s.M, x, p);
  }

  lemma UndoFirst(v: Version, s: State, x: Node, p: Prefix)
    requires WellFormed(p) && Possible(v, s, First, x, p)
    ensures var t := Place(v, s, First, x, p);
      Ok(v, t.M, t.K, t.h) && x in t.K && Remove(v, t, x) == s
  {
    PlaceOk(v, s, First, x, p);
    var t := Place(v, s, First, x, p);
    assert t.M - {x} == map[] && t.K - {x} == map[];
  }

  lemma UndoChild(v: Version, s: State, n: Node, b: bool, x: Node, p: Prefix)
    requires WellFormed(p) && Possible(v, s, AsChild(n, b), x, p)
    ensures var t := Place(v, s, AsChild(n, b), x, p);
      Ok(v, t.M, t.K, t.h) && x in t.K && Remove(v, t, x) == s
  {
    PlaceOk(v, s, AsChild(n, b), x, p);
    RemoveLeafUndoesInsertChild(v, s.M, s.K, s.h, n, b, x, KeyOf(p), Some(Created(p)));
    assert LabelledAt(v, s.M, s.K, n);
    var t := Place(v, s, AsChild(n, b), x, p);
    assert Real(t.M, n);
    assert t.K - {x} == s.K;
  }

  lemma UndoParent(v: Version, s: State, n: Node, b: bool, x: Node, p: Prefix)
    requires WellFormed(p) && Possible(v, s, AsParent(n, b), x, p)
    ensures var t := Place(v, s, AsParent(n, b), x, p);
      Ok(v, t.M, t.K, t.h) && x in t.K && Remove(v, t, x) == s
  {
    PlaceOk(v, s, AsParent(n, b), x, p);
    RemoveUnaryUndoesInsertParent(v, s.M, s.K, s.h, n, b, x, KeyOf(p), Some(Created(p)));
    OnItsSide(v, s.M, s.K, s.h, n);
    var t := Place(v, s, AsParent(n, b), x, p);
    assert t.M[x].Child(b) == n && t.M[x].Child(!b) == null;
    assert t.K - {x} == s.K;
  }

  lemma UndoGlue(v: Version, s: State, how: Placement, x: Node, p: Prefix)
    requires WellFormed(p) && how.UnderNewGlue? && Possible(v, s, how, x, p)
    ensures var t := Place(v, s, how, x, p);
      Ok(v, t.M, t.K, t.h) && x in t.K && Remove(v, t, x) == s
  {
    var UnderNewGlue(n, b, g, f) := how;
    PlaceOk(v, s, how, x, p);
    var t := Place(v, s, how, x, p);
    CollapseUndoesInsertGlue(v, s.M, s.K, s.h, n, b, g, f, x, KeyOf(p), Created(p));
    OnItsSide(v, s.M, s.K, s.h, n);
    GlueAround(s.M, n, b, g, |f|, x, p.maskLen, Created(p));
    KeysBack(s.K, g, f, x, KeyOf(p));
  }

  lemma KeysBack(K: Keys, g: Node, f: Key, x: Node, k: Key)
    requires g !in K && x !in K && x != g
    ensures K[g := f][x := k] - {x} - {g} == K
  {
  }

  lemma GlueAround(M: Heap, n: Node, b: bool, g: Node, d: nat, x: Node, bit: nat, p: Prefix)
    requires n in M && g !in M && x !in M && x != g && (M[n].parent != null ==> M[n].parent in M && M[n].parent != n)
    ensures var M' := InsertGlue(M, n, b, g, d, x, bit, p);
      && x in M' && g in M' && M'[x].l == null && M'[x].r == null && M'[x].parent == g && !Real(M', g)
      && M'[g].Child(!b) == x && M'[g].Child(b) == n && (M'[g].r == x <==> !b) && M'[g].parent == M[n].parent
  {
  }

  /** Inserting an absent prefix and removing its node gives back the identical tree: the same
      nodes, the same links, bits and labels, the same head. */
  lemma RemoveUndoesPlace(v: Version, s: State, how: Placement, x: Node, p: Prefix)
    requires WellFormed(p) && Possible(v, s, how, x, p) && !how.Present?
    ensures var t := Place(v, s, how, x, p);
      Ok(v, t.M, t.K, t.h) && x in t.K && Remove(v, t, x) == s
  {
    match how
    case GlueMod => UndoGlueMod(v, s, x, p);
    case First => UndoFirst(v, s, x, p);
    case AsChild(n, b) => UndoChild(v, s, n, b, x, p);
    case AsParent(n, b) => UndoParent(v, s, n, b, x, p);
    case UnderNewGlue(n, b, g, f) => UndoGlue(v, s, how, x, p);
  }
}
