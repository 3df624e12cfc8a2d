/** The shape of one family's patricia tree, as a value.

    A heap of nodes is snapshotted into a map from node to `Cell`; a second map gives every
    node the bit string it stands for. The trie invariant is a conjunction of facts about
    single nodes and pairs of nodes, so the four placements of insert and the cases of remove
    become map updates, and that they keep the invariant is proved without a heap. */
module Trie {
  import opened Wrappers
  import opened Prefixes

  /** struct bgpstream_patricia_node. A node whose prefix has version Unknown is a glue node. */
  class Node {
    var bit: nat
    var prefix: Prefix
    var l: Node?
    var r: Node?
    var parent: Node?

    /** bgpstream_patricia_node_create, which copies the address and mask but leaves
        allowed_matches as malloc_zero set it. */
    constructor FromPrefix(pfx: Prefix)
      ensures bit == pfx.maskLen && prefix == Created(pfx)
      ensures l == null && r == null && parent == null
    {
      bit := pfx.maskLen;
      prefix := Created(pfx);
      l, r, parent := null, null, null;
    }

    /** bgpstream_patricia_gluenode_create. */
    constructor Glue()
      ensures bit == 0 && prefix.version == Unknown
      ensures l == null && r == null && parent == null
    {
      bit := 0;
      prefix := Prefix(Unknown, [], 0, MATCH_ANY);
      l, r, parent := null, null, null;
    }

    ghost function View(): Cell
      reads this
    {
      Cell(bit, if prefix.version == Unknown then None else Some(prefix), l, r, parent)
    }
  }

  function Created(pfx: Prefix): Prefix
  {
    pfx.(allowed := MATCH_ANY)
  }

  /** A node as a value. What a glue node still holds of an old prefix is not part of it. */
  datatype Cell = Cell(bit: nat, pfx: Option<Prefix>, l: Node?, r: Node?, parent: Node?) {
    ghost function Child(b: bool): Node? { if b then r else l }
    ghost function WithChild(b: bool, c: Node?): Cell { if b then this.(r := c) else this.(l := c) }
  }

  type Heap = map<Node, Cell>
  type Keys = map<Node, Key>

  ghost function Snapshot(nodes: set<Node>): Heap
    reads nodes
  {
    map n | n in nodes :: n.View()
  }

  /** c lies strictly below a, on side b. */
  ghost predicate Below(a: Key, b: bool, c: Key)
  {
    |a| < |c| && a <= c && c[|a|] == b
  }

  ghost predicate Keyed(v: Version, M: Heap, K: Keys)
  {
    && M.Keys == K.Keys
    && forall n :: n in K ==> |K[n]| == M[n].bit <= Width(v)
  }

  ghost predicate Distinct(K: Keys)
  {
    forall n, m :: n in K && m in K && K[n] == K[m] ==> n == m
  }

  /** Child links go down in bits, to the right side, and parent links undo them. */
  ghost predicate LinkedAt(M: Heap, K: Keys, n: Node, b: bool)
    requires M.Keys == K.Keys && n in K
  {
    var c := M[n].Child(b);
    c != null ==> c in K && M[c].parent == n && Below(K[n], b, K[c])
  }

  ghost predicate Linked(M: Heap, K: Keys)
    requires M.Keys == K.Keys
  {
    forall n, b {:trigger LinkedAt(M, K, n, b)} :: n in K ==> LinkedAt(M, K, n, b)
  }

  ghost predicate ParentedAt(M: Heap, h: Node?, n: Node)
    requires n in M
  {
    var p := M[n].parent;
    if p == null then n == h else p in M && (M[p].l == n || M[p].r == n)
  }

  ghost predicate Parented(M: Heap, h: Node?)
  {
    forall n {:trigger ParentedAt(M, h, n)} :: n in M ==> ParentedAt(M, h, n)
  }

  /** Whatever lies below a node is found under the child on its side. */
  ghost predicate CompleteAt(M: Heap, K: Keys, n: Node, b: bool, m: Node)
    requires M.Keys == K.Keys && n in K && m in K
  {
    Below(K[n], b, K[m]) ==> var c := M[n].Child(b); c != null && c in K && K[c] <= K[m]
  }

  ghost predicate Complete(M: Heap, K: Keys)
    requires M.Keys == K.Keys
  {
    forall n, b, m {:trigger CompleteAt(M, K, n, b, m)} :: n in K && m in K ==> CompleteAt(M, K, n, b, m)
  }

  ghost predicate Rooted(M: Heap, K: Keys, h: Node?)
    requires M.Keys == K.Keys
  {
    if h == null then K == map[]
    else h in K && M[h].parent == null && forall m :: m in K ==> K[h] <= K[m]
  }

  ghost predicate LabelledAt(v: Version, M: Heap, K: Keys, n: Node)
    requires n in M && n in K
  {
    match M[n].pfx
    case None => M[n].l != null && M[n].r != null
    case Some(p) => WellFormed(p) && p.version == v && KeyOf(p) == K[n]
  }

  ghost predicate Labelled(v: Version, M: Heap, K: Keys)
    requires M.Keys == K.Keys
  {
    forall n {:trigger LabelledAt(v, M, K, n)} :: n in K ==> LabelledAt(v, M, K, n)
  }

  /** All of the invariant but the labels, which a splice breaks for a moment. */
  ghost predicate Shaped(v: Version, M: Heap, K: Keys, h: Node?)
  {
    && Keyed(v, M, K)
    && Distinct(K)
    && Linked(M, K)
    && Parented(M, h)
    && Complete(M, K)
    && Rooted(M, K, h)
  }

  /** The invariant of one family's tree. */
  ghost predicate Ok(v: Version, M: Heap, K: Keys, h: Node?)
  {
    Shaped(v, M, K, h) && Labelled(v, M, K)
  }

  ghost predicate Real(M: Heap, n: Node)
  {
    n in M && M[n].pfx.Some?
  }

  /** The stored prefixes. */
  ghost function Stored(M: Heap, K: Keys): set<Key>
  {
    set n | n in K && Real(M, n) :: K[n]
  }
}
