/** Runs on which the AS path store meets its limits: a full bucket, and a path that gets two ids. */
module AsPathLimits {
  import opened Wrappers
  import opened AsPath
  import opened AsPathWire
  import opened AsPathStore

  // ---------- the 65536th path of a bucket ----------

  /** Three hops. The hash reads the first and the last, so all of these share a bucket. */
  function Via(middle: Asn): Path
  {
    PathOf([Hop(1), Hop(middle), Hop(2)])
  }

  const NO_STALE: Stale := [0, 0, 0, 0]

  lemma ViaHash(middle: Asn, mix: Mix, stale: Stale)
    ensures PathHash(Via(middle), mix, stale) == mix(1, 2)
  {
    HashIsEnds([Hop(1), Hop(middle), Hop(2)], mix, stale);
  }

  lemma ViaDistinct(a: Asn, b: Asn)
    requires a != b
    ensures Via(a).data != Via(b).data
  {
    ParseEncoded([Hop(1), Hop(a), Hop(2)]);
    ParseEncoded([Hop(1), Hop(b), Hop(2)]);
    assert [Hop(1), Hop(a), Hop(2)][1] != [Hop(1), Hop(b), Hop(2)][1];
  }

  function Filled(n: nat): (b: seq<StorePath>)
    requires n <= MAX_PATHS
    ensures |b| == n && forall i :: 0 <= i < n ==> b[i] == StorePath(false, i, Via(i))
  {
    seq(n, i requires 0 <= i < n => StorePath(false, i, Via(i)))
  }

  function StoreOf(n: nat, mix: Mix): Buckets
    requires n <= MAX_PATHS
  {
    if n == 0 then map[] else map[mix(1, 2) := Filled(n)]
  }

  /** The requests for the paths via from, from + 1, and so on up to 65535 paths. */
  function Requests(from: nat): seq<Request>
    requires from <= MAX_PATHS
    decreases MAX_PATHS - from
  {
    if from == MAX_PATHS then [] else [Request(false, Via(from), NO_STALE)] + Requests(from + 1)
  }

  /** The next path is none of those there. */
  lemma NotAmongThem(n: nat)
    requires n <= MAX_PATHS
    ensures Find(Filled(n), false, Via(n).data) == n
  {
    forall i | 0 <= i < n
      ensures !Matches(Filled(n)[i], false, Via(n).data)
    {
      ViaDistinct(i, n);
    }
  }

  /** A request for a new path, by the bucket it goes to. */
  lemma NewPath(set_: Buckets, count: nat, mix: Mix, p: Path, stale: Stale, h: nat)
    requires PathHash(p, mix, stale) == h && Find(Bucket(set_, h), false, p.data) == |Bucket(set_, h)|
    requires count + 1 < 0x1_0000_0000
    ensures var b := Bucket(set_, h);
      Intern(set_, count, mix, false, p, stale) ==
        if |b| >= MAX_PATHS then Interned(set_[h := []], count + 1, None)
        else Interned(set_[h := b + [StorePath(false, count, p)]], count + 1, Some(PathId(h, |b|)))
  {
  }

  lemma StoreGrows(n: nat, mix: Mix)
    requires n < MAX_PATHS
    ensures Bucket(StoreOf(n, mix), mix(1, 2)) == Filled(n)
    ensures StoreOf(n, mix)[mix(1, 2) := Filled(n) + [StorePath(false, n, Via(n))]] == StoreOf(n + 1, mix)
  {
    assert Filled(n) + [StorePath(false, n, Via(n))] == Filled(n + 1);
  }

  lemma OneMore(n: nat, mix: Mix)
    requires n < MAX_PATHS
    ensures Intern(StoreOf(n, mix), n, mix, false, Via(n), NO_STALE)
      == Interned(StoreOf(n + 1, mix), n + 1, Some(PathId(mix(1, 2), n)))
  {
    ViaHash(n, mix, NO_STALE);
    NotAmongThem(n);
    StoreGrows(n, mix);
    NewPath(StoreOf(n, mix), n, mix, Via(n), NO_STALE, mix(1, 2));
  }

  lemma {:induction false} FillFrom(n: nat, mix: Mix)
    requires n <= MAX_PATHS
    ensures InternAll(StoreOf(n, mix), n, mix, Requests(n)) == Some((StoreOf(MAX_PATHS, mix), MAX_PATHS))
    decreases MAX_PATHS - n
  {
    if n < MAX_PATHS {
      OneMore(n, mix);
      FillFrom(n + 1, mix);
      assert Requests(n)[1..] == Requests(n + 1);
    }
  }

  lemma FullGets(mix: Mix, i: nat)
    requires i < MAX_PATHS
    ensures Get(StoreOf(MAX_PATHS, mix), PathId(mix(1, 2), i)) == Some(StorePath(false, i, Via(i)))
  {
  }

  /** However the hash mixes, 65535 paths with the same first and last hop fill a bucket ... */
  lemma BucketFills(mix: Mix)
    ensures InternAll(map[], 0, mix, Requests(0)) == Some((StoreOf(MAX_PATHS, mix), MAX_PATHS))
    ensures forall i :: 0 <= i < MAX_PATHS ==>
      Get(StoreOf(MAX_PATHS, mix), PathId(mix(1, 2), i)) == Some(StorePath(false, i, Via(i)))
  {
    FillFrom(0, mix);
    forall i | 0 <= i < MAX_PATHS
      ensures Get(StoreOf(MAX_PATHS, mix), PathId(mix(1, 2), i)) == Some(StorePath(false, i, Via(i)))
    {
      FullGets(mix, i);
    }
  }

  /** ... and the next such path fails and takes the ids of all the others away. */
  lemma FullBucketFails(mix: Mix)
    ensures var r := Intern(StoreOf(MAX_PATHS, mix), MAX_PATHS, mix, false, Via(MAX_PATHS), NO_STALE);
      r.id == None && forall i: nat :: Get(r.buckets, PathId(mix(1, 2), i)) == None
  {
    ViaHash(MAX_PATHS, mix, NO_STALE);
    NotAmongThem(MAX_PATHS);
    NewPath(StoreOf(MAX_PATHS, mix), MAX_PATHS, mix, Via(MAX_PATHS), NO_STALE, mix(1, 2));
  }

  // ---------- a path with two ids ----------

  /** mixbits. */
  function MixBits(a: bv32): bv32
  {
    var b := a ^ (a >> 4);
    var c := (b ^ 0xdeadbeef) + (b << 5);
    c ^ (c >> 11)
  }

  /** The source's own mixing of the two ASNs. */
  function CodeMix(first: bv32, origin: bv32): bv32
  {
    MixBits(((first & 0xFFFF) << 8) | (origin & 0xFFFF))
  }

  lemma EmptySetHash(mix: Mix, stale: Stale)
    ensures PathOf([Group(AsSet, [])]) == Path([2, 0], 1, 0)
    ensures PathHash(Path([2, 0], 1, 0), mix, stale) == mix(Unword(stale), Unword(stale))
  {
    var segs := [Group(AsSet, [])];
    EncodeOne(segs[0]);
    assert segs[..0] == [] && Encode([]) == [];
    assert ([2, 0] + stale)[2..6] == stale;
  }

  lemma EmptySetPopulates()
    ensures Flatten([1, 0], 4, []) == ([Group(AsSet, [])], Populated)
  {
    EmptySetHash((a, b) => a, NO_STALE);
    assert [1, 0][2..] == [] && [] + [Group(AsSet, [])] == [Group(AsSet, [])];
  }

  /** The AS_PATH attribute of one empty set is accepted, and two requests for it get two ids when
      different bytes lie behind the path, under any mixing that tells these two apart, as the
      source's own does. */
  lemma EmptySetTwoIds(mix: Mix, core: bool)
    requires mix(0, 0) != mix(1, 1)
    ensures Flatten([1, 0], 4, []) == ([Group(AsSet, [])], Populated)
    ensures var p := PathOf([Group(AsSet, [])]);
      var r := Intern(map[], 0, mix, core, p, [0, 0, 0, 0]);
      var r' := Intern(r.buckets, r.count, mix, core, p, [1, 0, 0, 0]);
      r.id.Some? && r'.id.Some? && r.id != r'.id
    ensures CodeMix(0, 0) != CodeMix(1, 1)
  {
    EmptySetPopulates();
    EmptySetHash(mix, [0, 0, 0, 0]);
    EmptySetHash(mix, [1, 0, 0, 0]);
  }
}
