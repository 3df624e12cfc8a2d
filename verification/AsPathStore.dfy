/** The AS path store: paths interned under ids, with the peer hop stripped where it can be put
    back. */
module AsPathStore {
  import opened Wrappers
  import opened AsPath
  import opened AsPathBuffer

  /** A path as a value: its bytes and the two fields kept beside them. */
  datatype Path = Path(data: seq<Byte>, segCnt: nat, originOffset: nat)

  function PathOf(segs: Segs): Path
  {
    Path(Encode(segs), |segs|, OriginOffset(segs))
  }

  /** The bytes are a path and the fields are those recomputed from them. */
  predicate Consistent(p: Path)
  {
    Parse(p.data).Some? && p == PathOf(Parse(p.data).value)
  }

  lemma PathOfConsistent(segs: Segs)
    ensures Consistent(PathOf(segs)) && Parse(PathOf(segs).data) == Some(segs)
  {
    ParseEncoded(segs);
  }

  /** Consistent paths are the same when their bytes are. */
  lemma BytesDecide(p: Path, q: Path)
    requires Consistent(p) && Consistent(q)
    ensures p.data == q.data <==> p == q
  {
  }

  // ---------- the peer hop ----------

  predicate StartsWithPeer(p: Path, peer: Asn)
  {
    |p.data| > 0 && p.segCnt > 1 && ParseSeg(p.data) == Some(Hop(peer))
  }

  /** What is looked up for a path seen from peer: the core path if the peer's own hop is in front. */
  function Strip(p: Path, peer: Asn): (bool, Path)
    requires Consistent(p)
  {
    if StartsWithPeer(p, peer) then
      StripFits(p, peer);
      (true, Path(p.data[5..], p.segCnt - 1, p.originOffset - 5))
    else (false, p)
  }

  lemma StripFits(p: Path, peer: Asn)
    requires Consistent(p) && StartsWithPeer(p, peer)
    ensures Parse(p.data).value[0] == Hop(peer) && p.originOffset >= 5 && |p.data| >= 5
    ensures Path(p.data[5..], p.segCnt - 1, p.originOffset - 5) == PathOf(Parse(p.data).value[1..])
  {
    var segs := Parse(p.data).value;
    EncodeHead(segs);
    OriginBehindHead(segs);
  }

  /** Taking the first segment off moves the origin forward by its size. */
  lemma OriginBehindHead(segs: Segs)
    requires |segs| > 1
    ensures OriginOffset(segs) == Size(segs[0]) + OriginOffset(segs[1..])
  {
    var init := segs[..|segs| - 1];
    assert init[1..] == segs[1..][..|segs| - 2] && init[0] == segs[0];
    EncodeHead(init);
  }

  /** The path rebuilt with its peer. */
  function Rebuild(core: bool, p: Path, peer: Asn): Path
    requires Consistent(p)
  {
    if core then PathOf([Hop(peer)] + Parse(p.data).value) else p
  }

  /** Stripping a path and rebuilding it with the same peer gives back its bytes, its segment
      count and its origin offset. */
  lemma StripRebuild(p: Path, peer: Asn)
    requires Consistent(p)
    ensures Consistent(Strip(p, peer).1)
    ensures Rebuild(Strip(p, peer).0, Strip(p, peer).1, peer) == p
  {
    if StartsWithPeer(p, peer) {
      var segs := Parse(p.data).value;
      StripFits(p, peer);
      PathOfConsistent(segs[1..]);
      assert [Hop(peer)] + segs[1..] == segs;
    }
  }

  /** The peer's own hop is taken off exactly when it is in front and something is left behind it. */
  lemma StripExactly(segs: Segs, peer: Asn)
    ensures Consistent(PathOf(segs))
    ensures Strip(PathOf(segs), peer) ==
      if |segs| > 1 && segs[0] == Hop(peer) then (true, PathOf(segs[1..])) else (false, PathOf(segs))
  {
    var p := PathOf(segs);
    PathOfConsistent(segs);
    if segs == [] {
      assert Chunks(segs) == [];
    } else {
      EncodeHead(segs);
      ParseSegEncoded(segs[0], Encode(segs[1..]));
      if StartsWithPeer(p, peer) {
        StripFits(p, peer);
      }
    }
  }

  // lengths are 16-bit numbers
  const LENGTHS: nat := 0x1_0000

  /** Putting a hop in front of a path of at least LENGTHS - 5 bytes is what wraps its length. */
  lemma RebuiltFits(core: bool, p: Path, peer: Asn)
    requires Consistent(p)
    ensures |Rebuild(core, p, peer).data| == |p.data| + if core then 5 else 0
  {
    if core {
      var all := [Hop(peer)] + Parse(p.data).value;
      EncodeHead(all);
      EncodeParsed(p.data);
      assert all[1..] == Parse(p.data).value;
    }
  }

  // ---------- interning ----------

  datatype StorePath = StorePath(isCore: bool, idx: nat, path: Path)

  datatype PathId = PathId(pathHash: nat, pathId: nat)

  const NULL_ID: PathId := PathId(0xFFFF_FFFF, 65535)
  const MAX_PATHS: nat := 65535

  type Buckets = map<nat, seq<StorePath>>

  // ---------- the hash of a path ----------

  /** How the ASNs read from the first and the last segment are mixed. */
  type Mix = (Asn, Asn) -> Asn

  /** What lies in memory behind the bytes of a path. */
  type Stale = d: seq<Byte> | |d| == 4 witness [0, 0, 0, 0]

  /** Where bgpstream_as_path_seg_hash reads an ASN: a hop's own, or the first of a group. */
  function AsnAt(d: seq<Byte>, at: nat): nat
    requires at < |d|
  {
    if d[at] == SEG_ASN then at + 1 else at + 2
  }

  /** bgpstream_as_path_seg_hash on the segment at the given place. */
  function SegHash(memory: seq<Byte>, at: nat): Asn
  {
    if at < |memory| && AsnAt(memory, at) + 4 <= |memory|
    then Unword(memory[AsnAt(memory, at)..AsnAt(memory, at) + 4]) else 0
  }

  /** bgpstream_as_path_hash, the mixing itself left open. */
  function PathHash(p: Path, mix: Mix, stale: Stale): nat
  {
    if |p.data| > 0 then mix(SegHash(p.data + stale, 0), SegHash(p.data + stale, p.originOffset)) else 0
  }

  /** The last segment has an ASN: it is a hop or a group that is not empty. */
  predicate OriginHasAsn(p: Path)
  {
    |p.data| == 0 ||
    (p.originOffset + 1 < |p.data| && (p.data[p.originOffset] == SEG_ASN || p.data[p.originOffset + 1] > 0))
  }

  lemma LastSegment(segs: Segs)
    requires segs != []
    ensures OriginOffset(segs) + Size(segs[|segs| - 1]) == |Encode(segs)|
    ensures Encode(segs)[OriginOffset(segs)..] == EncodeSeg(segs[|segs| - 1])
  {
    var last := |segs| - 1;
    SplitAt(segs, last);
    assert segs[last..] == [segs[last]];
    EncodeOne(segs[last]);
  }

  /** The last segment of a path, and where its bytes are. */
  lemma OriginAt(p: Path) returns (last: Seg)
    requires Consistent(p) && |p.data| > 0
    ensures p.originOffset + Size(last) == |p.data|
    ensures p.data[p.originOffset] == SEG_ASN <==> last.Hop?
    ensures OriginHasAsn(p) <==> last.Hop? || last.asns != []
  {
    var segs := Parse(p.data).value;
    EncodeParsed(p.data);
    LastSegment(segs);
    last := segs[|segs| - 1];
    assert p.data[p.originOffset] == EncodeSeg(last)[0];
    assert p.data[p.originOffset + 1] == EncodeSeg(last)[1];
  }

  /** With an ASN in the last segment, and only then, both reads stay inside the path; else they
      reach at most four bytes past it ... */
  lemma ReadsInside(p: Path)
    requires Consistent(p) && |p.data| > 0
    ensures p.originOffset < |p.data|
    ensures AsnAt(p.data, 0) <= |p.data| && AsnAt(p.data, p.originOffset) <= |p.data|
    ensures OriginHasAsn(p) <==> AsnAt(p.data, 0) + 4 <= |p.data| && AsnAt(p.data, p.originOffset) + 4 <= |p.data|
  {
    var last := OriginAt(p);
    var segs := Parse(p.data).value;
    if |segs| > 1 {
      OriginBehindHead(segs);
    }
  }

  /** ... and then the hash is a function of the path. */
  lemma HashDecided(p: Path, mix: Mix, stale: Stale, stale': Stale)
    requires Consistent(p) && OriginHasAsn(p)
    ensures PathHash(p, mix, stale) == PathHash(p, mix, stale')
  {
    if |p.data| > 0 {
      ReadsInside(p);
      SegHashInside(p.data, 0, stale, stale');
      SegHashInside(p.data, p.originOffset, stale, stale');
    }
  }

  lemma SegHashInside(d: seq<Byte>, at: nat, stale: Stale, stale': Stale)
    requires at < |d| && AsnAt(d, at) + 4 <= |d|
    ensures SegHash(d + stale, at) == SegHash(d + stale', at)
  {
    var from := AsnAt(d, at);
    assert (d + stale)[from..from + 4] == d[from..from + 4] == (d + stale')[from..from + 4];
  }

  predicate HasAsn(s: Seg)
  {
    match s case Hop(_) => true case Group(_, asns) => asns != []
  }

  function FirstAsn(s: Seg): Asn
    requires HasAsn(s)
  {
    match s case Hop(asn) => asn case Group(_, asns) => asns[0]
  }

  lemma SegHashIs(memory: seq<Byte>, at: nat, s: Seg)
    requires HasAsn(s) && at + Size(s) <= |memory| && memory[at..at + Size(s)] == EncodeSeg(s)
    ensures SegHash(memory, at) == FirstAsn(s)
  {
    var d, from: nat := memory[at..at + Size(s)], if s.Hop? then 1 else 2;
    assert d[0] == memory[at];
    SliceInside(memory, at, Size(s), from);
    WordInverse(FirstAsn(s));
    assert EncodeSeg(s)[from..from + 4] == Word(FirstAsn(s));
  }

  lemma SliceInside(memory: seq<Byte>, at: nat, n: nat, from: nat)
    requires at + n <= |memory| && from + 4 <= n
    ensures memory[at..at + n][from..from + 4] == memory[at + from..at + from + 4]
  {
    var a, b := memory[at..at + n][from..from + 4], memory[at + from..at + from + 4];
    assert |a| == 4 == |b| && forall k :: 0 <= k < 4 ==> a[k] == memory[at + from + k] == b[k];
  }

  /** The hash mixes the first ASN of the first segment with the first ASN of the last one; that of the empty
      path is 0. */
  lemma HashIsEnds(segs: Segs, mix: Mix, stale: Stale)
    requires segs != [] ==> HasAsn(segs[0]) && HasAsn(segs[|segs| - 1])
    ensures PathHash(PathOf(segs), mix, stale) ==
      if segs == [] then 0 else mix(FirstAsn(segs[0]), FirstAsn(segs[|segs| - 1]))
  {
    if segs == [] {
      assert Chunks(segs) == [];
      return;
    }
    var d, memory, last := Encode(segs), Encode(segs) + stale, segs[|segs| - 1];
    EncodeHead(segs);
    assert memory[0..Size(segs[0])] == EncodeSeg(segs[0]);
    SegHashIs(memory, 0, segs[0]);
    LastSegment(segs);
    assert memory[OriginOffset(segs)..OriginOffset(segs) + Size(last)] == d[OriginOffset(segs)..];
    SegHashIs(memory, OriginOffset(segs), last);
  }

  /** Without one the hash depends on what lies behind the path. */
  lemma EmptyOriginReadsOn(p: Path, stale: Stale)
    requires Consistent(p) && !OriginHasAsn(p)
    ensures SegHash(p.data + stale, p.originOffset) == Unword(stale)
  {
    var last := OriginAt(p);
    ReadPast(p.data, p.originOffset, stale);
  }

  lemma ReadPast(d: seq<Byte>, at: nat, stale: Stale)
    requires at < |d| && AsnAt(d, at) == |d|
    ensures SegHash(d + stale, at) == Unword(stale)
  {
    var memory := d + stale;
    assert memory[at] == d[at] && memory[|d|..|d| + 4] == stale;
  }

  // ---------- buckets ----------

  function Bucket(set_: Buckets, h: nat): seq<StorePath>
  {
    if h in set_ then set_[h] else []
  }

  predicate Matches(sp: StorePath, core: bool, data: seq<Byte>)
  {
    sp.isCore == core && sp.path.data == data
  }

  /** The first match in a bucket, or its length. */
  function Find(b: seq<StorePath>, core: bool, data: seq<Byte>): (i: nat)
    ensures i <= |b|
    ensures forall j :: 0 <= j < i ==> !Matches(b[j], core, data)
    ensures i < |b| ==> Matches(b[i], core, data)
  {
    if b == [] || Matches(b[0], core, data) then 0 else 1 + Find(b[1..], core, data)
  }

  lemma {:induction false} FindStep(b: seq<StorePath>, core: bool, data: seq<Byte>, i: nat)
    requires i < |b| && i <= Find(b, core, data)
    ensures Find(b, core, data) == i <==> Matches(b[i], core, data)
  {
  }

  /** The buckets, the running path count, and the id, if there is one. A bucket's count has 16
      bits: at the 65536th path it wraps to 0 and the request fails. */
  datatype Interned = Interned(buckets: Buckets, count: nat, id: Option<PathId>)

  function Intern(set_: Buckets, count: nat, mix: Mix, core: bool, p: Path, stale: Stale): Interned
  {
    var h := PathHash(p, mix, stale);
    var b := Bucket(set_, h);
    var i := Find(b, core, p.data);
    if i < |b| then Interned(set_, count, Some(PathId(h, i)))
    else
      var count' := (count + 1) % 0x1_0000_0000;
      if |b| >= MAX_PATHS then Interned(set_[h := []], count', None)
      else Interned(set_[h := b + [StorePath(core, count, p)]], count', Some(PathId(h, |b|)))
  }

  /** bgpstream_as_path_store_get_store_path. */
  function Get(set_: Buckets, id: PathId): Option<StorePath>
  {
    if id == NULL_ID || id.pathHash !in set_ || id.pathId >= |set_[id.pathHash]| then None
    else Some(set_[id.pathHash][id.pathId])
  }

  /** h is the hash of p, for some memory behind it. */
  ghost predicate HashesTo(p: Path, mix: Mix, h: nat)
  {
    exists stale: Stale :: PathHash(p, mix, stale) == h
  }

  ghost predicate BucketOk(b: seq<StorePath>, h: nat, mix: Mix)
  {
    && |b| <= MAX_PATHS
    && (forall i :: 0 <= i < |b| ==> Consistent(b[i].path) && HashesTo(b[i].path, mix, h))
    && (forall i, j :: 0 <= i < j < |b| ==> !Matches(b[i], b[j].isCore, b[j].path.data))
  }

  /** Every bucket holds consistent paths of its own hash, none twice. */
  ghost predicate StoreOk(set_: Buckets, mix: Mix)
  {
    forall h :: h in set_ ==> BucketOk(set_[h], h, mix)
  }

  lemma InternOk(set_: Buckets, count: nat, mix: Mix, core: bool, p: Path, stale: Stale)
    requires StoreOk(set_, mix) && Consistent(p)
    ensures StoreOk(Intern(set_, count, mix, core, p, stale).buckets, mix)
  {
    var h := PathHash(p, mix, stale);
    var b := Bucket(set_, h);
    assert BucketOk(b, h, mix);
    if Find(b, core, p.data) == |b| && |b| < MAX_PATHS {
      AppendOk(b, h, mix, StorePath(core, count, p), stale);
    }
  }

  lemma AppendOk(b: seq<StorePath>, h: nat, mix: Mix, sp: StorePath, stale: Stale)
    requires BucketOk(b, h, mix) && |b| < MAX_PATHS && Consistent(sp.path) && PathHash(sp.path, mix, stale) == h
    requires forall i :: 0 <= i < |b| ==> !Matches(b[i], sp.isCore, sp.path.data)
    ensures BucketOk(b + [sp], h, mix)
  {
    var b' := b + [sp];
    assert HashesTo(sp.path, mix, h);
    forall i | 0 <= i < |b'|
      ensures Consistent(b'[i].path) && HashesTo(b'[i].path, mix, h)
    {
      assert i < |b| ==> b'[i] == b[i];
    }
    forall i, j | 0 <= i < j < |b'|
      ensures !Matches(b'[i], b'[j].isCore, b'[j].path.data)
    {
      assert b'[i] == b[i] && (j < |b| ==> b'[j] == b[j]);
    }
  }

  /** The id of a request leads to the path requested. */
  lemma InternGets(set_: Buckets, count: nat, mix: Mix, core: bool, p: Path, stale: Stale)
    requires StoreOk(set_, mix) && Consistent(p)
    ensures var r := Intern(set_, count, mix, core, p, stale);
      r.id.Some? ==>
        var sp := Get(r.buckets, r.id.value); sp.Some? && sp.value.isCore == core && sp.value.path == p
  {
    var h := PathHash(p, mix, stale);
    var b := Bucket(set_, h);
    assert BucketOk(b, h, mix);
    var i := Find(b, core, p.data);
    if i < |b| {
      BytesDecide(b[i].path, p);
    }
  }

  /** A request that succeeds leaves every id valid and pointing to the same path; one that fails
      takes all ids of its bucket away. */
  lemma InternKeeps(set_: Buckets, count: nat, mix: Mix, core: bool, p: Path, stale: Stale, id: PathId)
    requires Get(set_, id).Some?
    ensures var r := Intern(set_, count, mix, core, p, stale);
      && (r.id.Some? || id.pathHash != PathHash(p, mix, stale) ==> Get(r.buckets, id) == Get(set_, id))
      && (r.id == None && id.pathHash == PathHash(p, mix, stale) ==> Get(r.buckets, id) == None)
  {
  }

  /** A request fails exactly when the path is new and its bucket is full. */
  lemma InternFails(set_: Buckets, count: nat, mix: Mix, core: bool, p: Path, stale: Stale)
    ensures var b := Bucket(set_, PathHash(p, mix, stale));
      (Intern(set_, count, mix, core, p, stale).id == None
       <==> |b| >= 65535 && forall i :: 0 <= i < |b| ==> !Matches(b[i], core, p.data))
  {
  }

  /** Different core flags or bytes never share an id; the same flag and bytes have one id, if the
      path's last segment has an ASN. */
  lemma IdsDistinguish(set_: Buckets, mix: Mix, id1: PathId, id2: PathId)
    requires StoreOk(set_, mix) && Get(set_, id1).Some? && Get(set_, id2).Some?
    ensures var a, b := Get(set_, id1).value, Get(set_, id2).value;
      && (id1 == id2 ==> a.isCore == b.isCore && a.path.data == b.path.data)
      && (OriginHasAsn(a.path) ==> (id1 == id2 <==> a.isCore == b.isCore && a.path.data == b.path.data))
  {
    var a, b := Get(set_, id1).value, Get(set_, id2).value;
    assert BucketOk(set_[id1.pathHash], id1.pathHash, mix) && BucketOk(set_[id2.pathHash], id2.pathHash, mix);
    if a.path.data == b.path.data && OriginHasAsn(a.path) {
      BytesDecide(a.path, b.path);
      OneHash(a.path, mix, id1.pathHash, id2.pathHash);
    }
  }

  lemma OneHash(p: Path, mix: Mix, h: nat, h': nat)
    requires Consistent(p) && OriginHasAsn(p) && HashesTo(p, mix, h) && HashesTo(p, mix, h')
    ensures h == h'
  {
    var stale: Stale :| PathHash(p, mix, stale) == h;
    var stale': Stale :| PathHash(p, mix, stale') == h';
    HashDecided(p, mix, stale, stale');
  }

  /** Interning stored bytes again gives the same id and changes nothing, if the path's last
      segment has an ASN. */
  lemma InternAgain(set_: Buckets, count: nat, mix: Mix, id: PathId, stale: Stale)
    requires StoreOk(set_, mix) && Get(set_, id).Some? && OriginHasAsn(Get(set_, id).value.path)
    ensures var sp := Get(set_, id).value;
      Intern(set_, count, mix, sp.isCore, sp.path, stale) == Interned(set_, count, Some(id))
  {
    var sp := Get(set_, id).value;
    var b := set_[id.pathHash];
    assert BucketOk(b, id.pathHash, mix);
    assert HashesTo(sp.path, mix, PathHash(sp.path, mix, stale));
    OneHash(sp.path, mix, id.pathHash, PathHash(sp.path, mix, stale));
    var i := Find(b, sp.isCore, sp.path.data);
    assert Matches(b[id.pathId], sp.isCore, sp.path.data);
  }

  /** The condition is exact: any path that ends in an empty group can get two ids. */
  lemma EmptyOriginTwoIds(p: Path, core: bool) returns (mix: Mix, stale: Stale, stale': Stale)
    requires Consistent(p) && !OriginHasAsn(p)
    ensures var r := Intern(map[], 0, mix, core, p, stale);
      var r' := Intern(r.buckets, r.count, mix, core, p, stale');
      && r.id.Some? && r'.id.Some? && r.id != r'.id
      && Get(r'.buckets, r.id.value).Some? && Get(r'.buckets, r'.id.value).Some?
      && Get(r'.buckets, r.id.value).value.path == p == Get(r'.buckets, r'.id.value).value.path
  {
    mix, stale, stale' := (first, origin) => origin, [0, 0, 0, 0], [1, 0, 0, 0];
    EmptyOriginReadsOn(p, stale);
    EmptyOriginReadsOn(p, stale');
    assert Unword(stale) == 0 && Unword(stale') == 1;
    InternKeeps(Intern(map[], 0, mix, core, p, stale).buckets, 1, mix, core, p, stale', PathId(0, 0));
  }

  /** Making an empty bucket first changes nothing. */
  lemma InternInEmpty(set_: Buckets, count: nat, mix: Mix, core: bool, p: Path, stale: Stale)
    requires PathHash(p, mix, stale) !in set_
    ensures Intern(set_[PathHash(p, mix, stale) := []], count, mix, core, p, stale)
      == Intern(set_, count, mix, core, p, stale)
  {
    var h := PathHash(p, mix, stale);
    var b := [StorePath(core, count, p)];
    assert set_[h := []][h := b] == set_[h := b];
  }

  // ---------- runs ----------

  datatype Request = Request(core: bool, path: Path, stale: Stale)

  ghost predicate AllConsistent(rs: seq<Request>)
  {
    forall r :: r in rs ==> Consistent(r.path)
  }

  function Serve(set_: Buckets, count: nat, mix: Mix, r: Request): Interned
  {
    Intern(set_, count, mix, r.core, r.path, r.stale)
  }

  /** The store after a run of requests, if none of them failed. */
  function InternAll(set_: Buckets, count: nat, mix: Mix, rs: seq<Request>): Option<(Buckets, nat)>
    decreases |rs|
  {
    if rs == [] then Some((set_, count))
    else
      var r := Serve(set_, count, mix, rs[0]);
      if r.id == None then None else InternAll(r.buckets, r.count, mix, rs[1..])
  }

  lemma {:induction false} RunKeeps(set_: Buckets, count: nat, mix: Mix, rs: seq<Request>, id: PathId)
    requires StoreOk(set_, mix) && AllConsistent(rs) && Get(set_, id).Some?
    requires InternAll(set_, count, mix, rs).Some?
    ensures var after := InternAll(set_, count, mix, rs).value.0; StoreOk(after, mix) && Get(after, id) == Get(set_, id)
    decreases |rs|
  {
    if rs != [] {
      assert rs[0] in rs;
      InternOk(set_, count, mix, rs[0].core, rs[0].path, rs[0].stale);
      InternKeeps(set_, count, mix, rs[0].core, rs[0].path, rs[0].stale, id);
      var r := Serve(set_, count, mix, rs[0]);
      RunKeeps(r.buckets, r.count, mix, rs[1..], id);
    }
  }

  /** Interning a path seen from a peer, and after any later requests fetching it by its id and
      rebuilding it with that peer, gives back the path: bytes, segment count, origin offset. */
  lemma RoundTrip(set_: Buckets, count: nat, mix: Mix, p: Path, peer: Asn, stale: Stale, later: seq<Request>)
    requires StoreOk(set_, mix) && Consistent(p) && AllConsistent(later)
    requires var r := Intern(set_, count, mix, Strip(p, peer).0, Strip(p, peer).1, stale);
      r.id.Some? && InternAll(r.buckets, r.count, mix, later).Some?
    ensures var r := Intern(set_, count, mix, Strip(p, peer).0, Strip(p, peer).1, stale);
      var sp := Get(InternAll(r.buckets, r.count, mix, later).value.0, r.id.value);
      sp.Some? && Consistent(sp.value.path) && Rebuild(sp.value.isCore, sp.value.path, peer) == p
  {
    var (core, c) := Strip(p, peer);
    StripRebuild(p, peer);
    InternOk(set_, count, mix, core, c, stale);
    InternGets(set_, count, mix, core, c, stale);
    var r := Intern(set_, count, mix, core, c, stale);
    RunKeeps(r.buckets, r.count, mix, later, r.id.value);
  }

  /** Over a run, two requests that get the same id agree in flag and bytes, and two that agree get
      the same id if the path's last segment has an ASN. */
  lemma RunDistinguishes(set_: Buckets, count: nat, mix: Mix, a: Request, between: seq<Request>, b: Request)
    requires StoreOk(set_, mix) && Consistent(a.path) && Consistent(b.path) && AllConsistent(between)
    requires var ra := Serve(set_, count, mix, a);
      ra.id.Some? && InternAll(ra.buckets, ra.count, mix, between + [b]).Some?
    ensures var ra := Serve(set_, count, mix, a);
      InternAll(ra.buckets, ra.count, mix, between).Some? &&
      var (set1, count1) := InternAll(ra.buckets, ra.count, mix, between).value;
      var rb := Serve(set1, count1, mix, b);
      && (ra.id == rb.id ==> a.core == b.core && a.path.data == b.path.data)
      && (OriginHasAsn(a.path) ==> (ra.id == rb.id <==> a.core == b.core && a.path.data == b.path.data))
  {
    var ra := Serve(set_, count, mix, a);
    InternOk(set_, count, mix, a.core, a.path, a.stale);
    InternGets(set_, count, mix, a.core, a.path, a.stale);
    RunSplits(ra.buckets, ra.count, mix, between, b);
    RunKeeps(ra.buckets, ra.count, mix, between, ra.id.value);
    var (set1, count1) := InternAll(ra.buckets, ra.count, mix, between).value;
    var rb := Serve(set1, count1, mix, b);
    InternOk(set1, count1, mix, b.core, b.path, b.stale);
    InternGets(set1, count1, mix, b.core, b.path, b.stale);
    InternKeeps(set1, count1, mix, b.core, b.path, b.stale, ra.id.value);
    IdsDistinguish(rb.buckets, mix, ra.id.value, rb.id.value);
  }

  lemma {:induction false} RunSplits(set_: Buckets, count: nat, mix: Mix, rs: seq<Request>, last: Request)
    requires InternAll(set_, count, mix, rs + [last]).Some?
    ensures InternAll(set_, count, mix, rs).Some?
    ensures var (set1, count1) := InternAll(set_, count, mix, rs).value; Serve(set1, count1, mix, last).id.Some?
    decreases |rs|
  {
    if rs != [] {
      var r := Serve(set_, count, mix, rs[0]);
      assert (rs + [last])[1..] == rs[1..] + [last];
      RunSplits(r.buckets, r.count, mix, rs[1..], last);
    } else {
      assert (rs + [last])[0] == last;
    }
  }

  // ---------- paths as their peers show them ----------

  /** A request for the id of a path seen from a peer. */
  function Ask(set_: Buckets, count: nat, mix: Mix, p: Path, peer: Asn, stale: Stale): Interned
    requires Consistent(p)
  {
    var (core, stripped) := Strip(p, peer);
    Intern(set_, count, mix, core, stripped, stale)
  }

  function AskFor(set_: Buckets, count: nat, mix: Mix, segs: Segs, peer: Asn, stale: Stale): Interned
  {
    PathOfConsistent(segs);
    Ask(set_, count, mix, PathOf(segs), peer, stale)
  }

  /** sp is what the store keeps of the path of segs seen from peer: without the peer's hop, and marked as
      a core path, exactly when that hop is in front and not all of the path. */
  ghost predicate KeptFor(sp: StorePath, segs: Segs, peer: Asn)
  {
    && (sp.isCore <==> |segs| > 1 && segs[0] == Hop(peer))
    && sp.path == PathOf(if sp.isCore then segs[1..] else segs)
  }

  lemma AskGets(set_: Buckets, count: nat, mix: Mix, segs: Segs, peer: Asn, stale: Stale)
    requires StoreOk(set_, mix)
    ensures var r := AskFor(set_, count, mix, segs, peer, stale);
      r.id.Some? ==> Get(r.buckets, r.id.value).Some? && KeptFor(Get(r.buckets, r.id.value).value, segs, peer)
  {
    StripExactly(segs, peer);
    StripRebuild(PathOf(segs), peer);
    var (core, stripped) := Strip(PathOf(segs), peer);
    InternGets(set_, count, mix, core, stripped, stale);
  }

  /** A path behind its peer's own hop gets one id, whoever the peer is and whatever was asked in between,
      if its last segment has an ASN. */
  lemma PeersShareId(set_: Buckets, count: nat, mix: Mix, core: Segs, a: Asn, stale: Stale, between: seq<Request>,
      b: Asn, stale': Stale)
    requires StoreOk(set_, mix) && AllConsistent(between)
    requires core != [] && HasAsn(core[|core| - 1])
    requires var r := AskFor(set_, count, mix, [Hop(a)] + core, a, stale);
      r.id.Some? && InternAll(r.buckets, r.count, mix, between).Some?
    ensures var r := AskFor(set_, count, mix, [Hop(a)] + core, a, stale);
      var (set1, count1) := InternAll(r.buckets, r.count, mix, between).value;
      AskFor(set1, count1, mix, [Hop(b)] + core, b, stale') == Interned(set1, count1, r.id)
  {
    var p := PathOf(core);
    StripExactly([Hop(a)] + core, a);
    StripExactly([Hop(b)] + core, b);
    assert ([Hop(a)] + core)[1..] == core == ([Hop(b)] + core)[1..];
    PathOfConsistent(core);
    var r := Intern(set_, count, mix, true, p, stale);
    InternOk(set_, count, mix, true, p, stale);
    InternGets(set_, count, mix, true, p, stale);
    RunKeeps(r.buckets, r.count, mix, between, r.id.value);
    LastHasAsn(core);
    var (set1, count1) := InternAll(r.buckets, r.count, mix, between).value;
    InternAgain(set1, count1, mix, r.id.value, stale');
  }

  lemma LastHasAsn(segs: Segs)
    requires segs != []
    ensures OriginHasAsn(PathOf(segs)) <==> HasAsn(segs[|segs| - 1])
  {
    PathOfConsistent(segs);
    EncodeHead(segs);
    LastSegment(segs);
    var last := OriginAt(PathOf(segs));
  }

  // ---------- the store ----------

  ghost function ViewOf(b: PathBuffer): Path
    reads b
  {
    Path(b.data, b.segCnt, b.originOffset)
  }

  class PathStore {
    const mix: Mix
    var pathSet: Buckets
    var pathsCnt: nat

    ghost predicate Valid()
      reads this
    {
      StoreOk(pathSet, mix)
    }

    constructor (mix: Mix)
      ensures Valid() && pathSet == map[] && pathsCnt == 0 && this.mix == mix
    {
      this.mix, pathSet, pathsCnt := mix, map[], 0;
    }

    /** pathset_get_path_id: a linear search, and the path appended if it is new. */
    method PathsetGetPathId(h: nat, core: bool, p: Path, ghost stale: Stale) returns (pathId: nat)
      requires Valid() && Consistent(p) && h == PathHash(p, mix, stale) && h in pathSet
      modifies this
      ensures var r := Intern(old(pathSet), old(pathsCnt), mix, core, p, stale);
        && pathSet == r.buckets && pathsCnt == r.count
        && (if pathId == 65535 then None else Some(PathId(h, pathId))) == r.id
    {
      var b := pathSet[h];
      assert BucketOk(b, h, mix);
      var i := 0;
      while i < |b|
        invariant i <= Find(b, core, p.data) && unchanged(this)
      {
        FindStep(b, core, p.data, i);
        if b[i].isCore == core && b[i].path.data == p.data {
          return i;
        }
        i := i + 1;
      }
      var idx := pathsCnt;
      pathsCnt := (pathsCnt + 1) % 0x1_0000_0000;
      pathId := |b|;
      if |b| + 1 > MAX_PATHS {
        pathSet := pathSet[h := []];
      } else {
        pathSet := pathSet[h := b + [StorePath(core, idx, p)]];
      }
    }

    /** get_path_id. */
    method GetId(core: bool, p: Path, stale: Stale) returns (id: Option<PathId>)
      requires Valid() && Consistent(p)
      modifies this
      ensures Valid()
      ensures Interned(pathSet, pathsCnt, id) == Intern(old(pathSet), old(pathsCnt), mix, core, p, stale)
    {
      var h := PathHash(p, mix, stale);
      InternOk(pathSet, pathsCnt, mix, core, p, stale);
      if h !in pathSet {
        InternInEmpty(pathSet, pathsCnt, mix, core, p, stale);
        pathSet := pathSet[h := []];
      }
      var pathId := PathsetGetPathId(h, core, p, stale);
      id := if pathId == 65535 then None else Some(PathId(h, pathId));
    }

    /** bgpstream_as_path_store_get_path_id. */
    method GetPathId(path: PathBuffer?, peer: Asn, stale: Stale) returns (id: Option<PathId>)
      requires Valid() && (path != null ==> Consistent(ViewOf(path)))
      modifies this
      ensures Valid()
      ensures path == null ==>
        id == Some(PathId(0xFFFF_FFFF, 65535)) && pathSet == old(pathSet) && pathsCnt == old(pathsCnt)
      ensures path != null ==>
        Interned(pathSet, pathsCnt, id) == Ask(old(pathSet), old(pathsCnt), mix, old(ViewOf(path)), peer, stale)
      ensures path != null && id.Some? ==>
        && Parse(old(path.data)).Some? && Get(pathSet, id.value).Some?
        && KeptFor(Get(pathSet, id.value).value, Parse(old(path.data)).value, peer)
    {
      if path == null {
        return Some(NULL_ID);
      }
      var p := Path(path.data, path.segCnt, path.originOffset);
      StripRebuild(p, peer);
      AskGets(pathSet, pathsCnt, mix, Parse(path.data).value, peer, stale);
      var findme, core := p, false;
      if |path.data| > 0 && path.segCnt > 1 && ParseSeg(path.data) == Some(Hop(peer)) {
        StripFits(p, peer);
        findme, core := Path(path.data[5..], path.segCnt - 1, path.originOffset - 5), true;
      }
      id := GetId(core, findme, stale);
    }

    /** bgpstream_as_path_store_insert_path, whose length has 16 bits. */
    method InsertPath(bytes: seq<Byte>, core: bool, stale: Stale) returns (id: Option<PathId>)
      requires Valid() && Parse(bytes).Some? && |bytes| < LENGTHS
      modifies this
      ensures Valid()
      ensures Interned(pathSet, pathsCnt, id)
        == Intern(old(pathSet), old(pathsCnt), mix, core, PathOf(Parse(bytes).value), stale)
    {
      var findme := new PathBuffer();
      findme.PopulateFromData(bytes);
      PathOfConsistent(Parse(bytes).value);
      id := GetId(core, Path(findme.data, findme.segCnt, findme.originOffset), stale);
    }

    /** bgpstream_as_path_store_get_store_path. */
    method GetStorePath(id: PathId) returns (sp: Option<StorePath>)
      ensures sp == Get(pathSet, id)
    {
      if id.pathHash == 0xFFFF_FFFF && id.pathId == 65535 {
        return None;
      }
      if id.pathHash !in pathSet {
        return None;
      }
      if id.pathId > |pathSet[id.pathHash]| - 1 {
        return None;
      }
      return Some(pathSet[id.pathHash][id.pathId]);
    }
  }

  /** bgpstream_as_path_store_path_get_path. The length of the path built has to fit 16 bits, as it
      does (RebuiltFits) for what was stripped off a path; insert_path can store longer cores. */
  method PathGetPath(sp: StorePath, peer: Asn) returns (pc: PathBuffer)
    requires Consistent(sp.path) && |Rebuild(sp.isCore, sp.path, peer).data| < LENGTHS
    ensures fresh(pc) && ViewOf(pc) == Rebuild(sp.isCore, sp.path, peer)
  {
    pc := new PathBuffer();
    if !sp.isCore {
      pc.data, pc.segCnt, pc.originOffset := sp.path.data, sp.path.segCnt, sp.path.originOffset;
      return;
    }
    pc.Clear();
    ghost var segs := Parse(sp.path.data).value;
    ghost var all := [Hop(peer)] + segs;
    EncodeHead(all);
    assert all[1..] == segs;
    pc.data := [SEG_ASN] + Word(peer) + sp.path.data;
    pc.UpdateFields(all);
  }

  // ---------- iterating a stored path ----------

  const FAKE: nat := 65535

  /** The segments a stored path shows to a peer. */
  function Shown(sp: StorePath, peer: Asn): Segs
    requires Consistent(sp.path)
  {
    var own := Parse(sp.path.data).value;
    if sp.isCore then [Hop(peer)] + own else own
  }

  /** Iterating shows exactly the segments of the path rebuilt for the peer. */
  lemma ShownIsRebuilt(sp: StorePath, peer: Asn)
    requires Consistent(sp.path)
    ensures Rebuild(sp.isCore, sp.path, peer) == PathOf(Shown(sp, peer))
  {
  }

  lemma ShownAt(sp: StorePath, peer: Asn, i: nat)
    requires Consistent(sp.path) && (sp.isCore ==> i > 0)
    ensures var own, j := Parse(sp.path.data).value, if sp.isCore then i - 1 else i;
      && (i < |Shown(sp, peer)| <==> j < |own|)
      && (j < |own| ==> Shown(sp, peer)[i] == own[j])
  {
  }

  /** bgpstream_as_path_store_path_iter_t: a cursor, or the mark that the peer's hop comes first. */
  class StorePathIter {
    const sp: StorePath
    const peer: Asn
    var offset: nat

    /** i segments have been returned. */
    ghost predicate At(i: nat)
      reads this
    {
      && Consistent(sp.path) && |sp.path.data| < FAKE && i <= |Shown(sp, peer)|
      && if sp.isCore && i == 0 then offset == FAKE
         else var own := Parse(sp.path.data).value; offset == Offset(own, if sp.isCore then i - 1 else i)
    }

    /** bgpstream_as_path_store_path_iter_reset. */
    constructor (sp: StorePath, peer: Asn)
      requires Consistent(sp.path) && |sp.path.data| < FAKE
      ensures At(0) && this.sp == sp && this.peer == peer
    {
      this.sp, this.peer := sp, peer;
      offset := if sp.isCore then FAKE else 0;
      new;
      EncodeParsed(sp.path.data);
      assert Parse(sp.path.data).value[..0] == [];
    }

    /** bgpstream_as_path_store_path_get_next_seg. */
    method GetNextSeg(ghost i: nat) returns (seg: Option<Seg>)
      requires At(i)
      modifies this
      ensures i < |Shown(sp, peer)| ==> seg == Some(Shown(sp, peer)[i]) && At(i + 1)
      ensures i == |Shown(sp, peer)| ==> seg == None && At(i)
    {
      ghost var own := Parse(sp.path.data).value;
      ghost var j: nat := if sp.isCore && i > 0 then i - 1 else i;
      EncodeParsed(sp.path.data);
      if !(sp.isCore && i == 0) {
        OwnOffsets(own, j);
        ShownAt(sp, peer, i);
      }
      if offset == FAKE {
        assert own[..0] == [];
        offset := 0;
        return Some(Hop(peer));
      }
      var next;
      seg, next := NextSegment(sp.path.data, offset, own, j);
      offset := next;
    }
  }

  lemma OwnOffsets(segs: Segs, i: nat)
    requires i <= |segs|
    ensures Offset(segs, i) <= |Encode(segs)|
  {
    SplitAt(segs, i);
  }
}
