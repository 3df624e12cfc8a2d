/** From the AS_PATH attribute on the wire (section 4.3 of RFC 4271; confederation types from
    section 3 of RFC 5065) to segments: sequences become single hops, sets stay whole. */
module AsPathWire {
  import opened Sequences
  import opened AsPath

  const AS_SET: Byte := 1
  const AS_SEQUENCE: Byte := 2
  const AS_CONFED_SEQUENCE: Byte := 3
  const AS_CONFED_SET: Byte := 4
  const AS_HEADER_SIZE: nat := 2
  const DATA_LIMIT: nat := 65535

  /** ASNs are 2 or 4 bytes, most significant first. */
  predicate AsnLen(n: nat)
  {
    n == 2 || n == 4
  }

  function WireLen(count: nat, asnLen: nat): nat
    requires AsnLen(asnLen)
  {
    if asnLen == 2 then 2 * count else 4 * count
  }

  function NetAsn(d: seq<Byte>, asnLen: nat): Asn
    requires AsnLen(asnLen) && |d| >= asnLen
  {
    if asnLen == 2 then 256 * (d[0] as int) + d[1] as int
    else 16777216 * (d[0] as int) + 65536 * (d[1] as int) + 256 * (d[2] as int) + d[3] as int
  }

  function NetAsns(d: seq<Byte>, count: nat, asnLen: nat): (asns: seq<Asn>)
    requires AsnLen(asnLen) && |d| >= WireLen(count, asnLen)
    ensures |asns| == count
  {
    if count == 0 then [] else [NetAsn(d, asnLen)] + NetAsns(d[asnLen..], count - 1, asnLen)
  }

  function Hops(asns: seq<Asn>): (segs: Segs)
    ensures |segs| == |asns| && forall i :: 0 <= i < |asns| ==> segs[i] == Hop(asns[i])
  {
    if asns == [] then [] else [Hop(asns[0])] + Hops(asns[1..])
  }

  predicate WireType(t: Byte)
  {
    1 <= t <= 4
  }

  function GroupKind(t: Byte): Kind
  {
    if t == AS_SET then AsSet else if t == AS_CONFED_SEQUENCE then ConfedSeq else ConfedSet
  }

  /** One wire segment as path segments. */
  function FlattenSeg(t: Byte, asns: AsnList): Segs
  {
    if t == AS_SEQUENCE then Hops(asns) else [Group(GroupKind(t), asns)]
  }

  datatype Outcome = Populated | Corrupted | TooLong

  /** The wire segment at the front of d is readable. */
  predicate Readable(d: seq<Byte>, asnLen: nat)
    requires AsnLen(asnLen)
  {
    |d| >= 2 && WireType(d[0]) && AS_HEADER_SIZE + WireLen(d[1], asnLen) <= |d|
  }

  function FrontAsns(d: seq<Byte>, asnLen: nat): (asns: AsnList)
    requires AsnLen(asnLen) && Readable(d, asnLen)
    ensures |asns| == d[1]
  {
    NetAsns(d[2..], d[1], asnLen)
  }

  /** What populating from d leaves, after the segments done. */
  function Flatten(d: seq<Byte>, asnLen: nat, done: Segs): (Segs, Outcome)
    requires AsnLen(asnLen)
    decreases |d|
  {
    if d == [] then (done, Populated)
    else if !Readable(d, asnLen) then (done, Corrupted)
    else
      var next := done + FlattenSeg(d[0], FrontAsns(d, asnLen));
      if |Encode(next)| >= DATA_LIMIT then (done, TooLong)
      else Flatten(d[2 + WireLen(d[1], asnLen)..], asnLen, next)
  }

  lemma FlattenUnfolded(d: seq<Byte>, asnLen: nat, done: Segs)
    requires AsnLen(asnLen) && Readable(d, asnLen)
    ensures var next := done + FlattenSeg(d[0], FrontAsns(d, asnLen));
      Flatten(d, asnLen, done) == if |Encode(next)| >= DATA_LIMIT then (done, TooLong)
                                  else Flatten(d[2 + WireLen(d[1], asnLen)..], asnLen, next)
  {
  }

  // ---------- the wire format ----------

  datatype WireSeg = WireSeg(type_: Byte, asns: AsnList)

  predicate AsnFits(a: Asn, asnLen: nat)
  {
    asnLen == 2 ==> a < 65536
  }

  predicate WellFormed(w: WireSeg, asnLen: nat)
  {
    WireType(w.type_) && forall a :: a in w.asns ==> AsnFits(a, asnLen)
  }

  function PutAsn(a: Asn, asnLen: nat): (d: seq<Byte>)
    requires AsnLen(asnLen) && AsnFits(a, asnLen)
    ensures |d| == asnLen
  {
    if asnLen == 2 then [a / 256, a % 256]
    else [a / 16777216, a / 65536 % 256, a / 256 % 256, a % 256]
  }

  function PutAsns(asns: seq<Asn>, asnLen: nat): (d: seq<Byte>)
    requires AsnLen(asnLen) && forall a :: a in asns ==> AsnFits(a, asnLen)
    ensures |d| == WireLen(|asns|, asnLen)
  {
    if asns == [] then [] else PutAsn(asns[0], asnLen) + PutAsns(asns[1..], asnLen)
  }

  function PutSeg(w: WireSeg, asnLen: nat): (d: seq<Byte>)
    requires AsnLen(asnLen) && WellFormed(w, asnLen)
    ensures |d| == 2 + WireLen(|w.asns|, asnLen)
  {
    [w.type_, |w.asns|] + PutAsns(w.asns, asnLen)
  }

  ghost predicate AllWellFormed(ws: seq<WireSeg>, asnLen: nat)
  {
    forall w :: w in ws ==> WellFormed(w, asnLen)
  }

  ghost function Put(ws: seq<WireSeg>, asnLen: nat): seq<Byte>
    requires AsnLen(asnLen) && AllWellFormed(ws, asnLen)
  {
    if ws == [] then [] else PutSeg(ws[0], asnLen) + Put(ws[1..], asnLen)
  }

  /** The segments a well-formed attribute means. */
  ghost function Meaning(ws: seq<WireSeg>): Segs
  {
    if ws == [] then [] else FlattenSeg(ws[0].type_, ws[0].asns) + Meaning(ws[1..])
  }

  lemma NetAsnOfPut(a: Asn, asnLen: nat, rest: seq<Byte>)
    requires AsnLen(asnLen) && AsnFits(a, asnLen)
    ensures NetAsn(PutAsn(a, asnLen) + rest, asnLen) == a
  {
    FromDigits(a);
  }

  lemma PutOfNetAsn(d: seq<Byte>, asnLen: nat)
    requires AsnLen(asnLen) && |d| >= asnLen
    ensures AsnFits(NetAsn(d, asnLen), asnLen) && PutAsn(NetAsn(d, asnLen), asnLen) == d[..asnLen]
  {
    if asnLen == 4 {
      Digits(d[3], d[2], d[1], d[0]);
    } else {
      Digit(d[0], d[1]);
    }
  }

  lemma NetAsnsCons(a: Asn, d: seq<Byte>, count: nat, asnLen: nat)
    requires AsnLen(asnLen) && AsnFits(a, asnLen) && |d| >= WireLen(count, asnLen)
    ensures NetAsns(PutAsn(a, asnLen) + d, count + 1, asnLen) == [a] + NetAsns(d, count, asnLen)
  {
    NetAsnOfPut(a, asnLen, d);
    assert (PutAsn(a, asnLen) + d)[asnLen..] == d;
  }

  lemma {:induction false} NetAsnsOfPut(asns: seq<Asn>, asnLen: nat, rest: seq<Byte>)
    requires AsnLen(asnLen) && forall a :: a in asns ==> AsnFits(a, asnLen)
    ensures NetAsns(PutAsns(asns, asnLen) + rest, |asns|, asnLen) == asns
  {
    if asns != [] {
      var later := PutAsns(asns[1..], asnLen) + rest;
      NetAsnsOfPut(asns[1..], asnLen, rest);
      NetAsnsCons(asns[0], later, |asns| - 1, asnLen);
      Assoc(PutAsn(asns[0], asnLen), PutAsns(asns[1..], asnLen), rest);
    }
  }

  lemma PutAsnsFront(a: Asn, asns: seq<Asn>, asnLen: nat)
    requires AsnLen(asnLen) && AsnFits(a, asnLen) && forall b :: b in asns ==> AsnFits(b, asnLen)
    ensures forall b :: b in [a] + asns ==> AsnFits(b, asnLen)
    ensures PutAsns([a] + asns, asnLen) == PutAsn(a, asnLen) + PutAsns(asns, asnLen)
  {
    InFront(a, asns);
    assert ([a] + asns)[1..] == asns;
  }

  lemma {:induction false} PutOfNetAsns(d: seq<Byte>, count: nat, asnLen: nat)
    requires AsnLen(asnLen) && |d| >= WireLen(count, asnLen)
    ensures forall a :: a in NetAsns(d, count, asnLen) ==> AsnFits(a, asnLen)
    ensures PutAsns(NetAsns(d, count, asnLen), asnLen) == d[..WireLen(count, asnLen)]
  {
    if count > 0 {
      PutOfNetAsn(d, asnLen);
      PutOfNetAsns(d[asnLen..], count - 1, asnLen);
      InFront(NetAsn(d, asnLen), NetAsns(d[asnLen..], count - 1, asnLen));
      PutAsnsFront(NetAsn(d, asnLen), NetAsns(d[asnLen..], count - 1, asnLen), asnLen);
      TakeBoth(d, asnLen, WireLen(count - 1, asnLen));
    }
  }

  /** Reading back the front segment. */
  lemma FrontOfPut(w: WireSeg, asnLen: nat, rest: seq<Byte>)
    requires AsnLen(asnLen) && WellFormed(w, asnLen)
    ensures var d := PutSeg(w, asnLen) + rest;
      Readable(d, asnLen) && d[0] == w.type_ && d[1] == |w.asns| && FrontAsns(d, asnLen) == w.asns
      && d[2 + WireLen(d[1], asnLen)..] == rest
  {
    var d := PutSeg(w, asnLen) + rest;
    assert d[2..] == PutAsns(w.asns, asnLen) + rest;
    NetAsnsOfPut(w.asns, asnLen, rest);
  }

  lemma FrontIsPut(d: seq<Byte>, asnLen: nat) returns (w: WireSeg)
    requires AsnLen(asnLen) && Readable(d, asnLen)
    ensures WellFormed(w, asnLen) && w.type_ == d[0] && w.asns == FrontAsns(d, asnLen)
    ensures d == PutSeg(w, asnLen) + d[2 + WireLen(d[1], asnLen)..]
  {
    w := WireSeg(d[0], FrontAsns(d, asnLen));
    PutOfNetAsns(d[2..], d[1], asnLen);
    var n := 2 + WireLen(d[1], asnLen);
    assert d == d[..n] + d[n..] && d[..n] == [d[0], d[1]] + d[2..][..WireLen(d[1], asnLen)];
  }

  lemma {:induction false} EncodeMonotone(a: Segs, b: Segs)
    ensures |Encode(a + b)| == |Encode(a)| + |Encode(b)|
  {
    EncodeConcat(a, b);
  }

  /** One wire segment further. */
  lemma FlattenStep(w: WireSeg, rest: seq<Byte>, asnLen: nat, done: Segs)
    requires AsnLen(asnLen) && WellFormed(w, asnLen) && |Encode(done + FlattenSeg(w.type_, w.asns))| < DATA_LIMIT
    ensures Flatten(PutSeg(w, asnLen) + rest, asnLen, done) == Flatten(rest, asnLen, done + FlattenSeg(w.type_, w.asns))
  {
    FrontOfPut(w, asnLen, rest);
  }

  lemma FitsSoFar(done: Segs, front: Segs, rest: Segs)
    requires |Encode(done + (front + rest))| < DATA_LIMIT
    ensures |Encode(done + front)| < DATA_LIMIT && done + (front + rest) == done + front + rest
  {
    assert done + (front + rest) == done + front + rest;
    EncodeMonotone(done + front, rest);
  }

  /** Populating from a well-formed attribute gives exactly the segments it means, if they fit. */
  lemma {:induction false} FlattenPut(ws: seq<WireSeg>, asnLen: nat, done: Segs)
    requires AsnLen(asnLen) && AllWellFormed(ws, asnLen) && |Encode(done + Meaning(ws))| < DATA_LIMIT
    ensures Flatten(Put(ws, asnLen), asnLen, done) == (done + Meaning(ws), Populated)
    decreases |ws|
  {
    if ws == [] {
      assert done + [] == done;
    } else {
      var front := FlattenSeg(ws[0].type_, ws[0].asns);
      FitsSoFar(done, front, Meaning(ws[1..]));
      FlattenStep(ws[0], Put(ws[1..], asnLen), asnLen, done);
      FlattenPut(ws[1..], asnLen, done + front);
    }
  }

  lemma PutCons(w: WireSeg, rest: seq<WireSeg>, asnLen: nat, done: Segs)
    requires AsnLen(asnLen) && WellFormed(w, asnLen) && AllWellFormed(rest, asnLen)
    ensures AllWellFormed([w] + rest, asnLen)
    ensures Put([w] + rest, asnLen) == PutSeg(w, asnLen) + Put(rest, asnLen)
    ensures done + Meaning([w] + rest) == done + FlattenSeg(w.type_, w.asns) + Meaning(rest)
  {
    var ws := [w] + rest;
    assert ws[0] == w && ws[1..] == rest;
  }

  /** And it succeeds on no other bytes. */
  lemma {:induction false} PopulatedIsPut(d: seq<Byte>, asnLen: nat, done: Segs) returns (ws: seq<WireSeg>)
    requires AsnLen(asnLen) && Flatten(d, asnLen, done).1 == Populated
    ensures AllWellFormed(ws, asnLen) && d == Put(ws, asnLen)
    ensures Flatten(d, asnLen, done).0 == done + Meaning(ws)
    decreases |d|
  {
    if d == [] {
      ws := [];
      assert done + [] == done;
    } else {
      var w := FrontIsPut(d, asnLen);
      var next := done + FlattenSeg(w.type_, w.asns);
      var rest := PopulatedIsPut(d[2 + WireLen(d[1], asnLen)..], asnLen, next);
      ws := [w] + rest;
      PutCons(w, rest, asnLen, done);
    }
  }

  // ---------- in bytes ----------

  /** What a wire segment becomes: a set (type 1), a confederation sequence (3) and a confederation set (4)
      become one segment of the path's own types 2, 4 and 3; a sequence (2) becomes a segment of type 1
      for each of its ASNs. */
  lemma SegmentBytes(asns: AsnList)
    ensures Encode(FlattenSeg(1, asns)) == [2, |asns|] + Words(asns)
    ensures Encode(FlattenSeg(3, asns)) == [4, |asns|] + Words(asns)
    ensures Encode(FlattenSeg(4, asns)) == [3, |asns|] + Words(asns)
    ensures |FlattenSeg(2, asns)| == |asns|
    ensures forall i :: 0 <= i < |asns| ==>
      FlattenSeg(2, asns)[i] == Hop(asns[i]) && EncodeSeg(Hop(asns[i])) == [1] + Word(asns[i])
  {
    EncodeOne(Group(AsSet, asns));
    EncodeOne(Group(ConfedSeq, asns));
    EncodeOne(Group(ConfedSet, asns));
  }

  /** No wire segment stands at the front of d: it has no whole header, its type is not one of 1 to 4, or its
      ASNs do not all follow. */
  predicate Unreadable(d: seq<Byte>, asnLen: nat)
  {
    d != [] && (|d| < 2 || d[0] < 1 || d[0] > 4 || |d| < 2 + asnLen * d[1])
  }

  lemma UnreadableMeans(d: seq<Byte>, asnLen: nat)
    requires AsnLen(asnLen)
    ensures Unreadable(d, asnLen) <==> d != [] && !Readable(d, asnLen)
  {
  }

  /** Where readable segments end in something unreadable, populating fails and the path holds the segments in
      front of it. */
  lemma {:induction false} FlattenBroken(ws: seq<WireSeg>, asnLen: nat, done: Segs, rest: seq<Byte>)
    requires AsnLen(asnLen) && AllWellFormed(ws, asnLen) && Unreadable(rest, asnLen)
    requires |Encode(done + Meaning(ws))| < 65535
    ensures Flatten(Put(ws, asnLen) + rest, asnLen, done) == (done + Meaning(ws), Corrupted)
    decreases |ws|
  {
    UnreadableMeans(rest, asnLen);
    if ws == [] {
      assert done + [] == done && [] + rest == rest;
    } else {
      var front := FlattenSeg(ws[0].type_, ws[0].asns);
      FitsSoFar(done, front, Meaning(ws[1..]));
      FlattenStep(ws[0], Put(ws[1..], asnLen) + rest, asnLen, done);
      FlattenBroken(ws[1..], asnLen, done + front, rest);
      Assoc(PutSeg(ws[0], asnLen), Put(ws[1..], asnLen), rest);
    }
  }

  lemma FlattenTooLong(w: WireSeg, rest: seq<Byte>, asnLen: nat, done: Segs)
    requires AsnLen(asnLen) && WellFormed(w, asnLen) && |Encode(done + FlattenSeg(w.type_, w.asns))| >= 65535
    ensures Flatten(PutSeg(w, asnLen) + rest, asnLen, done) == (done, TooLong)
  {
    FrontOfPut(w, asnLen, rest);
    FlattenUnfolded(PutSeg(w, asnLen) + rest, asnLen, done);
  }

  /** A well-formed attribute is too long exactly when its segments take 65535 bytes or more; all shorter ones
      give the segments they mean. */
  lemma {:induction false} FlattenFits(ws: seq<WireSeg>, asnLen: nat, done: Segs)
    requires AsnLen(asnLen) && AllWellFormed(ws, asnLen) && |Encode(done)| < 65535
    ensures Flatten(Put(ws, asnLen), asnLen, done).1 == TooLong <==> |Encode(done + Meaning(ws))| >= 65535
    ensures |Encode(done + Meaning(ws))| < 65535 ==>
      Flatten(Put(ws, asnLen), asnLen, done) == (done + Meaning(ws), Populated)
    decreases |ws|
  {
    if ws == [] {
      assert done + [] == done;
    } else if |Encode(done + Meaning(ws))| < 65535 {
      FlattenPut(ws, asnLen, done);
    } else {
      var front := FlattenSeg(ws[0].type_, ws[0].asns);
      Assoc(done, front, Meaning(ws[1..]));
      if |Encode(done + front)| < 65535 {
        FlattenStep(ws[0], Put(ws[1..], asnLen), asnLen, done);
        FlattenFits(ws[1..], asnLen, done + front);
      } else {
        FlattenTooLong(ws[0], Put(ws[1..], asnLen), asnLen, done);
      }
    }
  }
}
