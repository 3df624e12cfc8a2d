/** bgpstream_as_path_t: the packed bytes with their segment count and origin offset, written in
    place while a wire attribute is read. */
module AsPathBuffer {
  import opened Wrappers
  import opened Sequences
  import opened AsPath
  import opened AsPathWire

  function Filler(n: nat): (d: seq<Byte>)
    ensures |d| == n
  {
    seq(n, _ => 0)
  }

  /** Reading one more ASN of a run. */
  lemma {:induction false} NetAsnsAt(d: seq<Byte>, count: nat, asnLen: nat, i: nat)
    requires AsnLen(asnLen) && |d| >= WireLen(count, asnLen) && i < count
    ensures WireLen(i, asnLen) + asnLen <= |d|
    ensures NetAsns(d, count, asnLen)[i] == NetAsn(d[WireLen(i, asnLen)..], asnLen)
  {
    if i > 0 {
      NetAsnsAt(d[asnLen..], count - 1, asnLen, i - 1);
      assert d[asnLen..][WireLen(i - 1, asnLen)..] == d[WireLen(i, asnLen)..];
    } else {
      assert d[0..] == d;
    }
  }

  /** The cursor is at the end of the bytes exactly behind the last segment. */
  lemma EndAt(segs: Segs, i: nat)
    requires i <= |segs|
    ensures Offset(segs, i) >= |Encode(segs)| <==> i == |segs|
  {
    SplitAt(segs, i);
    if i < |segs| {
      SegAt(segs, i);
    } else {
      assert segs[..i] == segs;
    }
  }

  lemma NextWord(header: seq<Byte>, asns: seq<Asn>, i: nat)
    requires i < |asns|
    ensures header + Words(asns[..i + 1]) == header + Words(asns[..i]) + Word(asns[i])
  {
    assert asns[..i + 1] == asns[..i] + [asns[i]];
    WordsAppend(asns[..i], asns[i]);
  }

  lemma GroupWritten(done: Segs, kind: Kind, asns: AsnList)
    ensures Encode(done + [Group(kind, asns)]) == Encode(done) + [KindByte(kind), |asns|] + Words(asns)
    ensures OriginOffset(done + [Group(kind, asns)]) == |Encode(done)|
  {
    EncodeAppend(done, Group(kind, asns));
    OriginAppend(done, Group(kind, asns));
    Assoc(Encode(done), [KindByte(kind), |asns|], Words(asns));
  }

  lemma HopStep(done: Segs, hops: Segs, i: nat)
    requires i < |hops|
    ensures Encode(done + hops[..i + 1]) == Encode(done + hops[..i]) + EncodeSeg(hops[i])
    ensures OriginOffset(done + hops[..i + 1]) == |Encode(done + hops[..i])|
  {
    assert done + hops[..i + 1] == (done + hops[..i]) + [hops[i]];
    EncodeAppend(done + hops[..i], hops[i]);
    OriginAppend(done + hops[..i], hops[i]);
  }

  /** bgpstream_as_path_get_next_seg: from the start of segment i, segment i and the start of the
      next one. */
  method NextSegment(data: seq<Byte>, offset: nat, ghost segs: Segs, ghost i: nat) returns (seg: Option<Seg>, next: nat)
    requires data == Encode(segs) && i <= |segs| && offset == Offset(segs, i)
    ensures i == |segs| ==> seg == None && next == offset
    ensures i < |segs| ==> seg == Some(segs[i]) && next == Offset(segs, i + 1)
  {
    next := offset;
    EndAt(segs, i);
    if |data| == 0 || offset >= |data| {
      return None, next;
    }
    SplitAt(segs, i);
    SegAt(segs, i);
    OffsetStep(segs, i);
    ParseSegEncoded(segs[i], Encode(segs[i + 1..]));
    seg := ParseSeg(data[offset..]);
    next := offset + Size(seg.value);
  }

  class PathBuffer {
    var data: seq<Byte>
    var segCnt: nat
    var originOffset: nat

    /** The path is segs, and its fields are those recomputed from its bytes. */
    ghost predicate Holds(segs: Segs)
      reads this
    {
      data == Encode(segs) && segCnt == |segs| && originOffset == OriginOffset(segs)
    }

    /** bgpstream_as_path_create. */
    constructor ()
      ensures Holds([])
    {
      data, segCnt, originOffset := [], 0, NO_ORIGIN;
    }

    method Clear()
      modifies this
      ensures Holds([])
    {
      data, segCnt, originOffset := [], 0, NO_ORIGIN;
    }

    /** bgpstream_as_path_update_fields. */
    method UpdateFields(ghost segs: Segs)
      requires data == Encode(segs) && originOffset == NO_ORIGIN
      modifies this`segCnt, this`originOffset
      ensures Holds(segs)
    {
      var offset, it := 0, 0;
      segCnt := 0;
      assert segs[..0] == [];
      var seg;
      seg, it := NextSegment(data, it, segs, 0);
      while seg.Some?
        invariant segCnt <= |segs| && offset == Offset(segs, segCnt)
        invariant seg == if segCnt < |segs| then Some(segs[segCnt]) else None
        invariant seg.Some? ==> it == Offset(segs, segCnt + 1)
        invariant originOffset == if segCnt == 0 then NO_ORIGIN else Offset(segs, segCnt - 1)
        decreases |segs| - segCnt
      {
        originOffset := offset;
        OffsetStep(segs, segCnt);
        segCnt := segCnt + 1;
        offset := offset + Size(seg.value);
        seg, it := NextSegment(data, it, segs, segCnt);
      }
    }

    /** bgpstream_as_path_populate_from_data, for bytes that another path gave out. */
    method PopulateFromData(bytes: seq<Byte>)
      requires Parse(bytes).Some?
      modifies this
      ensures data == bytes && Holds(Parse(bytes).value)
    {
      Clear();
      data := bytes;
      EncodeParsed(bytes);
      UpdateFields(Parse(bytes).value);
    }

    /** memcpy into the buffer. */
    method WriteAt(offset: nat, bytes: seq<Byte>)
      requires offset + |bytes| <= |data|
      modifies this`data
      ensures |data| == |old(data)| && data[..offset + |bytes|] == old(data)[..offset] + bytes
      ensures data[offset + |bytes|..] == old(data)[offset + |bytes|..]
    {
      data := data[..offset] + bytes + data[offset + |bytes|..];
    }

    /** The inner loop over a sequence: each ASN becomes a segment of its own. */
    method WriteHops(wire: seq<Byte>, count: nat, asnLen: nat, cursor: nat, ghost done: Segs)
      requires AsnLen(asnLen) && |wire| >= WireLen(count, asnLen) && count < 256
      requires |data| == cursor + 5 * count && data[..cursor] == Encode(done) && cursor == |Encode(done)|
      requires segCnt == |done| && originOffset == OriginOffset(done)
      modifies this
      ensures Holds(done + Hops(NetAsns(wire, count, asnLen)))
    {
      ghost var hops := Hops(NetAsns(wire, count, asnLen));
      ghost var written := Encode(done);
      var i, offset, at := 0, cursor, 0;
      assert done + hops[..0] == done;
      while i < count
        invariant i <= count && |data| == cursor + 5 * count && offset == cursor + 5 * i && at == WireLen(i, asnLen)
        invariant written == Encode(done + hops[..i]) && |written| == offset && data[..offset] == written
        invariant segCnt == |done| + i && originOffset == OriginOffset(done + hops[..i])
      {
        NetAsnsAt(wire, count, asnLen, i);
        var hop := Hop(NetAsn(wire[at..], asnLen));
        HopStep(done, hops, i);
        WriteAt(offset, EncodeSeg(hop));
        written := written + EncodeSeg(hop);
        originOffset := offset;
        offset := offset + 5;
        at := at + asnLen;
        segCnt := segCnt + 1;
        i := i + 1;
      }
      assert hops[..i] == hops && data[..offset] == data;
    }

    /** The inner loop over a set: its ASNs are written behind its header. */
    method WriteGroup(kind: Kind, wire: seq<Byte>, count: nat, asnLen: nat, cursor: nat, ghost done: Segs)
      requires AsnLen(asnLen) && |wire| >= WireLen(count, asnLen) && count < 256
      requires |data| == cursor + 2 + 4 * count && data[..cursor] == Encode(done) && cursor == |Encode(done)|
      requires segCnt == |done| && originOffset == OriginOffset(done)
      modifies this
      ensures Holds(done + [Group(kind, NetAsns(wire, count, asnLen))])
    {
      ghost var asns := NetAsns(wire, count, asnLen);
      ghost var header := Encode(done) + [KindByte(kind), count];
      WriteAt(cursor, [KindByte(kind), count]);
      originOffset := cursor;
      WriteWords(wire, count, asnLen, cursor + 2, header);
      GroupWritten(done, kind, asns);
      segCnt := segCnt + 1;
    }

    /** The ASNs of a set, one after the other behind what is written. */
    method WriteWords(wire: seq<Byte>, count: nat, asnLen: nat, from: nat, ghost header: seq<Byte>)
      requires AsnLen(asnLen) && |wire| >= WireLen(count, asnLen)
      requires |data| == from + 4 * count && data[..from] == header && |header| == from
      modifies this`data
      ensures data == header + Words(NetAsns(wire, count, asnLen))
    {
      ghost var asns, written := NetAsns(wire, count, asnLen), header;
      var i, at, offset := 0, 0, from;
      while i < count
        invariant i <= count && |data| == from + 4 * count && at == WireLen(i, asnLen)
        invariant written == header + Words(asns[..i]) && offset == |written| == from + 4 * i
        invariant data[..offset] == written
      {
        NetAsnsAt(wire, count, asnLen, i);
        var word := Word(NetAsn(wire[at..], asnLen));
        NextWord(header, asns, i);
        WriteAt(offset, word);
        written := written + word;
        offset := offset + 4;
        at := at + asnLen;
        i := i + 1;
      }
      assert asns[..i] == asns && data[..offset] == data;
    }

    /** bgpstream_as_path_populate. TooLong is where the source's assertion stops the program. */
    method Populate(wire: seq<Byte>, asnLen: nat) returns (outcome: Outcome, ghost segs: Segs)
      requires AsnLen(asnLen)
      modifies this
      ensures (segs, outcome) == Flatten(wire, asnLen, [])
      ensures outcome != TooLong ==> Holds(segs)
    {
      var at := 0;
      Clear();
      segs := [];
      assert wire[0..] == wire;
      while at < |wire|
        invariant at <= |wire| && Holds(segs)
        invariant Flatten(wire[at..], asnLen, segs) == Flatten(wire, asnLen, [])
      {
        var rest := wire[at..];
        if !WireType(rest[0]) || |rest| < 2 || AS_HEADER_SIZE + WireLen(rest[1], asnLen) > |rest| {
          return Corrupted, segs;
        }
        FlattenFront(rest, asnLen, segs);
        var count: nat := rest[1];
        var newLen := |data| + FrontSize(rest);
        if newLen >= DATA_LIMIT {
          return TooLong, segs;
        }
        WriteFront(rest, asnLen, newLen, segs);
        segs := segs + FlattenSeg(rest[0], FrontAsns(rest, asnLen));
        at := at + 2 + WireLen(count, asnLen);
        assert wire[at..] == rest[2 + WireLen(count, asnLen)..];
      }
      outcome := Populated;
    }

    /** The buffer grows by one wire segment, which is written behind what is there. */
    method WriteFront(rest: seq<Byte>, asnLen: nat, newLen: nat, ghost segs: Segs)
      requires AsnLen(asnLen) && Readable(rest, asnLen) && Holds(segs)
      requires newLen == |Encode(segs)| + FrontSize(rest)
      modifies this
      ensures Holds(segs + FlattenSeg(rest[0], FrontAsns(rest, asnLen)))
    {
      var cursor := |data|;
      data := data + Filler(newLen - cursor);
      if rest[0] == AS_SEQUENCE {
        WriteHops(rest[2..], rest[1], asnLen, cursor, segs);
      } else {
        WriteGroup(GroupKind(rest[0]), rest[2..], rest[1], asnLen, cursor, segs);
      }
    }
  }

  lemma {:induction false} HopsSize(asns: seq<Asn>)
    ensures |Encode(Hops(asns))| == 5 * |asns|
  {
    if asns != [] {
      HopsSize(asns[1..]);
      EncodeHead(Hops(asns));
      assert Hops(asns)[1..] == Hops(asns[1..]);
    } else {
      assert Encode([]) == [];
    }
  }

  lemma SegsSize(t: Byte, asns: AsnList)
    ensures |Encode(FlattenSeg(t, asns))| == if t == AS_SEQUENCE then 5 * |asns| else 2 + 4 * |asns|
  {
    if t == AS_SEQUENCE {
      HopsSize(asns);
    } else {
      EncodeOne(Group(GroupKind(t), asns));
    }
  }

  function FrontSize(rest: seq<Byte>): nat
    requires |rest| >= 2
  {
    if rest[0] == AS_SEQUENCE then 5 * (rest[1] as int) else 2 + 4 * (rest[1] as int)
  }

  /** What the segment at the front of rest adds. */
  lemma FrontAdds(rest: seq<Byte>, asnLen: nat, segs: Segs)
    requires AsnLen(asnLen) && Readable(rest, asnLen)
    ensures |Encode(segs + FlattenSeg(rest[0], FrontAsns(rest, asnLen)))| == |Encode(segs)| + FrontSize(rest)
  {
    EncodeMonotone(segs, FlattenSeg(rest[0], FrontAsns(rest, asnLen)));
    SegsSize(rest[0], FrontAsns(rest, asnLen));
  }

  /** Populating goes on behind it. */
  lemma FlattenFront(rest: seq<Byte>, asnLen: nat, segs: Segs)
    requires AsnLen(asnLen) && Readable(rest, asnLen)
    ensures Flatten(rest, asnLen, segs) ==
      if |Encode(segs)| + FrontSize(rest) >= DATA_LIMIT then (segs, TooLong)
      else Flatten(rest[2 + WireLen(rest[1], asnLen)..], asnLen, segs + FlattenSeg(rest[0], FrontAsns(rest, asnLen)))
  {
    FrontAdds(rest, asnLen, segs);
    FlattenUnfolded(rest, asnLen, segs);
  }
}
