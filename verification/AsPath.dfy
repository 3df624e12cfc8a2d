/** AS paths as packed bytes: the encoding of segments, its parser, and what the fields segment
    count and origin offset mean. Integers are stored in the host's order, here little-endian. */
module AsPath {
  import opened Wrappers
  import opened Sequences

  type Byte = x: nat | x < 256 witness 0
  type Asn = x: nat | x < 0x1_0000_0000 witness 0

  // ---------- host integers ----------

  function Word(a: Asn): (w: seq<Byte>)
    ensures |w| == 4
  {
    [a % 256, a / 256 % 256, a / 65536 % 256, a / 16777216]
  }

  function Unword(w: seq<Byte>): (a: Asn)
    requires |w| == 4
  {
    w[0] as int + 256 * (w[1] as int) + 65536 * (w[2] as int) + 16777216 * (w[3] as int)
  }

  lemma Digit(q: nat, r: Byte)
    ensures (256 * q + r) / 256 == q && (256 * q + r) % 256 == r
  {
  }

  /** The four digits of a 32-bit number to the base 256, lowest first. */
  lemma Digits(b0: Byte, b1: Byte, b2: Byte, b3: Byte)
    ensures var a := b0 as int + 256 * (b1 as int) + 65536 * (b2 as int) + 16777216 * (b3 as int);
      a % 256 == b0 && a / 256 % 256 == b1 && a / 65536 % 256 == b2 && a / 16777216 == b3
  {
    var a3: nat, a2: nat := b3, 256 * (b3 as int) + b2 as int;
    var a1: nat := 65536 * (b3 as int) + 256 * (b2 as int) + b1 as int;
    var a := 256 * a1 + b0;
    Digit(a1, b0);
    Digit(a2, b1);
    Digit(a3, b2);
    assert a / 65536 == a / 256 / 256 && a / 16777216 == a / 256 / 256 / 256;
  }

  /** Putting the digits of a number together gives it back. */
  lemma FromDigits(a: nat)
    ensures a == a % 256 + 256 * (a / 256 % 256) + 65536 * (a / 65536 % 256) + 16777216 * (a / 16777216)
  {
    assert a / 65536 == a / 256 / 256 && a / 16777216 == a / 65536 / 256;
  }

  lemma WordInverse(a: Asn)
    ensures Unword(Word(a)) == a
  {
    FromDigits(a);
  }

  lemma UnwordInverse(w: seq<Byte>)
    requires |w| == 4
    ensures Word(Unword(w)) == w
  {
    Digits(w[0], w[1], w[2], w[3]);
  }

  function Words(asns: seq<Asn>): (d: seq<Byte>)
    ensures |d| == 4 * |asns|
  {
    if asns == [] then [] else Word(asns[0]) + Words(asns[1..])
  }

  function Unwords(d: seq<Byte>): (asns: seq<Asn>)
    requires |d| % 4 == 0
    ensures |asns| == |d| / 4
  {
    if d == [] then [] else [Unword(d[..4])] + Unwords(d[4..])
  }

  lemma {:induction false} WordsInverse(asns: seq<Asn>)
    ensures Unwords(Words(asns)) == asns
  {
    if asns != [] {
      WordInverse(asns[0]);
      WordsInverse(asns[1..]);
      assert Words(asns)[..4] == Word(asns[0]) && Words(asns)[4..] == Words(asns[1..]);
    }
  }

  lemma {:induction false} UnwordsInverse(d: seq<Byte>)
    requires |d| % 4 == 0
    ensures Words(Unwords(d)) == d
  {
    if d != [] {
      UnwordInverse(d[..4]);
      UnwordsInverse(d[4..]);
      assert d == d[..4] + d[4..];
      assert Unwords(d)[1..] == Unwords(d[4..]);
    }
  }

  lemma {:induction false} WordsAppend(asns: seq<Asn>, a: Asn)
    ensures Words(asns + [a]) == Words(asns) + Word(a)
  {
    if asns == [] {
      assert [] + [a] == [a] && [a][1..] == [];
    } else {
      WordsAppend(asns[1..], a);
      assert (asns + [a])[1..] == asns[1..] + [a];
      assert Word(asns[0]) + (Words(asns[1..]) + Word(a)) == Words(asns) + Word(a);
    }
  }

  // ---------- segments ----------

  datatype Kind = AsSet | ConfedSet | ConfedSeq

  /** A group's size is one byte. */
  type AsnList = asns: seq<Asn> | |asns| < 256

  /** A single AS, or a set (or confederation sequence) kept whole. */
  datatype Seg = Hop(asn: Asn) | Group(kind: Kind, asns: AsnList)

  type Segs = seq<Seg>

  const SEG_ASN: Byte := 1

  function KindByte(k: Kind): Byte
  {
    match k case AsSet => 2 case ConfedSet => 3 case ConfedSeq => 4
  }

  function KindOf(b: Byte): Option<Kind>
  {
    if b == 2 then Some(AsSet) else if b == 3 then Some(ConfedSet) else if b == 4 then Some(ConfedSeq) else None
  }

  /** SIZEOF_SEG. */
  function Size(s: Seg): nat
  {
    match s case Hop(_) => 5 case Group(_, asns) => 2 + 4 * |asns|
  }

  function EncodeSeg(s: Seg): (d: seq<Byte>)
    ensures |d| == Size(s)
  {
    match s
    case Hop(asn) => [SEG_ASN] + Word(asn)
    case Group(kind, asns) => [KindByte(kind), |asns|] + Words(asns)
  }

  function Chunks(segs: Segs): (chunks: seq<seq<Byte>>)
    ensures |chunks| == |segs| && forall i :: 0 <= i < |segs| ==> chunks[i] == EncodeSeg(segs[i])
  {
    seq(|segs|, i requires 0 <= i < |segs| => EncodeSeg(segs[i]))
  }

  function Encode(segs: Segs): seq<Byte>
  {
    Flat(Chunks(segs))
  }

  lemma EncodeConcat(a: Segs, b: Segs)
    ensures Encode(a + b) == Encode(a) + Encode(b)
  {
    assert Chunks(a + b) == Chunks(a) + Chunks(b);
    FlatConcat(Chunks(a), Chunks(b));
  }

  lemma EncodeOne(s: Seg)
    ensures Encode([s]) == EncodeSeg(s)
  {
    assert Chunks([s]) == [EncodeSeg(s)];
    FlatOne(EncodeSeg(s));
  }

  lemma EncodeAppend(segs: Segs, s: Seg)
    ensures Encode(segs + [s]) == Encode(segs) + EncodeSeg(s)
  {
    EncodeConcat(segs, [s]);
    EncodeOne(s);
  }

  lemma EncodeHead(segs: Segs)
    requires segs != []
    ensures Encode(segs) == EncodeSeg(segs[0]) + Encode(segs[1..])
  {
    assert segs == [segs[0]] + segs[1..];
    EncodeConcat([segs[0]], segs[1..]);
    EncodeOne(segs[0]);
  }

  /** The segment at the front of d. */
  function ParseSeg(d: seq<Byte>): (r: Option<Seg>)
    ensures r.Some? ==> Size(r.value) <= |d|
  {
    if d == [] then None
    else if d[0] == SEG_ASN then if |d| < 5 then None else Some(Hop(Unword(d[1..5])))
    else if KindOf(d[0]) == None || |d| < 2 || |d| < 2 + 4 * (d[1] as int) then None
    else Some(Group(KindOf(d[0]).value, Unwords(d[2..2 + 4 * (d[1] as int)])))
  }

  function Parse(d: seq<Byte>): (r: Option<Segs>)
  {
    if d == [] then Some([])
    else
      match ParseSeg(d)
      case None => None
      case Some(s) =>
        match Parse(d[Size(s)..])
        case None => None
        case Some(rest) => Some([s] + rest)
  }

  lemma ParseSegEncoded(s: Seg, rest: seq<Byte>)
    ensures ParseSeg(EncodeSeg(s) + rest) == Some(s)
  {
    var d := EncodeSeg(s) + rest;
    match s
    case Hop(asn) =>
      WordInverse(asn);
      assert d[1..5] == Word(asn);
    case Group(kind, asns) =>
      WordsInverse(asns);
      assert d[2..2 + 4 * (d[1] as int)] == Words(asns);
  }

  lemma EncodeParsedSeg(d: seq<Byte>)
    requires ParseSeg(d).Some?
    ensures EncodeSeg(ParseSeg(d).value) == d[..Size(ParseSeg(d).value)]
  {
    if d[0] == SEG_ASN {
      UnwordInverse(d[1..5]);
      assert d[..5] == [d[0]] + d[1..5];
    } else {
      var n := 2 + 4 * (d[1] as int);
      UnwordsInverse(d[2..n]);
      assert d[..n] == [d[0], d[1]] + d[2..n];
    }
  }

  /** Parsing inverts encoding ... */
  lemma {:induction false} ParseEncoded(segs: Segs)
    ensures Parse(Encode(segs)) == Some(segs)
  {
    if segs == [] {
      assert Encode(segs) == [];
    } else {
      var d, rest := Encode(segs), Encode(segs[1..]);
      EncodeHead(segs);
      ParseSegEncoded(segs[0], rest);
      ParseEncoded(segs[1..]);
      assert d[Size(segs[0])..] == rest && d != [];
      assert segs == [segs[0]] + segs[1..];
    }
  }

  /** ... and encoding inverts parsing. */
  lemma {:induction false} EncodeParsed(d: seq<Byte>)
    requires Parse(d).Some?
    ensures Encode(Parse(d).value) == d
  {
    if d == [] {
      assert Parse(d) == Some([]) && Chunks([]) == [];
    } else {
      var s := ParseSeg(d).value;
      EncodeParsedSeg(d);
      EncodeParsed(d[Size(s)..]);
      ConcatParsed(s, Parse(d[Size(s)..]).value, d);
    }
  }

  lemma ConcatParsed(s: Seg, rest: Segs, d: seq<Byte>)
    requires Size(s) <= |d| && EncodeSeg(s) == d[..Size(s)] && Encode(rest) == d[Size(s)..]
    ensures Encode([s] + rest) == d
  {
    EncodeConcat([s], rest);
    EncodeOne(s);
    assert d == d[..Size(s)] + d[Size(s)..];
  }

  // ---------- offsets ----------

  /** Where segment i starts. */
  function Offset(segs: Segs, i: nat): nat
    requires i <= |segs|
  {
    |Encode(segs[..i])|
  }

  lemma SplitAt(segs: Segs, i: nat)
    requires i <= |segs|
    ensures Encode(segs) == Encode(segs[..i]) + Encode(segs[i..])
    ensures Offset(segs, i) <= |Encode(segs)| && Encode(segs)[Offset(segs, i)..] == Encode(segs[i..])
  {
    assert segs == segs[..i] + segs[i..];
    EncodeConcat(segs[..i], segs[i..]);
  }

  lemma OffsetStep(segs: Segs, i: nat)
    requires i < |segs|
    ensures Offset(segs, i + 1) == Offset(segs, i) + Size(segs[i])
  {
    assert segs[..i + 1] == segs[..i] + [segs[i]];
    EncodeAppend(segs[..i], segs[i]);
  }

  /** The bytes from segment i on start with that segment. */
  lemma SegAt(segs: Segs, i: nat)
    requires i < |segs|
    ensures Encode(segs[i..]) == EncodeSeg(segs[i]) + Encode(segs[i + 1..])
  {
    EncodeHead(segs[i..]);
    assert segs[i..][0] == segs[i] && segs[i..][1..] == segs[i + 1..];
  }

  const NO_ORIGIN: nat := 65535

  /** Where the origin segment, the last one, starts. */
  function OriginOffset(segs: Segs): nat
  {
    if segs == [] then NO_ORIGIN else Offset(segs, |segs| - 1)
  }

  lemma OriginAppend(segs: Segs, s: Seg)
    ensures OriginOffset(segs + [s]) == |Encode(segs)|
  {
    assert (segs + [s])[..|segs|] == segs;
  }
}
