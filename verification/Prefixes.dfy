/** Addresses as byte strings, prefixes, and the bit strings ("keys") they denote.

    The patricia tree reads addresses byte by byte and bit by bit; this module gives the
    meaning of those reads (`Bits`), proves the byte-wise comparisons against it, and states
    exactly when the containment test of the prefix utilities is the prefix order on keys. */
module Prefixes {

  type Key = seq<bool>

  datatype Version = Unknown | V4 | V6

  // allowed_matches, lib/utils/bgpstream_utils_pfx.h:29-32
  const MATCH_ANY: nat := 0
  const MATCH_EXACT: nat := 1
  const MATCH_MORE: nat := 2
  const MATCH_LESS: nat := 3

  datatype Prefix = Prefix(version: Version, addr: seq<bv8>, maskLen: nat, allowed: nat)

  function Width(v: Version): nat
  {
    match v
    case Unknown => 0
    case V4 => 32
    case V6 => 128
  }

  /** What every caller of the library hands over: a known version, an address of that
      version's size, and a mask no longer than the address. */
  predicate WellFormed(p: Prefix)
  {
    !p.version.Unknown? && 8 * |p.addr| == Width(p.version) && p.maskLen <= Width(p.version)
  }

  /** `0x80 >> j`. */
  function Mask(j: nat): bv8
    requires j < 8
  {
    if j == 0 then 0x80 else if j == 1 then 0x40 else if j == 2 then 0x20 else if j == 3 then 0x10
    else if j == 4 then 0x08 else if j == 5 then 0x04 else if j == 6 then 0x02 else 0x01
  }

  /** `BIT_TEST(b, 0x80 >> j)`. */
  predicate ByteBit(b: bv8, j: nat)
    requires j < 8
  {
    b & Mask(j) != 0
  }

  /** `BIT_TEST(addr[i >> 3], 0x80 >> (i & 0x07))`. */
  predicate AddrBit(addr: seq<bv8>, i: nat)
    requires i < 8 * |addr|
  {
    ByteBit(addr[i / 8], i % 8)
  }

  function Bits(addr: seq<bv8>): (k: Key)
    ensures |k| == 8 * |addr|
    ensures forall i :: 0 <= i < |k| ==> k[i] == AddrBit(addr, i)
  {
    seq(8 * |addr|, i requires 0 <= i < 8 * |addr| => AddrBit(addr, i))
  }

  /** The network part of a prefix: its first mask_len bits. */
  function KeyOf(p: Prefix): Key
    requires WellFormed(p)
  {
    Bits(p.addr)[..p.maskLen]
  }

  // ---------- byte-wise comparison ----------

  lemma XorBit(x: bv8, y: bv8, j: nat)
    requires j < 8
    ensures ByteBit(x ^ y, j) == (ByteBit(x, j) != ByteBit(y, j))
  {
    XorOneBit(x, y, Mask(j));
  }

  lemma XorOneBit(x: bv8, y: bv8, m: bv8)
    requires m != 0 && m & (m - 1) == 0
    ensures (x ^ y) & m != 0 <==> ((x & m != 0) != (y & m != 0))
  {
  }

  lemma ZeroHasNoBits(r: bv8)
    ensures r == 0 <==> forall j :: 0 <= j < 8 ==> !ByteBit(r, j)
  {
    if r != 0 {
      assert ByteBit(r, 0) || ByteBit(r, 1) || ByteBit(r, 2) || ByteBit(r, 3)
        || ByteBit(r, 4) || ByteBit(r, 5) || ByteBit(r, 6) || ByteBit(r, 7);
    }
  }

  /** A prefix is of 4 or 16 bytes, its mask no longer, ... */
  lemma WellFormedMeans(p: Prefix)
    ensures WellFormed(p) <==>
      || (p.version == V4 && |p.addr| == 4 && p.maskLen <= 32)
      || (p.version == V6 && |p.addr| == 16 && p.maskLen <= 128)
  {
  }

  /** ... and its bits are those of its bytes, the most significant of each first. */
  lemma BitsMean(addr: seq<bv8>, i: nat, j: nat)
    requires i < |addr| && j < 8
    ensures Bits(addr)[8 * i + j] <==> addr[i] & (0x80 >> j) != 0
  {
    assert (8 * i + j) / 8 == i && (8 * i + j) % 8 == j;
    MaskMeans(j);
  }

  lemma MaskMeans(j: nat)
    requires j < 8
    ensures Mask(j) == 0x80 >> j
  {
  }

  lemma XorZero(x: bv8, y: bv8)
    ensures x ^ y == 0 <==> x == y
  {
  }

  lemma SameByte(x: bv8, y: bv8)
    ensures x == y <==> forall j :: 0 <= j < 8 ==> ByteBit(x, j) == ByteBit(y, j)
  {
    if forall j :: 0 <= j < 8 ==> ByteBit(x, j) == ByteBit(y, j) {
      var r := x ^ y;
      forall j | 0 <= j < 8
        ensures !ByteBit(r, j)
      {
        XorBit(x, y, j);
      }
      ZeroHasNoBits(r);
      XorZero(x, y);
    }
  }

  lemma SameBytesSameBits(a: seq<bv8>, b: seq<bv8>)
    requires |a| == |b|
    ensures a == b <==> Bits(a) == Bits(b)
  {
    if Bits(a) == Bits(b) {
      forall i | 0 <= i < |a|
        ensures a[i] == b[i]
      {
        SameByte(a[i], b[i]);
        forall j | 0 <= j < 8
          ensures ByteBit(a[i], j) == ByteBit(b[i], j)
        {
          assert Bits(a)[8 * i + j] == AddrBit(a, 8 * i + j);
          assert Bits(b)[8 * i + j] == AddrBit(b, 8 * i + j);
        }
      }
    }
  }

  /** The first place, up to checkBit, where two addresses differ: whole bytes are skipped
      while their exclusive-or is zero, then one byte is searched bit by bit. */
  method FirstDifference(addr: seq<bv8>, test: seq<bv8>, checkBit: nat) returns (differBit: nat)
    requires |addr| == |test| && checkBit <= 8 * |addr|
    ensures differBit <= checkBit
    ensures Bits(addr)[..differBit] == Bits(test)[..differBit]
    ensures differBit < checkBit ==> Bits(addr)[differBit] != Bits(test)[differBit]
  {
    differBit := 0;
    var i := 0;
    while i * 8 < checkBit
      invariant differBit == 8 * i <= 8 * |addr|
      invariant forall k :: 0 <= k < 8 * i ==> Bits(addr)[k] == Bits(test)[k]
    {
      var r := addr[i] ^ test[i];
      if r == 0 {
        XorZero(addr[i], test[i]);
        forall k | 8 * i <= k < 8 * i + 8
          ensures Bits(addr)[k] == Bits(test)[k]
        {
          assert k / 8 == i && Bits(addr)[k] == ByteBit(addr[i], k % 8);
          assert Bits(test)[k] == ByteBit(test[i], k % 8);
        }
        differBit := (i + 1) * 8;
        i := i + 1;
        continue;
      }
      ZeroHasNoBits(r);
      var j := 0;
      while j < 8
        invariant 0 <= j <= 8
        invariant forall k :: 0 <= k < j ==> !ByteBit(r, k)
      {
        if ByteBit(r, j) {
          break;
        }
        j := j + 1;
      }
      assert j < 8;
      differBit := i * 8 + j;
      forall k | 8 * i <= k <= differBit
        ensures Bits(addr)[k] == Bits(test)[k] <==> k < differBit
      {
        XorBit(addr[i], test[i], k - 8 * i);
        assert k / 8 == i && k % 8 == k - 8 * i;
      }
      break;
    }
    if differBit > checkBit {
      differBit := checkBit;
    }
  }

  /** A byte shifted so that only its first m bits survive: `(-1) << (8 - m)`. */
  function HighBits(m: nat): bv8
    requires m < 8
  {
    if m == 0 then 0x00 else if m == 1 then 0x80 else if m == 2 then 0xC0 else if m == 3 then 0xE0
    else if m == 4 then 0xF0 else if m == 5 then 0xF8 else if m == 6 then 0xFC else 0xFE
  }

  predicate SameHighBits(x: bv8, y: bv8, m: nat)
    requires m < 8
  {
    forall j :: 0 <= j < m ==> ByteBit(x, j) == ByteBit(y, j)
  }

  lemma MaskedByte(x: bv8, y: bv8, m: nat)
    requires m < 8
    ensures x & HighBits(m) == y & HighBits(m) <==> SameHighBits(x, y, m)
  {
    var highX, highY := x & HighBits(m), y & HighBits(m);
    SameByte(highX, highY);
    if SameHighBits(x, y, m) {
      forall j | 0 <= j < 8
        ensures ByteBit(highX, j) == ByteBit(highY, j)
      {
        HighBit(x, m, j);
        HighBit(y, m, j);
      }
    } else {
      var j :| 0 <= j < m && ByteBit(x, j) != ByteBit(y, j);
      HighBit(x, m, j);
      HighBit(y, m, j);
    }
  }

  /** The fast equality of search_exact: whole bytes first, then one masked byte. */
  predicate CompWithMask(a: seq<bv8>, b: seq<bv8>, mask: nat)
    requires |a| == |b| && mask <= 8 * |a|
  {
    a[..mask / 8] == b[..mask / 8]
    && (mask % 8 == 0 || a[mask / 8] & HighBits(mask % 8) == b[mask / 8] & HighBits(mask % 8))
  }

  /** The bits up to mask are those of the whole bytes and the leading bits of one more. */
  lemma BitsByByte(a: seq<bv8>, b: seq<bv8>, mask: nat)
    requires |a| == |b| && mask <= 8 * |a| && mask % 8 != 0
    ensures Bits(a)[..mask] == Bits(b)[..mask] <==>
      Bits(a)[..8 * (mask / 8)] == Bits(b)[..8 * (mask / 8)]
      && SameHighBits(a[mask / 8], b[mask / 8], mask % 8)
  {
    var n := 8 * (mask / 8);
    LastBits(a, mask);
    LastBits(b, mask);
    SplitEqual(Bits(a)[..mask], Bits(b)[..mask], n);
    assert Bits(a)[..mask][..n] == Bits(a)[..n] && Bits(b)[..mask][..n] == Bits(b)[..n];
  }

  lemma CompWithMaskIsBitwise(a: seq<bv8>, b: seq<bv8>, mask: nat)
    requires |a| == |b| && mask <= 8 * |a|
    ensures CompWithMask(a, b, mask) <==> Bits(a)[..mask] == Bits(b)[..mask]
  {
    var n, m := mask / 8, mask % 8;
    SameBytesSameBits(a[..n], b[..n]);
    PrefixBits(a, n);
    PrefixBits(b, n);
    if m != 0 {
      MaskedByte(a[n], b[n], m);
      BitsByByte(a, b, mask);
    }
  }

  lemma SplitEqual(x: Key, y: Key, n: nat)
    requires |x| == |y| && n <= |x|
    ensures x == y <==> x[..n] == y[..n] && forall j :: 0 <= j < |x| - n ==> x[n..][j] == y[n..][j]
  {
    assert x == x[..n] + x[n..] && y == y[..n] + y[n..];
    if forall j :: 0 <= j < |x| - n ==> x[n..][j] == y[n..][j] {
      assert x[n..] == y[n..];
    }
  }

  lemma PrefixBits(a: seq<bv8>, n: nat)
    requires n <= |a|
    ensures Bits(a[..n]) == Bits(a)[..8 * n]
  {
  }

  lemma LastBits(a: seq<bv8>, mask: nat)
    requires mask % 8 != 0 && mask <= 8 * |a|
    ensures |Bits(a)[..mask][8 * (mask / 8)..]| == mask % 8
    ensures forall j :: 0 <= j < mask % 8 ==> Bits(a)[..mask][8 * (mask / 8)..][j] == ByteBit(a[mask / 8], j)
  {
    var n := mask / 8;
    forall j | 0 <= j < mask % 8
      ensures Bits(a)[..mask][8 * n..][j] == ByteBit(a[n], j)
    {
      assert (8 * n + j) / 8 == n && (8 * n + j) % 8 == j;
    }
  }

  // ---------- containment ----------

  function MaskByte(x: bv8, i: nat, len: nat): bv8
  {
    if 8 * i + 8 <= len then x else if 8 * i <= len then x & HighBits(len - 8 * i) else 0
  }

  /** bgpstream_addr_mask on a copy: bytes wholly inside the mask stay, the byte the mask cuts
      keeps its high bits, the rest become zero. */
  function MaskAddr(addr: seq<bv8>, len: nat): (m: seq<bv8>)
    requires len <= 8 * |addr|
    ensures |m| == |addr|
  {
    seq(|addr|, i requires 0 <= i < |addr| => MaskByte(addr[i], i, len))
  }

  lemma MaskedBits(addr: seq<bv8>, len: nat)
    requires len <= 8 * |addr|
    ensures forall k :: 0 <= k < 8 * |addr| ==> Bits(MaskAddr(addr, len))[k] == (k < len && Bits(addr)[k])
  {
    forall k | 0 <= k < 8 * |addr|
      ensures Bits(MaskAddr(addr, len))[k] == (k < len && Bits(addr)[k])
    {
      MaskedBit(addr[k / 8], k / 8, len, k % 8);
    }
  }

  lemma MaskedBit(x: bv8, i: nat, len: nat, j: nat)
    requires j < 8
    ensures ByteBit(MaskByte(x, i, len), j) == (8 * i + j < len && ByteBit(x, j))
  {
    if 8 * i <= len < 8 * i + 8 {
      HighBit(x, len - 8 * i, j);
    } else if len < 8 * i {
      ZeroHasNoBits(0);
    }
  }

  lemma HighBit(x: bv8, m: nat, j: nat)
    requires m < 8 && j < 8
    ensures ByteBit(x & HighBits(m), j) == (j < m && ByteBit(x, j))
  {
    assert HighBits(m) & Mask(j) == if j < m then Mask(j) else 0;
    assert (x & HighBits(m)) & Mask(j) == x & (HighBits(m) & Mask(j));
    assert x & 0 == 0;
  }

  /** bgpstream_pfx_contains: mask a copy of the inner address to the outer length and compare
      it with the whole outer address. */
  predicate PfxContains(outer: Prefix, inner: Prefix)
    requires WellFormed(outer) && WellFormed(inner)
  {
    if outer.version != inner.version || outer.maskLen > inner.maskLen then false
    else MaskAddr(inner.addr, outer.maskLen) == outer.addr
  }

  /** No bit set after the mask. bgpstream_str2pfx only builds such prefixes. */
  predicate HostBitsClear(p: Prefix)
    requires WellFormed(p)
  {
    forall i :: p.maskLen <= i < Width(p.version) ==> !Bits(p.addr)[i]
  }

  /** Containment is the prefix order on keys exactly for outer prefixes without host bits; an outer
      prefix with host bits set contains nothing, not even itself. */
  lemma ContainsIsKeyOrder(outer: Prefix, inner: Prefix)
    requires WellFormed(outer) && WellFormed(inner)
    ensures PfxContains(outer, inner)
      <==> outer.version == inner.version && KeyOf(outer) <= KeyOf(inner) && HostBitsClear(outer)
  {
    if outer.version == inner.version && outer.maskLen <= inner.maskLen {
      var len := outer.maskLen;
      var masked := MaskAddr(inner.addr, len);
      MaskedBits(inner.addr, len);
      SameBytesSameBits(masked, outer.addr);
      if masked == outer.addr {
        forall k | 0 <= k < len
          ensures KeyOf(outer)[k] == KeyOf(inner)[k]
        {
          assert Bits(masked)[k] == Bits(inner.addr)[k];
        }
      }
      if KeyOf(outer) <= KeyOf(inner) && HostBitsClear(outer) {
        forall k | 0 <= k < 8 * |masked|
          ensures Bits(masked)[k] == Bits(outer.addr)[k]
        {
          if k < len {
            assert KeyOf(outer)[k] == KeyOf(inner)[k];
          }
        }
      }
    }
  }
}
