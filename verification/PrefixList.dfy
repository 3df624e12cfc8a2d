/** Reading a list of prefixes from a bounded stream: the inverse of the NLRI encoding of section
    4.3 of RFC 4271. */
module PrefixList {
  import opened Wrappers
  import opened Sequences
  import opened AsPath

  const MAX_PREFIXES: nat := 2000
  const ADDRESS_SIZE: nat := 16

  function Zeros(n: nat): (d: seq<Byte>)
    ensures |d| == n && forall i :: 0 <= i < n ==> d[i] == 0
  {
    seq(n, _ => 0)
  }

  /** n bytes from the front of d, zeros past its end. */
  function Fetch(d: seq<Byte>, n: nat): (r: seq<Byte>)
    ensures |r| == n
  {
    if n <= |d| then d[..n] else d + Zeros(n - |d|)
  }

  /** struct mstream: a cursor over bytes. */
  class MStream {
    const start: seq<Byte>
    var position: nat

    ghost predicate Valid()
      reads this
    {
      position <= |start|
    }

    /** What is still to be read. */
    ghost function Rest(): seq<Byte>
      requires Valid()
      reads this
    {
      start[position..]
    }

    constructor (buffer: seq<Byte>)
      ensures Valid() && Rest() == buffer && start == buffer
    {
      start, position := buffer, 0;
    }

    /** mstream_can_read. */
    method CanRead() returns (n: nat)
      requires Valid()
      ensures n == |Rest()|
    {
      n := |start| - position;
    }

    /** mstream_get: reading past the end gives zeros and leaves the cursor at the end. */
    method Get(n: nat) returns (d: seq<Byte>, got: nat)
      requires Valid()
      modifies this
      ensures Valid() && d == Fetch(old(Rest()), n)
      ensures got == Least(n, |old(Rest())|) && Rest() == old(Rest())[got..]
    {
      var room := |start| - position;
      if room >= n {
        d := start[position..position + n];
        position := position + n;
        got := n;
      } else {
        d := start[position..position + room] + Zeros(n - room);
        position := |start|;
        got := room;
      }
    }

    /** mstream_getc. */
    method Getc() returns (b: Byte)
      requires Valid()
      modifies this
      ensures Valid() && b == Fetch(old(Rest()), 1)[0] && Rest() == old(Rest())[Least(1, |old(Rest())|)..]
    {
      var d, _ := Get(1);
      b := d[0];
    }

    /** mstream_copy: the next n bytes, or as many as there are, as a stream of their own. */
    method Copy(n: nat) returns (c: MStream)
      requires Valid()
      modifies this
      ensures Valid() && fresh(c) && c.Valid()
      ensures var got := Least(n, |old(Rest())|); c.Rest() == old(Rest())[..got] && Rest() == old(Rest())[got..]
    {
      var from := position;
      var _, got := Get(n);
      c := new MStream(start[from..from + got]);
    }
  }

  // ---------- the encoding ----------

  function Octets(len: Byte): nat
  {
    (len + 7 as int) / 8
  }

  /** A prefix on the wire: its length in bits and the octets that hold them. */
  datatype Nlri = Nlri(len: Byte, addr: seq<Byte>)

  predicate Proper(p: Nlri)
  {
    |p.addr| == Octets(p.len)
  }

  ghost predicate AllProper(ps: seq<Nlri>)
  {
    forall p :: p in ps ==> Proper(p)
  }

  function EncodeNlri(p: Nlri): seq<Byte>
  {
    [p.len] + p.addr
  }

  function EncodeList(ps: seq<Nlri>): seq<Byte>
  {
    if ps == [] then [] else EncodeNlri(ps[0]) + EncodeList(ps[1..])
  }

  /** The front of d is cut short: its octets do not all follow. */
  predicate Truncated(d: seq<Byte>)
  {
    d != [] && |d| - 1 < Octets(d[0])
  }

  /** The complete prefixes of d, and what is left: nothing, or a truncated one. */
  function Split(d: seq<Byte>): (seq<Nlri>, seq<Byte>)
  {
    if d == [] || Truncated(d) then ([], d)
    else
      var n := 1 + Octets(d[0]);
      var (more, rest) := Split(d[n..]);
      ([Nlri(d[0], d[1..n])] + more, rest)
  }

  /** Splitting takes bytes apart completely, and stops only at the end or at a truncated prefix. */
  lemma {:induction false} SplitExact(d: seq<Byte>)
    ensures var (ps, rest) := Split(d); AllProper(ps) && EncodeList(ps) + rest == d && (rest == [] || Truncated(rest))
    decreases |d|
  {
    if d == [] || Truncated(d) {
      assert [] + d == d;
    } else {
      var n := 1 + Octets(d[0]);
      SplitExact(d[n..]);
      var (more, rest) := Split(d[n..]);
      var p := Nlri(d[0], d[1..n]);
      FrontPrefix(d, n, p);
      EncodeFront(p, more, rest, d[n..]);
      InFront(p, more);
    }
  }

  lemma FrontPrefix(d: seq<Byte>, n: nat, p: Nlri)
    requires d != [] && n == 1 + Octets(d[0]) <= |d| && p == Nlri(d[0], d[1..n])
    ensures Proper(p) && d == EncodeNlri(p) + d[n..]
  {
  }

  lemma EncodeFront(p: Nlri, more: seq<Nlri>, rest: seq<Byte>, tail: seq<Byte>)
    requires EncodeList(more) + rest == tail
    ensures EncodeList([p] + more) + rest == EncodeNlri(p) + tail
  {
    assert ([p] + more)[1..] == more;
    Assoc(EncodeNlri(p), EncodeList(more), rest);
  }

  lemma SplitHead(p: Nlri, later: seq<Byte>)
    requires Proper(p)
    ensures Split(EncodeNlri(p) + later) == ([p] + Split(later).0, Split(later).1)
  {
    var d := EncodeNlri(p) + later;
    assert d[1..1 + Octets(p.len)] == p.addr && d[1 + Octets(p.len)..] == later;
  }

  /** It is the inverse of encoding, whatever truncated bytes follow. */
  lemma {:induction false} SplitEncoded(ps: seq<Nlri>, rest: seq<Byte>)
    requires AllProper(ps) && (rest == [] || Truncated(rest))
    ensures Split(EncodeList(ps) + rest) == (ps, rest)
  {
    if ps == [] {
      assert [] + rest == rest;
    } else {
      assert ps[0] in ps && ps == [ps[0]] + ps[1..];
      SplitEncoded(ps[1..], rest);
      SplitHead(ps[0], EncodeList(ps[1..]) + rest);
      Assoc(EncodeNlri(ps[0]), EncodeList(ps[1..]), rest);
    }
  }

  // ---------- reading ----------

  /** struct prefix: a zeroed address with the octets copied over its front. */
  datatype Stored = Stored(address: seq<Byte>, len: nat)

  function Address(octets: seq<Byte>): seq<Byte>
  {
    if |octets| < ADDRESS_SIZE then octets + Zeros(ADDRESS_SIZE - |octets|) else octets
  }

  function Store(p: Nlri): Stored
  {
    Stored(Address(p.addr), p.len)
  }

  function StoreAll(ps: seq<Nlri>): (ss: seq<Stored>)
    ensures |ss| == |ps| && forall i :: 0 <= i < |ps| ==> ss[i] == Store(ps[i])
  {
    seq(|ps|, i requires 0 <= i < |ps| => Store(ps[i]))
  }

  /** struct zebra_incomplete. */
  datatype Incomplete = Incomplete(afi: nat, origLen: Byte, prefix: Stored)

  function Remainder(afi: nat, rest: seq<Byte>): Incomplete
    requires Truncated(rest)
  {
    Incomplete(afi, rest[0], Stored(Address(Fetch(rest[1..], Octets(rest[0]))), (|rest| - 1) * 8))
  }

  /** A truncated prefix keeps the octets that are there; its stored length counts them in bits
      and fits in a byte. */
  lemma RemainderKeeps(afi: nat, rest: seq<Byte>)
    requires Truncated(rest)
    ensures var p := Remainder(afi, rest).prefix; p.address[..|rest| - 1] == rest[1..] && p.len < 256
    ensures forall i :: |rest| - 1 <= i < |Remainder(afi, rest).prefix.address| ==>
      Remainder(afi, rest).prefix.address[i] == 0
  {
  }

  datatype Reading = Reading(prefixes: seq<Stored>, incomplete: Option<Incomplete>) | TooMany

  /** What reading d gives. A list too long for the caller's array is a fatal error. */
  function Outcome(d: seq<Byte>, afi: nat, keepIncomplete: bool): Reading
  {
    var (ps, rest) := Split(d);
    if |ps| > MAX_PREFIXES then TooMany
    else Reading(StoreAll(ps), if keepIncomplete && Truncated(rest) then Some(Remainder(afi, rest)) else None)
  }

  /** done is what has been read of d, and here is what is left. */
  ghost predicate ReadSoFar(d: seq<Byte>, done: seq<Nlri>, here: seq<Byte>)
  {
    Split(d) == (done + Split(here).0, Split(here).1)
  }

  lemma ReadOneMore(d: seq<Byte>, done: seq<Nlri>, p: Nlri, behind: seq<Byte>)
    requires ReadSoFar(d, done, [p.len] + behind) && |behind| >= Octets(p.len) && p.addr == behind[..Octets(p.len)]
    ensures ReadSoFar(d, done + [p], behind[Octets(p.len)..]) && |Split(d).0| > |done|
  {
    var here, n := [p.len] + behind, 1 + Octets(p.len);
    assert here[1..n] == p.addr && here[n..] == behind[Octets(p.len)..];
    Assoc(done, [p], Split(here[n..]).0);
  }

  /** The whole list, read. */
  lemma ReadAll(d: seq<Byte>, done: seq<Nlri>, here: seq<Byte>)
    requires ReadSoFar(d, done, here) && (here == [] || Truncated(here))
    ensures Split(d) == (done, here)
  {
    assert done + [] == done;
  }

  lemma StoreOneMore(done: seq<Nlri>, p: Nlri)
    ensures StoreAll(done + [p]) == StoreAll(done) + [Store(p)]
  {
  }

  /** The octets of a complete prefix, behind its length. */
  method ReadOctets(s: MStream, pLen: Byte) returns (p: Stored)
    requires s.Valid() && |s.Rest()| >= Octets(pLen)
    modifies s
    ensures s.Valid() && s.Rest() == old(s.Rest())[Octets(pLen)..]
    ensures p == Store(Nlri(pLen, old(s.Rest())[..Octets(pLen)]))
  {
    var octets, _ := s.Get(Octets(pLen));
    p := Stored(Address(octets), pLen);
  }

  /** A truncated prefix is kept if the caller wants it. */
  method ReadRemainder(s: MStream, afi: nat, keepIncomplete: bool, pLen: Byte) returns (incomplete: Option<Incomplete>)
    requires s.Valid() && |s.Rest()| < Octets(pLen)
    modifies s
    ensures s.Valid() && s.Rest() == if keepIncomplete then [] else old(s.Rest())
    ensures incomplete == if keepIncomplete then Some(Remainder(afi, [pLen] + old(s.Rest()))) else None
  {
    incomplete := None;
    if keepIncomplete {
      var left := s.CanRead();
      assert ([pLen] + s.Rest())[1..] == s.Rest();
      var octets, _ := s.Get(Octets(pLen));
      incomplete := Some(Incomplete(afi, pLen, Stored(Address(octets), left * 8)));
    }
  }

  /** The length byte at the front of the stream. */
  method ReadLength(s: MStream) returns (pLen: Byte, left: nat)
    requires s.Valid() && s.Rest() != []
    modifies s
    ensures s.Valid() && old(s.Rest()) == [pLen] + s.Rest() && left == |s.Rest()|
  {
    pLen := s.Getc();
    left := s.CanRead();
  }

  /** read_prefix_list, and how many entries of the caller's array of MAX_PREFIXES it has written: one
      too many exactly when there are too many, because it is the 2002nd prefix that is skipped. */
  method ReadPrefixList(s: MStream, afi: nat, keepIncomplete: bool) returns (r: Reading, written: nat)
    requires s.Valid()
    modifies s
    ensures s.Valid() && r == Outcome(old(s.Rest()), afi, keepIncomplete)
    ensures r.Reading? && (keepIncomplete || Split(old(s.Rest())).1 == []) ==> s.Rest() == []
    ensures written == Least(|Split(old(s.Rest())).0|, MAX_PREFIXES + 1)
    ensures written > MAX_PREFIXES <==> r == TooMany
  {
    var count := 0;
    var prefixes: seq<Stored> := [];
    ghost var d, done: seq<Nlri> := s.Rest(), [];
    assert [] + Split(d).0 == Split(d).0;
    var left := s.CanRead();
    while left > 0
      invariant s.Valid() && left == |s.Rest()| && |prefixes| == Least(count, MAX_PREFIXES + 1)
      invariant count > MAX_PREFIXES ==> |Split(d).0| > MAX_PREFIXES
      invariant count <= MAX_PREFIXES ==> |done| == count && prefixes == StoreAll(done) && ReadSoFar(d, done, s.Rest())
      decreases left
    {
      ghost var here := s.Rest();
      var pLen;
      pLen, left := ReadLength(s);
      if left < Octets(pLen) {
        var incomplete := ReadRemainder(s, afi, keepIncomplete, pLen);
        if count > MAX_PREFIXES {
          return TooMany, |prefixes|;
        }
        ReadAll(d, done, here);
        return Reading(prefixes, incomplete), |prefixes|;
      }
      count := count + 1;
      if count <= MAX_PREFIXES + 1 {
        ghost var p := Nlri(pLen, s.Rest()[..Octets(pLen)]);
        ReadOneMore(d, done, p, s.Rest());
        StoreOneMore(done, p);
        var prefix := ReadOctets(s, pLen);
        prefixes := prefixes + [prefix];
        done := done + [p];
      }
      left := s.CanRead();
    }
    if count > MAX_PREFIXES {
      return TooMany, |prefixes|;
    }
    ReadAll(d, done, s.Rest());
    return Reading(prefixes, None), |prefixes|;
  }

  // ---------- what reading keeps ----------

  /** The number of octets is the least that holds the bits. */
  lemma OctetsHold(len: Byte)
    ensures len <= 8 * Octets(len) < len as int + 8
  {
  }

  /** s holds a prefix of len bits whose octets are addr, zeros behind them. */
  ghost predicate Keeps(s: Stored, len: nat, addr: seq<Byte>)
  {
    && s.len == len && |addr| <= |s.address| && s.address[..|addr|] == addr
    && forall k :: |addr| <= k < |s.address| ==> s.address[k] == 0
  }

  /** A complete prefix, in an address of 16 bytes if its octets fit. */
  ghost predicate KeepsAll(s: Stored, p: Nlri)
  {
    Keeps(s, p.len, p.addr) && (|p.addr| <= 16 ==> |s.address| == 16)
  }

  /** What is kept of a truncated prefix: the octets that are there, and their number of bits. */
  ghost predicate KeepsFront(inc: Incomplete, afi: nat, rest: seq<Byte>)
    requires rest != []
  {
    inc.afi == afi && inc.origLen == rest[0] && Keeps(inc.prefix, 8 * (|rest| - 1), rest[1..])
  }

  lemma StoreKeeps(p: Nlri)
    ensures KeepsAll(Store(p), p)
  {
  }

  /** Reading an encoded list of at most 2000 prefixes gives back the lengths and the octets, in order;
      of a truncated prefix behind them it keeps the octets that are there, and their number of bits as
      its length. */
  lemma ReadEncoded(ps: seq<Nlri>, rest: seq<Byte>, afi: nat)
    requires forall p :: p in ps ==> p.len <= 8 * |p.addr| < p.len as int + 8
    requires |ps| <= 2000 && (rest == [] || 8 * (|rest| - 1) < rest[0] as int)
    ensures var r := Outcome(EncodeList(ps) + rest, afi, true);
      && r.Reading? && |r.prefixes| == |ps|
      && (forall i :: 0 <= i < |ps| ==> KeepsAll(r.prefixes[i], ps[i]))
      && (r.incomplete.Some? <==> rest != [])
      && (r.incomplete.Some? ==> KeepsFront(r.incomplete.value, afi, rest))
  {
    forall p | p in ps
      ensures Proper(p)
    {
      OctetsHold(p.len);
    }
    if rest != [] {
      OctetsHold(rest[0]);
      RemainderKeeps(afi, rest);
    }
    SplitEncoded(ps, rest);
    OutcomeOf(EncodeList(ps) + rest, ps, rest, afi);
    forall i | 0 <= i < |ps|
      ensures KeepsAll(Store(ps[i]), ps[i])
    {
      StoreKeeps(ps[i]);
    }
  }

  lemma OutcomeOf(d: seq<Byte>, ps: seq<Nlri>, rest: seq<Byte>, afi: nat)
    requires Split(d) == (ps, rest) && |ps| <= MAX_PREFIXES && (rest == [] || Truncated(rest))
    ensures Outcome(d, afi, true) == Reading(StoreAll(ps), if rest == [] then None else Some(Remainder(afi, rest)))
  {
  }

  /** Nothing is lost: for any bytes, the prefixes read, written again, and what is left are those bytes; and
      there are too many exactly when more than 2000 complete prefixes stand in front. */
  lemma ReadingIsBytes(d: seq<Byte>, afi: nat, keepIncomplete: bool) returns (ps: seq<Nlri>, rest: seq<Byte>)
    ensures forall p :: p in ps ==> p.len <= 8 * |p.addr| < p.len as int + 8
    ensures d == EncodeList(ps) + rest && (rest == [] || 8 * (|rest| - 1) < rest[0] as int)
    ensures Outcome(d, afi, keepIncomplete) == TooMany <==> |ps| > 2000
    ensures var r := Outcome(d, afi, keepIncomplete);
      r.Reading? ==>
        && |r.prefixes| == |ps| && (forall i :: 0 <= i < |ps| ==> KeepsAll(r.prefixes[i], ps[i]))
        && (r.incomplete.Some? <==> keepIncomplete && rest != [])
        && (r.incomplete.Some? ==> KeepsFront(r.incomplete.value, afi, rest))
  {
    ps, rest := Split(d).0, Split(d).1;
    SplitExact(d);
    if rest != [] {
      OctetsHold(rest[0]);
      RemainderKeeps(afi, rest);
    }
    forall p | p in ps
      ensures p.len <= 8 * |p.addr| < p.len as int + 8
    {
      OctetsHold(p.len);
    }
    forall i | 0 <= i < |ps|
      ensures KeepsAll(Store(ps[i]), ps[i])
    {
      StoreKeeps(ps[i]);
    }
  }
}
