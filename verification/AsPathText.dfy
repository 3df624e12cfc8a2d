/** Printing an AS path into a buffer of limited length: the text, cut to fit, and its full length. */
module AsPathText {
  import opened Wrappers
  import opened AsPath
  import opened AsPathBuffer
  import opened Sequences

  // ---------- the text ----------

  function Digit(d: nat): char
    requires d < 10
  {
    "0123456789"[d]
  }

  function Number(n: nat): (t: string)
    ensures |t| > 0
  {
    if n < 10 then [Digit(n)] else Number(n / 10) + [Digit(n % 10)]
  }

  function Opening(k: Kind): char
  {
    match k case AsSet => '{' case ConfedSet => '[' case ConfedSeq => '('
  }

  function Closing(k: Kind): char
  {
    match k case AsSet => '}' case ConfedSet => ']' case ConfedSeq => ')'
  }

  function Between(k: Kind): char
  {
    if k == ConfedSeq then ' ' else ','
  }

  /** The first i numbers, each but the last of all followed by the separator. */
  function Numbers(asns: seq<Asn>, sep: char, i: nat): string
    requires i <= |asns|
  {
    if i == 0 then "" else Numbers(asns, sep, i - 1) + Number(asns[i - 1]) + if i < |asns| then [sep] else ""
  }

  function SegText(s: Seg): (t: string)
    ensures |t| > 0
  {
    match s
    case Hop(asn) => Number(asn)
    case Group(kind, asns) => [Opening(kind)] + Numbers(asns, Between(kind), |asns|) + [Closing(kind)]
  }

  /** The first n texts with a separator between them. */
  function Joined(ts: seq<string>, sep: string, n: nat): string
    requires n <= |ts|
  {
    if n == 0 then "" else if n == 1 then ts[0] else Joined(ts, sep, n - 1) + sep + ts[n - 1]
  }

  function NumbersOf(asns: seq<Asn>): (ts: seq<string>)
    ensures |ts| == |asns| && forall i :: 0 <= i < |asns| ==> ts[i] == Number(asns[i])
  {
    seq(|asns|, i requires 0 <= i < |asns| => Number(asns[i]))
  }

  function TextsOf(segs: Segs): (ts: seq<string>)
    ensures |ts| == |segs| && forall i :: 0 <= i < |segs| ==> ts[i] == SegText(segs[i])
  {
    seq(|segs|, i requires 0 <= i < |segs| => SegText(segs[i]))
  }

  /** The text of a path's first i segments: their texts with the separator between them. */
  function PathText(segs: Segs, sep: char, i: nat): string
    requires i <= |segs|
  {
    Joined(TextsOf(segs), [sep], i)
  }

  lemma PathTextStep(segs: Segs, sep: char, i: nat)
    requires i < |segs|
    ensures PathText(segs, sep, i + 1) ==
      if i == 0 then SegText(segs[0]) else PathText(segs, sep, i) + [sep] + SegText(segs[i])
  {
    assert TextsOf(segs)[i] == SegText(segs[i]);
  }

  // ---------- what the text says ----------

  function DigitValue(c: char): nat
  {
    if c == '1' then 1 else if c == '2' then 2 else if c == '3' then 3 else if c == '4' then 4 else if c == '5' then 5
    else if c == '6' then 6 else if c == '7' then 7 else if c == '8' then 8 else if c == '9' then 9 else 0
  }

  /** What digits denote, read from left to right. */
  function Denoted(t: string): nat
  {
    if t == "" then 0 else 10 * Denoted(t[..|t| - 1]) + DigitValue(t[|t| - 1])
  }

  lemma DigitDenotes(d: nat)
    requires d < 10
    ensures DigitValue(Digit(d)) == d && '0' <= Digit(d) <= '9' && (d > 0 ==> Digit(d) != '0')
  {
  }

  lemma DenotedNext(t: string, c: char)
    ensures Denoted(t + [c]) == 10 * Denoted(t) + DigitValue(c)
  {
    assert (t + [c])[..|t|] == t;
  }

  /** A number is printed in digits only, without leading zeros, and they denote it. */
  lemma {:induction false} NumberDenotes(n: nat)
    ensures Denoted(Number(n)) == n && (n > 0 ==> Number(n)[0] != '0')
    ensures forall i :: 0 <= i < |Number(n)| ==> '0' <= Number(n)[i] <= '9'
  {
    DigitDenotes(n % 10);
    if n < 10 {
      DenotedNext("", Digit(n));
      assert "" + [Digit(n)] == [Digit(n)];
    } else {
      NumberDenotes(n / 10);
      DenotedNext(Number(n / 10), Digit(n % 10));
    }
  }

  lemma {:induction false} NumbersJoined(asns: seq<Asn>, sep: char, i: nat)
    requires i <= |asns|
    ensures Numbers(asns, sep, i) == Joined(NumbersOf(asns), [sep], i) + if 0 < i < |asns| then [sep] else ""
  {
    if i > 0 {
      NumbersJoined(asns, sep, i - 1);
    }
  }

  /** The text of a segment: a hop as its number, a set in braces, a confederation set in brackets, with
      commas between their numbers, and a confederation sequence in parentheses with spaces. */
  lemma SegTextIs(s: Seg)
    ensures s.Hop? ==> SegText(s) == Number(s.asn)
    ensures s.Group? && s.kind == AsSet ==> SegText(s) == "{" + Joined(NumbersOf(s.asns), ",", |s.asns|) + "}"
    ensures s.Group? && s.kind == ConfedSet ==> SegText(s) == "[" + Joined(NumbersOf(s.asns), ",", |s.asns|) + "]"
    ensures s.Group? && s.kind == ConfedSeq ==> SegText(s) == "(" + Joined(NumbersOf(s.asns), " ", |s.asns|) + ")"
  {
    if s.Group? {
      NumbersJoined(s.asns, Between(s.kind), |s.asns|);
    }
  }

  // ---------- the buffer ----------

  /** text has been printed from position at on, as far as len characters with a final NUL allow. */
  ghost predicate Shows(b: seq<char>, at: nat, len: nat, text: string)
    requires at + len <= |b|
  {
    len > 0 ==> b[at..at + Least(|text|, len - 1)] == text[..Least(|text|, len - 1)]
  }

  ghost predicate Ended(b: seq<char>, at: nat, len: nat, text: string)
    requires at + len <= |b|
  {
    len > 0 ==> b[at + Least(|text|, len - 1)] == '\0'
  }

  /** Nothing outside the len characters from at on has changed. */
  ghost predicate Within(was: seq<char>, b: seq<char>, at: nat, len: nat)
    requires |was| == |b| && at + len <= |b|
  {
    forall i :: 0 <= i < |b| && !(at <= i < at + len) ==> b[i] == was[i]
  }

  /** ADD_CHAR. */
  method AddChar(buf: array<char>, at: nat, len: nat, written: nat, c: char, ghost text: string) returns (w: nat)
    requires at + len <= buf.Length && written == |text| && Shows(buf[..], at, len, text)
    modifies buf
    ensures w == written + 1 && Shows(buf[..], at, len, text + [c])
    ensures Within(old(buf[..]), buf[..], at, len)
  {
    if written < len {
      buf[at + written] := c;
    }
    w := written + 1;
    if len > 0 && written < len - 1 {
      assert buf[at..at + written] == text;
      assert buf[at..at + written + 1] == text + [c];
    }
  }

  /** snprintf of a number: its digits as far as they fit, then NUL. */
  method PrintNumber(buf: array<char>, at: nat, len: nat, n: nat) returns (w: nat)
    requires at + len <= buf.Length
    modifies buf
    ensures w == |Number(n)| && Shows(buf[..], at, len, Number(n)) && Ended(buf[..], at, len, Number(n))
    ensures Within(old(buf[..]), buf[..], at, len)
  {
    var t := Number(n);
    w := |t|;
    if len == 0 {
      return;
    }
    var m := Least(|t|, len - 1);
    var i := 0;
    while i < m
      invariant i <= m && buf[at..at + i] == t[..i]
      invariant Within(old(buf[..]), buf[..], at, len)
    {
      buf[at + i] := t[i];
      i := i + 1;
    }
    buf[at + m] := '\0';
  }

  /** What is left of a buffer of len characters after written ones. */
  function Remain(len: nat, written: nat): nat
  {
    if len <= written then 0 else len - written
  }

  lemma SplitBetween(b: seq<char>, i: nat, j: nat, k: nat)
    requires i <= j <= k <= |b|
    ensures b[i..k] == b[i..j] + b[j..k]
  {
  }

  lemma FrontOfBoth(text: string, more: string, k: nat)
    requires k <= |more|
    ensures (text + more)[..|text| + k] == text + more[..k]
  {
  }

  /** Printing more behind a text prints the two together. */
  lemma ShowsMore(was: seq<char>, b: seq<char>, at: nat, len: nat, text: string, more: string)
    requires |was| == |b| && at + len <= |b| && Shows(was, at, len, text)
    requires Within(was, b, at + Least(|text|, len), Remain(len, |text|))
    requires Shows(b, at + Least(|text|, len), Remain(len, |text|), more)
    ensures Shows(b, at, len, text + more)
    ensures |text| < len && Ended(b, at + |text|, len - |text|, more) ==> Ended(b, at, len, text + more)
  {
    if len > 0 {
      var m := Least(|text|, len - 1);
      assert was[at..at + m] == text[..m];
      forall i | 0 <= i < m
        ensures b[at + i] == text[i]
      {
        assert was[at..at + m][i] == was[at + i];
      }
      if |text| < len {
        var k := Least(|more|, len - |text| - 1);
        assert b[at + |text|..at + |text| + k] == more[..k];
        assert b[at..at + |text|] == text;
        SplitBetween(b, at, at + |text|, at + |text| + k);
        FrontOfBoth(text, more, k);
      }
    }
  }

  /** One number printed behind what is there. */
  method PrintMore(buf: array<char>, at: nat, len: nat, written: nat, n: nat, ghost text: string) returns (w: nat)
    requires at + len <= buf.Length && written == |text| && Shows(buf[..], at, len, text)
    modifies buf
    ensures w == |text + Number(n)| && Shows(buf[..], at, len, text + Number(n))
    ensures Within(old(buf[..]), buf[..], at, len)
  {
    ghost var was := buf[..];
    var more := PrintNumber(buf, at + Least(written, len), Remain(len, written), n);
    ShowsMore(was, buf[..], at, len, text, Number(n));
    w := written + more;
  }

  /** The end of SET_SNPRINTF and of bgpstream_as_path_seg_snprintf. */
  method Terminate(buf: array<char>, at: nat, len: nat, written: nat, ghost text: string)
    requires at + len <= buf.Length && written == |text| && Shows(buf[..], at, len, text)
    modifies buf
    ensures Shows(buf[..], at, len, text) && Ended(buf[..], at, len, text)
    ensures Within(old(buf[..]), buf[..], at, len)
  {
    if len > 0 {
      var m := if written < len then written else len - 1;
      assert buf[at..at + m] == text[..m];
      buf[at + m] := '\0';
      assert buf[at..at + m] == text[..m];
    }
  }

  /** The text of a group up to its i-th number. */
  function GroupText(kind: Kind, asns: AsnList, i: nat): string
    requires i <= |asns|
  {
    [Opening(kind)] + Numbers(asns, Between(kind), i)
  }

  lemma GroupTextStep(kind: Kind, asns: AsnList, i: nat)
    requires i < |asns|
    ensures GroupText(kind, asns, i + 1)
      == GroupText(kind, asns, i) + Number(asns[i]) + if i + 1 < |asns| then [Between(kind)] else ""
  {
  }

  /** One turn of the loop in SET_SNPRINTF. */
  method PrintListed(buf: array<char>, at: nat, len: nat, written: nat, kind: Kind, asns: AsnList, i: nat)
    returns (w: nat)
    requires at + len <= buf.Length && i < |asns|
    requires written == |GroupText(kind, asns, i)| && Shows(buf[..], at, len, GroupText(kind, asns, i))
    modifies buf
    ensures w == |GroupText(kind, asns, i + 1)| && Shows(buf[..], at, len, GroupText(kind, asns, i + 1))
    ensures Within(old(buf[..]), buf[..], at, len)
  {
    ghost var text := GroupText(kind, asns, i);
    GroupTextStep(kind, asns, i);
    w := PrintMore(buf, at, len, written, asns[i], text);
    if i + 1 < |asns| {
      w := AddChar(buf, at, len, w, Between(kind), text + Number(asns[i]));
    } else {
      assert text + Number(asns[i]) == text + Number(asns[i]) + "";
    }
  }

  /** The loop in SET_SNPRINTF. */
  method PrintAll(buf: array<char>, at: nat, len: nat, written: nat, kind: Kind, asns: AsnList) returns (w: nat)
    requires at + len <= buf.Length
    requires written == |GroupText(kind, asns, 0)| && Shows(buf[..], at, len, GroupText(kind, asns, 0))
    modifies buf
    ensures w == |GroupText(kind, asns, |asns|)| && Shows(buf[..], at, len, GroupText(kind, asns, |asns|))
    ensures Within(old(buf[..]), buf[..], at, len)
  {
    w := written;
    var i := 0;
    while i < |asns|
      invariant i <= |asns| && w == |GroupText(kind, asns, i)| && Shows(buf[..], at, len, GroupText(kind, asns, i))
      invariant Within(old(buf[..]), buf[..], at, len)
    {
      w := PrintListed(buf, at, len, w, kind, asns, i);
      i := i + 1;
    }
  }

  /** The set case of bgpstream_as_path_seg_snprintf. */
  method PrintGroup(buf: array<char>, at: nat, len: nat, kind: Kind, asns: AsnList) returns (w: nat)
    requires at + len <= buf.Length
    modifies buf
    ensures var text := SegText(Group(kind, asns));
      w == |text| && Shows(buf[..], at, len, text) && Ended(buf[..], at, len, text)
    ensures Within(old(buf[..]), buf[..], at, len)
  {
    w := AddChar(buf, at, len, 0, Opening(kind), "");
    assert "" + [Opening(kind)] == GroupText(kind, asns, 0);
    w := PrintAll(buf, at, len, w, kind, asns);
    w := AddChar(buf, at, len, w, Closing(kind), GroupText(kind, asns, |asns|));
    Terminate(buf, at, len, w, SegText(Group(kind, asns)));
  }

  /** bgpstream_as_path_seg_snprintf. */
  method PrintSeg(buf: array<char>, at: nat, len: nat, s: Seg) returns (w: nat)
    requires at + len <= buf.Length
    modifies buf
    ensures w == |SegText(s)| && Shows(buf[..], at, len, SegText(s)) && Ended(buf[..], at, len, SegText(s))
    ensures Within(old(buf[..]), buf[..], at, len)
  {
    match s
    case Hop(asn) => w := PrintNumber(buf, at, len, asn);
    case Group(kind, asns) => w := PrintGroup(buf, at, len, kind, asns);
  }

  /** A segment printed behind what is there. */
  method PrintNext(buf: array<char>, at: nat, len: nat, written: nat, sep: char, s: Seg, ghost text: string)
    returns (w: nat)
    requires at + len <= buf.Length && written == |text| && Shows(buf[..], at, len, text)
    modifies buf
    ensures w == |text + SegText(s)| && Shows(buf[..], at, len, text + SegText(s))
    ensures w < len ==> Ended(buf[..], at, len, text + SegText(s))
    ensures Within(old(buf[..]), buf[..], at, len)
  {
    ghost var was, next := buf[..], SegText(s);
    var more := PrintSeg(buf, at + Least(written, len), Remain(len, written), s);
    ShowsMore(was, buf[..], at, len, text, next);
    assert |text + next| == |text| + |next|;
    w := written + more;
  }

  /** One turn of the loop in bgpstream_as_path_snprintf_custom_separator. */
  method PrintTurn(buf: array<char>, len: nat, written: nat, needSep: bool, sep: char, s: Seg, ghost segs: Segs,
      ghost i: nat)
    returns (w: nat)
    requires len <= buf.Length && i < |segs| && segs[i] == s && (needSep <==> i > 0)
    requires written == |PathText(segs, sep, i)| && Shows(buf[..], 0, len, PathText(segs, sep, i))
    modifies buf
    ensures w == |PathText(segs, sep, i + 1)| && Shows(buf[..], 0, len, PathText(segs, sep, i + 1))
    ensures w < len ==> Ended(buf[..], 0, len, PathText(segs, sep, i + 1))
    ensures Within(old(buf[..]), buf[..], 0, len)
  {
    ghost var text := PathText(segs, sep, i);
    PathTextStep(segs, sep, i);
    w := written;
    if needSep {
      w := AddChar(buf, 0, len, w, sep, text);
      text := text + [sep];
    }
    assert needSep || text + SegText(s) == SegText(s);
    w := PrintNext(buf, 0, len, w, sep, s, text);
  }

  /** The end of bgpstream_as_path_snprintf_custom_separator. */
  method Finish(buf: array<char>, len: nat, written: nat, ghost text: string)
    requires len <= buf.Length && written == |text| && Shows(buf[..], 0, len, text)
    requires 0 < written < len ==> Ended(buf[..], 0, len, text)
    modifies buf
    ensures Shows(buf[..], 0, len, text) && Ended(buf[..], 0, len, text) && Within(old(buf[..]), buf[..], 0, len)
  {
    if len > 0 {
      if written == 0 {
        buf[0] := '\0';
      } else if written >= len {
        Terminate(buf, 0, len, written, text);
      }
    }
  }

  /** bgpstream_as_path_snprintf_custom_separator: the buffer holds the path's text as far as it
      fits, ended by a NUL, nothing else is written, and the result is the length of the whole
      text. */
  method PrintPath(buf: array<char>, len: nat, data: seq<Byte>, sep: char, ghost segs: Segs) returns (written: nat)
    requires len <= buf.Length && data == Encode(segs)
    modifies buf
    ensures var text := PathText(segs, sep, |segs|);
      written == |text| && Shows(buf[..], 0, len, text) && Ended(buf[..], 0, len, text)
    ensures Within(old(buf[..]), buf[..], 0, len)
  {
    written := 0;
    var needSep := false;
    ghost var i, text := 0, "";
    assert segs[..0] == [];
    var seg, it := NextSegment(data, 0, segs, 0);
    while seg.Some?
      invariant i <= |segs| && seg == (if i < |segs| then Some(segs[i]) else None)
      invariant seg.Some? ==> it == Offset(segs, i + 1)
      invariant text == PathText(segs, sep, i) && written == |text| && Shows(buf[..], 0, len, text)
      invariant 0 < written < len ==> Ended(buf[..], 0, len, text)
      invariant (needSep <==> i > 0) && Within(old(buf[..]), buf[..], 0, len)
      decreases |segs| - i
    {
      written := PrintTurn(buf, len, written, needSep, sep, seg.value, segs, i);
      needSep := true;
      i := i + 1;
      text := PathText(segs, sep, i);
      seg, it := NextSegment(data, it, segs, i);
    }
    Finish(buf, len, written, text);
  }
}
