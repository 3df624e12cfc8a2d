/** The input queue as a value: where a push goes, and how a batch is cut off the front. */
module Inputs {

  datatype Input = Input(filename: string, project: string, collector: string, filetype: string,
                         filetime: int, span: int)

  // ---------- pushing ----------

  /** The same dump: a second push of it is ignored. */
  predicate Same(a: Input, b: Input)
  {
    a.filetime == b.filetime && a.collector == b.collector && a.project == b.project && a.filetype == b.filetype
  }

  predicate StartsWith(s: string, c: char)
  {
    s != "" && s[0] == c
  }

  /** A RIB dump goes in front of an updates dump of the same time. */
  predicate Overtakes(x: Input, a: Input)
  {
    a.filetime == x.filetime && StartsWith(x.filetype, 'r') && StartsWith(a.filetype, 'u')
  }

  /** The queue after bgpstream_input_mgr_push_sorted_input, and whether x was added. */
  function Push(q: seq<Input>, x: Input): (seq<Input>, bool)
  {
    if q == [] || q[0].filetime > x.filetime then ([x] + q, true)
    else if Same(q[0], x) then (q, false)
    else if Overtakes(x, q[0]) then ([x] + q, true)
    else
      var (rest, added) := Push(q[1..], x);
      ([q[0]] + rest, added)
  }

  predicate Known(x: Input)
  {
    x.filetype == "ribs" || x.filetype == "updates"
  }

  /** x comes strictly before y: earlier, or a RIB before updates of the same time. */
  predicate Before(x: Input, y: Input)
  {
    x.filetime < y.filetime || Overtakes(x, y)
  }

  /** In order, ties allowed, and no dump twice. */
  ghost predicate Ordered(q: seq<Input>)
  {
    forall i, j :: 0 <= i < j < |q| ==> !Before(q[j], q[i]) && !Same(q[i], q[j])
  }

  /** What is true of x and a queued input it precedes is true of x and every input behind that. */
  lemma BeforeTheRest(x: Input, a: Input, b: Input)
    requires Before(x, a) && !Before(b, a)
    ensures !Before(b, x) && !Same(b, x) && !Same(x, b)
    ensures Known(b) ==> Before(x, b)
  {
    assert "ribs"[0] == 'r' && "updates"[0] == 'u';
  }

  /** Where a push puts x: in front of the first input it precedes. Behind that place nothing
      precedes x, and x precedes every input of a known type. */
  ghost predicate GoesAt(q: seq<Input>, x: Input, i: nat)
  {
    && i <= |q|
    && (forall j :: 0 <= j < i ==> !Before(x, q[j]))
    && (i < |q| ==> Before(x, q[i]))
    && (forall j :: i <= j < |q| ==> !Before(q[j], x) && !Same(q[j], x) && (Known(q[j]) ==> Before(x, q[j])))
    && (Push(q, x).1 ==> Push(q, x).0 == q[..i] + [x] + q[i..])
  }

  ghost predicate Holds(q: seq<Input>, x: Input)
  {
    exists a :: a in q && Same(a, x)
  }

  lemma PushAtFront(q: seq<Input>, x: Input)
    requires Ordered(q) && (q == [] || Before(x, q[0]))
    ensures Push(q, x) == ([x] + q, true) && GoesAt(q, x, 0) && !Holds(q, x)
  {
    forall j | 0 <= j < |q|
      ensures !Before(q[j], x) && !Same(q[j], x) && (Known(q[j]) ==> Before(x, q[j]))
    {
      BeforeTheRest(x, q[0], q[j]);
    }
  }

  lemma PutBehindHead(q: seq<Input>, x: Input, i: nat)
    requires q != [] && i < |q|
    ensures [q[0]] + (q[1..][..i] + [x] + q[1..][i..]) == q[..i + 1] + [x] + q[i + 1..]
  {
  }

  lemma GoesAtStep(q: seq<Input>, x: Input, i: nat)
    requires q != [] && !Before(x, q[0]) && !Same(q[0], x) && GoesAt(q[1..], x, i)
    requires Push(q, x) == ([q[0]] + Push(q[1..], x).0, Push(q[1..], x).1)
    ensures GoesAt(q, x, i + 1)
  {
    var rest := q[1..];
    if Push(q, x).1 {
      PutBehindHead(q, x, i);
    }
    forall j | 0 < j < |q|
      ensures j < i + 1 ==> !Before(x, q[j])
      ensures j >= i + 1 ==> !Before(q[j], x) && !Same(q[j], x) && (Known(q[j]) ==> Before(x, q[j]))
    {
      assert q[j] == rest[j - 1];
    }
  }

  /** A new dump goes behind everything up to the first input it precedes, so ties are first in,
      first out; it is added exactly when the queue does not hold it yet. */
  lemma {:induction false} PushExact(q: seq<Input>, x: Input) returns (i: nat)
    requires Ordered(q)
    ensures Push(q, x).1 ==> GoesAt(q, x, i)
    ensures Push(q, x).1 <==> !Holds(q, x)
    ensures !Push(q, x).1 ==> Push(q, x).0 == q
  {
    if q == [] || Before(x, q[0]) {
      i := 0;
      PushAtFront(q, x);
    } else {
      i := PushExact(q[1..], x);
      assert q == [q[0]] + q[1..];
      if !Same(q[0], x) {
        if Push(q, x).1 {
          GoesAtStep(q, x, i);
        }
        i := i + 1;
      }
    }
  }

  /** Any sequence of pushes leaves the queue in order and without duplicates. */
  lemma PushOrdered(q: seq<Input>, x: Input)
    requires Ordered(q)
    ensures Ordered(Push(q, x).0)
  {
    var i := PushExact(q, x);
  }

  ghost function PushAll(q: seq<Input>, xs: seq<Input>): seq<Input>
  {
    if xs == [] then q else Push(PushAll(q, xs[..|xs| - 1]), xs[|xs| - 1]).0
  }

  lemma {:induction false} PushAllOrdered(q: seq<Input>, xs: seq<Input>)
    requires Ordered(q)
    ensures Ordered(PushAll(q, xs))
    ensures forall x :: x in PushAll(q, xs) ==> x in q || x in xs
    ensures forall x :: x in q || x in xs ==> exists y :: y in PushAll(q, xs) && Same(x, y)
  {
    if xs == [] {
      forall x | x in q
        ensures exists y :: y in PushAll(q, xs) && Same(x, y)
      {
        assert x in PushAll(q, xs) && Same(x, x);
      }
    } else {
      var init, last := xs[..|xs| - 1], xs[|xs| - 1];
      assert xs == init + [last];
      PushAllOrdered(q, init);
      var before := PushAll(q, init);
      PushOrdered(before, last);
      var i := PushExact(before, last);
      var after := Push(before, last).0;
      forall x | x in q || x in xs
        ensures exists y :: y in after && Same(x, y)
      {
        if x == last {
          if Push(before, last).1 {
            assert last in after && Same(last, last);
          } else {
            var y :| y in before && Same(y, last);
            assert Same(last, y);
          }
        } else {
          var y :| y in before && Same(x, y);
          StillThere(before, last, i, y);
        }
      }
    }
  }

  lemma StillThere(q: seq<Input>, x: Input, i: nat, y: Input)
    requires (Push(q, x).1 ==> GoesAt(q, x, i)) && (!Push(q, x).1 ==> Push(q, x).0 == q) && y in q
    ensures y in Push(q, x).0
  {
    if Push(q, x).1 {
      assert q == q[..i] + q[i..];
    }
  }

  // ---------- the order in plain terms ----------

  /** Earlier dumps first; of one time, no RIB dump behind an updates dump; and no dump twice. */
  ghost predicate InOrder(q: seq<Input>)
  {
    forall i, j :: 0 <= i < j < |q| ==>
      && q[i].filetime <= q[j].filetime
      && !(q[i].filetime == q[j].filetime && q[i].filetype == "updates" && q[j].filetype == "ribs")
      && q[i] != q[j].(filename := q[i].filename, span := q[i].span)
  }

  lemma TypeLetters()
    ensures StartsWith("ribs", 'r') && StartsWith("updates", 'u')
    ensures !StartsWith("ribs", 'u') && !StartsWith("updates", 'r')
  {
  }

  lemma OrderedIsInOrder(q: seq<Input>)
    requires Ordered(q)
    ensures InOrder(q)
  {
    TypeLetters();
    forall i, j | 0 <= i < j < |q|
      ensures q[i].filetime <= q[j].filetime
      ensures !(q[i].filetime == q[j].filetime && q[i].filetype == "updates" && q[j].filetype == "ribs")
      ensures q[i] != q[j].(filename := q[i].filename, span := q[i].span)
    {
      assert !Before(q[j], q[i]) && !Same(q[i], q[j]);
    }
  }

  /** Whatever is pushed, in whatever order: the queue is in order, holds nothing else, and holds every
      dump pushed, or one that differs at most in its file name and span. */
  lemma PushedInOrder(xs: seq<Input>)
    ensures var q := PushAll([], xs); InOrder(q) && forall x :: x in q ==> x in xs
    ensures forall x :: x in xs ==> exists y :: y in PushAll([], xs) && y == x.(filename := y.filename, span := y.span)
  {
    PushAllOrdered([], xs);
    OrderedIsInOrder(PushAll([], xs));
    forall x | x in xs
      ensures exists y :: y in PushAll([], xs) && y == x.(filename := y.filename, span := y.span)
    {
      var y :| y in PushAll([], xs) && Same(x, y);
    }
  }

  /** A new RIB or updates dump goes behind everything earlier and everything of its time and type, and in
      front of everything later; of the two types of one time, RIBs stay in front. */
  lemma PushPlace(q: seq<Input>, x: Input) returns (i: nat)
    requires Ordered(q) && (x.filetype == "ribs" || x.filetype == "updates")
    requires forall y :: y in q ==> y.filetype == "ribs" || y.filetype == "updates"
    ensures !Push(q, x).1 <==> exists y :: y in q && y == x.(filename := y.filename, span := y.span)
    ensures !Push(q, x).1 ==> Push(q, x).0 == q
    ensures Push(q, x).1 ==> i <= |q| && Push(q, x).0 == q[..i] + [x] + q[i..]
    ensures Push(q, x).1 ==> forall j :: 0 <= j < |q| ==> (j < i <==>
      || q[j].filetime < x.filetime
      || (q[j].filetime == x.filetime && (q[j].filetype == "ribs" || x.filetype == "updates")))
  {
    TypeLetters();
    i := PushExact(q, x);
    assert Holds(q, x) <==> exists y :: y in q && y == x.(filename := y.filename, span := y.span) by {
      if y :| y in q && y == x.(filename := y.filename, span := y.span) {
        assert Same(y, x);
      }
    }
    if Push(q, x).1 {
      forall j | 0 <= j < |q|
        ensures j < i ==> !Before(x, q[j])
        ensures j >= i ==> Before(x, q[j])
      {
        assert q[j] in q;
      }
    }
  }

  // ---------- cutting a batch ----------

  const MAX_READERS: nat := 200

  /** bgpstream_set_intervals. */
  function Start(x: Input): int
  {
    if x.filetype == "ribs" then x.filetime - x.span
    else if x.filetype == "updates" then x.filetime else 0
  }

  function End(x: Input): int
  {
    if x.filetype == "ribs" || x.filetype == "updates" then x.filetime + x.span else 0
  }

  function Later(a: int, b: int): int { if a < b then b else a }

  /** How many inputs from the front of q the batch takes, n of them already taken and the
      batch's interval reaching to end. */
  function Take(q: seq<Input>, n: nat, end: int): (taken: nat)
    ensures taken <= |q|
  {
    if q == [] || n >= MAX_READERS || Start(q[0]) >= end then 0
    else 1 + Take(q[1..], n + 1, Later(end, End(q[0])))
  }

  function BatchLength(q: seq<Input>): (n: nat)
    ensures n <= |q|
  {
    if q == [] then 0 else Take(q, 0, End(q[0]))
  }

  /** The end of the interval spanned by the inputs in q, at least end. */
  ghost function Reach(q: seq<Input>, end: int): int
  {
    if q == [] then end else Reach(q[1..], Later(end, End(q[0])))
  }

  lemma {:induction false} ReachBounds(q: seq<Input>, end: int)
    ensures Reach(q, end) >= end
    ensures forall x :: x in q ==> End(x) <= Reach(q, end)
  {
    if q != [] {
      ReachBounds(q[1..], Later(end, End(q[0])));
      assert q == [q[0]] + q[1..];
    }
  }

  /** Each input taken starts before the end reached by those in front of it; the first one
      left, if the cap did not stop the batch, starts at or after the end they all reach. */
  lemma {:induction false} TakeExact(q: seq<Input>, n: nat, end: int)
    ensures var k := Take(q, n, end);
      && (forall i :: 0 <= i < k ==> Start(q[i]) < Reach(q[..i], end))
      && (k < |q| && n + k < MAX_READERS ==> Start(q[k]) >= Reach(q[..k], end))
      && (n <= MAX_READERS ==> n + k <= MAX_READERS)
  {
    var k := Take(q, n, end);
    if k > 0 {
      var end' := Later(end, End(q[0]));
      TakeExact(q[1..], n + 1, end');
      forall i | 0 < i <= k
        ensures Reach(q[..i], end) == Reach(q[1..][..i - 1], end')
      {
        assert q[..i][1..] == q[1..][..i - 1];
      }
    }
  }

  /** A batch is empty exactly when the head's interval is: for a known type, when its span is
      not positive. The driver loop makes no progress on such a head. */
  lemma BatchNonEmpty(q: seq<Input>)
    requires q != []
    ensures BatchLength(q) > 0 <==> Known(q[0]) && q[0].span > 0
  {
  }

  /** x starts before y is over: a RIB dump starts its span before its time, both types are over their span
      after it, and any other type starts and is over at 0. */
  predicate StartsWithin(x: Input, y: Input)
  {
    (if x.filetype == "ribs" then x.filetime - x.span else if x.filetype == "updates" then x.filetime else 0)
    < if y.filetype == "ribs" || y.filetype == "updates" then y.filetime + y.span else 0
  }

  lemma WithinMeans(x: Input, y: Input)
    ensures StartsWithin(x, y) <==> Start(x) < End(y)
  {
  }

  ghost predicate OverlapsOne(taken: seq<Input>, x: Input)
  {
    exists y :: y in taken && StartsWithin(x, y)
  }

  lemma {:induction false} ReachedBy(q: seq<Input>, end: int, t: int)
    requires t < Reach(q, end)
    ensures t < end || exists y :: y in q && t < End(y)
  {
    if q != [] && t >= end {
      ReachedBy(q[1..], Later(end, End(q[0])), t);
      assert q == [q[0]] + q[1..];
    }
  }

  /** A batch is the head, then each dump that starts before one taken already is over, up to the first that
      does not, and never more than 200. */
  lemma BatchExact(q: seq<Input>)
    ensures BatchLength(q) <= 200
    ensures forall i :: 0 < i < BatchLength(q) ==> OverlapsOne(q[..i], q[i])
    ensures var k := BatchLength(q); 0 < k < |q| && k < 200 ==> !OverlapsOne(q[..k], q[k])
  {
    if q != [] {
      var k, end := BatchLength(q), End(q[0]);
      TakeExact(q, 0, end);
      forall i | 0 < i < k
        ensures OverlapsOne(q[..i], q[i])
      {
        ReachedBy(q[..i], end, Start(q[i]));
        assert q[..i][0] in q[..i];
        var y :| y in q[..i] && Start(q[i]) < End(y);
        WithinMeans(q[i], y);
      }
      if 0 < k < |q| && k < 200 {
        ReachBounds(q[..k], end);
        forall y | y in q[..k]
          ensures !StartsWithin(q[k], y)
        {
          WithinMeans(q[k], y);
        }
      }
    }
  }

  /** The cap did not cut this batch short. */
  predicate Uncapped(q: seq<Input>)
  {
    BatchLength(q) < MAX_READERS || BatchLength(q) == |q|
  }
}
