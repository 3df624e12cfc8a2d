/** A queue that the cap on readers cuts in the middle of an interval, and what comes of it. */
module StreamCapped {
  import opened Sequences
  import opened Inputs
  import opened Readers
  import opened MergeOrder
  import opened Stream
  import opened StreamOrder

  /** Dumps of one time, each spanning more than a second. */
  ghost predicate Crowded(q: seq<Input>, t: int)
  {
    forall x :: x in q ==> Known(x) && x.filetime == t && x.span > 1
  }

  lemma {:induction false} TakeUpToCap(q: seq<Input>, n: nat, end: int)
    requires n <= MAX_READERS && forall x :: x in q ==> Start(x) < end
    ensures Take(q, n, end) == Least(|q|, MAX_READERS - n)
  {
    if q != [] && n < MAX_READERS {
      TakeUpToCap(q[1..], n + 1, Later(end, End(q[0])));
    }
  }

  /** More than 200 of them are cut between two that overlap. */
  lemma CrowdIsCut(q: seq<Input>, t: int)
    requires Crowded(q, t) && |q| > MAX_READERS
    ensures Spanned(q) && BatchLength(q) == MAX_READERS && !CleanCuts(q)
  {
    TakeUpToCap(q, 0, End(q[0]));
    var x, y := q[..MAX_READERS][0], q[MAX_READERS..][0];
    assert x in q && y in q;
    assert x in q[..MAX_READERS] && y in q[MAX_READERS..] && End(x) > y.filetime + 1;
  }

  /** So record times can go back: for some dumps that keep to their intervals they do. */
  lemma CrowdGoesBack(q: seq<Input>, t: int, seen: Seen) returns (s: Settings)
    requires Ordered(q) && Crowded(q, t) && |q| > MAX_READERS
    ensures Spanned(q) && s.period == 0 && forall x :: KeepsItsInterval(x, s)
    ensures !TimeOrdered(Run(q, s, seen).0)
  {
    CrowdIsCut(q, t);
    s := UncleanCutBreaksOrder(q, seen);
  }

  /** n updates dumps of the same five minutes, from collectors c, cc, ccc and so on. */
  function Crowd(n: nat): (q: seq<Input>)
    ensures |q| == n && forall i :: 0 <= i < n ==> q[i] == Updates(i)
  {
    seq(n, i requires 0 <= i < n => Updates(i))
  }

  function Updates(i: nat): Input
  {
    Input("", "", seq(i + 1, _ => 'c'), "updates", 0, 300)
  }

  /** There are such queues of any length. */
  lemma CrowdIsQueue(n: nat)
    ensures Ordered(Crowd(n)) && Crowded(Crowd(n), 0) && |Crowd(n)| == n
  {
    var q := Crowd(n);
    forall i, j | 0 <= i < j < n
      ensures !Before(q[j], q[i]) && !Same(q[i], q[j])
    {
      assert |q[i].collector| != |q[j].collector|;
    }
  }
}
