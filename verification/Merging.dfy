/** What the merge of a batch returns: every reader's records, each reader's own order kept,
    nothing added or lost; and all records in time order. */
module Merging {
  import opened Wrappers
  import opened Inputs
  import opened Readers

  // ---------- conservation ----------

  ghost predicate DistinctInputs(q: seq<Reader>)
  {
    forall i, j :: 0 <= i < j < |q| ==> q[i].input != q[j].input
  }

  /** The records that came from x's dump. */
  function From(recs: seq<Record>, x: Input): seq<Record>
  {
    if recs == [] then []
    else (if recs[0].input == x then [recs[0]] else []) + From(recs[1..], x)
  }

  lemma {:induction false} FromConcat(a: seq<Record>, b: seq<Record>, x: Input)
    ensures From(a + b, x) == From(a, x) + From(b, x)
  {
    if a == [] {
      assert a + b == b;
    } else {
      FromConcat(a[1..], b, x);
      assert (a + b)[1..] == a[1..] + b;
    }
  }

  lemma {:induction false} FromOrigin(recs: seq<Record>, x: Input, rec: Record)
    requires rec in From(recs, x)
    ensures rec in recs && rec.input == x
  {
    if recs[0] != rec || recs[0].input != x {
      FromOrigin(recs[1..], x, rec);
    }
  }

  lemma {:induction false} InsertMembers(q: seq<Reader>, r: Reader)
    ensures forall s :: s in SortedInsert(q, r) <==> s == r || s in q
  {
    if q != [] && !StopsAt(r, q[0]) {
      InsertMembers(q[1..], r);
      assert q == [q[0]] + q[1..];
    }
  }

  lemma {:induction false} InsertDistinct(q: seq<Reader>, r: Reader)
    requires DistinctInputs(q) && forall s :: s in q ==> s.input != r.input
    ensures DistinctInputs(SortedInsert(q, r))
  {
    if q == [] || StopsAt(r, q[0]) {
    } else {
      InsertDistinct(q[1..], r);
      InsertMembers(q[1..], r);
      var t := SortedInsert(q[1..], r);
      forall i | 0 <= i < |t|
        ensures t[i].input != q[0].input
      {
        assert t[i] in t;
        assert forall j :: 0 < j < |q| ==> q[j].input != q[0].input;
      }
    }
  }

  /** One step returns a record of the head, advances the head, and leaves the others alone. */
  lemma StepMembers(q: seq<Reader>, windows: seq<Window>)
    requires q != [] && DistinctInputs(q)
    ensures var (rec, q') := NextRecord(q, windows);
      && rec == RecordOf(q[0], windows) && rec.input == q[0].input
      && DistinctInputs(q')
      && forall s :: s in q' <==> s in q[1..] || Advance(q[0], windows) == Some(s)
  {
    match Advance(q[0], windows)
    case None =>
    case Some(r) =>
      AdvanceProgresses(q[0], windows);
      InsertMembers(q[1..], r);
      InsertDistinct(q[1..], r);
  }

  lemma DrainUnfolded(q: seq<Reader>, windows: seq<Window>, x: Input)
    requires q != [] && DistinctInputs(q)
    ensures From(Drain(q, windows), x) ==
      (if q[0].input == x then [RecordOf(q[0], windows)] else []) + From(Drain(NextRecord(q, windows).1, windows), x)
  {
    StepProgresses(q, windows);
    StepMembers(q, windows);
    var (rec, q') := NextRecord(q, windows);
    assert ([rec] + Drain(q', windows))[1..] == Drain(q', windows);
  }

  lemma OthersDiffer(q: seq<Reader>, r: Reader)
    requires q != [] && DistinctInputs(q)
    ensures r in q <==> r == q[0] || r in q[1..]
    ensures r in q[1..] ==> r.input != q[0].input
  {
    assert q == [q[0]] + q[1..];
  }

  /** An input no queued reader has contributes nothing. */
  lemma {:induction false} NothingFromElsewhere(q: seq<Reader>, windows: seq<Window>, x: Input)
    requires DistinctInputs(q) && forall r :: r in q ==> r.input != x
    ensures From(Drain(q, windows), x) == []
    decreases TotalWeight(q)
  {
    if q != [] {
      StepProgresses(q, windows);
      StepMembers(q, windows);
      DrainUnfolded(q, windows, x);
      AdvanceProgresses(q[0], windows);
      OthersDiffer(q, q[0]);
      forall r | r in NextRecord(q, windows).1
        ensures r.input != x
      {
        OthersDiffer(q, r);
      }
      NothingFromElsewhere(NextRecord(q, windows).1, windows, x);
    }
  }

  /** Merging gives each reader exactly the records it gives alone, in the same order. */
  lemma {:induction false} MergeConserves(q: seq<Reader>, windows: seq<Window>, r: Reader)
    requires DistinctInputs(q) && r in q
    ensures From(Drain(q, windows), r.input) == Alone(r, windows)
    decreases TotalWeight(q)
  {
    StepProgresses(q, windows);
    StepMembers(q, windows);
    DrainUnfolded(q, windows, r.input);
    AdvanceProgresses(q[0], windows);
    OthersDiffer(q, r);
    var q' := NextRecord(q, windows).1;
    if r != q[0] {
      MergeConserves(q', windows, r);
    } else {
      match Advance(r, windows)
      case Some(n) => MergeConserves(q', windows, n);
      case None =>
        forall s | s in q'
          ensures s.input != r.input
        {
          OthersDiffer(q, s);
        }
        NothingFromElsewhere(q', windows, r.input);
    }
  }
}
