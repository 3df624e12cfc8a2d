/** The whole stream: the input queue is cut into batches, the inputs of a batch that the RIB
    period lets through become readers, and their merge is drained before the next batch is cut. */
module Stream {
  import opened Inputs
  import opened Readers
  import opened Merging
  import opened DumpRecords

  // ---------- thinning RIB dumps ----------

  /** last_processed_ts: for each collector, the time of the last RIB dump taken. */
  type Seen = map<string, int>

  function CollectorKey(x: Input): string
  {
    x.project + "." + x.collector
  }

  /** bgpstream_reader_period_check: whether x is taken. */
  function PeriodCheck(x: Input, period: int, seen: Seen): (bool, Seen)
  {
    var key := CollectorKey(x);
    if period == 0 || x.filetype != "ribs" then (true, seen)
    else if key !in seen then (true, seen[key := x.filetime])
    else if x.filetime == seen[key] then (true, seen)
    else if x.filetime < seen[key] + period then (false, seen)
    else (true, seen[key := x.filetime])
  }

  /** The inputs of a batch that become readers. */
  function Accept(xs: seq<Input>, period: int, seen: Seen): (seq<Input>, Seen)
  {
    if xs == [] then ([], seen)
    else
      var (taken, seen1) := PeriodCheck(xs[0], period, seen);
      var (rest, seen2) := Accept(xs[1..], period, seen1);
      (if taken then [xs[0]] + rest else rest, seen2)
  }

  /** What exporting a record does to last_processed_ts: a corrupted dump does not count. */
  function Exported(rec: Record, period: int, seen: Seen): Seen
  {
    if period != 0 && (rec.status == CorruptedSource || rec.status == CorruptedRecord)
    then seen[CollectorKey(rec.input) := 0] else seen
  }

  function ExportedAll(recs: seq<Record>, period: int, seen: Seen): Seen
  {
    if recs == [] then seen else ExportedAll(recs[1..], period, Exported(recs[0], period, seen))
  }

  // ---------- batches and runs ----------

  datatype Settings = Settings(period: int, windows: seq<Window>, dumps: Input -> Dump)

  function Created(xs: seq<Input>, dumps: Input -> Dump): (rs: seq<Reader>)
    ensures |rs| == |xs|
  {
    if xs == [] then [] else [Create(xs[0], dumps(xs[0]))] + Created(xs[1..], dumps)
  }

  /** The reader queue at the start of a batch. */
  function Opening(xs: seq<Input>, s: Settings, seen: Seen): seq<Reader>
  {
    AddReaders([], Created(Accept(xs, s.period, seen).0, s.dumps), s.windows)
  }

  /** Every batch of the run takes at least one input. */
  ghost predicate Progressing(q: seq<Input>)
    decreases |q|
  {
    q == [] || (BatchLength(q) > 0 && Progressing(q[BatchLength(q)..]))
  }

  /** What is queued after n rounds of the driver. */
  function Rounds(q: seq<Input>, n: nat): seq<Input>
    decreases n
  {
    if n == 0 then q else Rounds(q[BatchLength(q)..], n - 1)
  }

  /** The driver gets to the end of a queue exactly when every batch takes something, that is
      (BatchNonEmpty) when the head of each cut is of a known type with a positive span. */
  lemma RunEnds(q: seq<Input>)
    ensures Progressing(q) <==> exists n: nat :: Rounds(q, n) == []
  {
    if Progressing(q) {
      var n := LastRound(q);
      assert Rounds(q, n) == [];
    } else {
      forall n: nat
        ensures Rounds(q, n) != []
      {
        NeverEmpty(q, n);
      }
    }
  }

  lemma {:induction false} LastRound(q: seq<Input>) returns (n: nat)
    requires Progressing(q)
    ensures Rounds(q, n) == []
    decreases |q|
  {
    n := 0;
    if q != [] {
      n := LastRound(q[BatchLength(q)..]);
      n := n + 1;
    }
  }

  lemma {:induction false} NeverEmpty(q: seq<Input>, n: nat)
    requires !Progressing(q)
    ensures Rounds(q, n) != []
    decreases n
  {
    if BatchLength(q) == 0 {
      StuckFor(q, n);
    } else if n > 0 {
      NeverEmpty(q[BatchLength(q)..], n - 1);
    }
  }

  /** On a head that takes no batch the driver makes no progress, however many rounds it goes. */
  lemma {:induction false} StuckFor(q: seq<Input>, n: nat)
    requires BatchLength(q) == 0
    ensures Rounds(q, n) == q
  {
    if n > 0 {
      assert q[0..] == q;
      StuckFor(q, n - 1);
    }
  }

  lemma {:induction false} AllSpanned(q: seq<Input>)
    requires forall x :: x in q ==> Known(x) && x.span > 0
    ensures Progressing(q)
    decreases |q|
  {
    if q != [] {
      BatchNonEmpty(q);
      AllSpanned(q[BatchLength(q)..]);
    }
  }

  /** Every input is of a known type and spans some time. */
  ghost predicate Spanned(q: seq<Input>)
    ensures Spanned(q) ==> Progressing(q)
  {
    if forall x :: x in q ==> Known(x) && x.span > 0 then AllSpanned(q); true else false
  }

  /** All records from an input queue to its end, and last_processed_ts afterwards. */
  ghost function Run(q: seq<Input>, s: Settings, seen: Seen): (seq<Record>, Seen)
    requires Progressing(q)
    decreases |q|
  {
    if q == [] then ([], seen)
    else
      var k := BatchLength(q);
      var recs := Drain(Opening(q[..k], s, seen), s.windows);
      var (rest, after) := Run(q[k..], s, ExportedAll(recs, s.period, Accept(q[..k], s.period, seen).1));
      (recs + rest, after)
  }

  ghost predicate AllProgressing(answers: seq<seq<Input>>)
  {
    forall a :: a in answers ==> Progressing(PushAll([], a))
  }

  /** All records until the data source gives an empty answer. Each answer is pushed into an
      input queue that the answers before it have left empty. */
  ghost function RunAnswers(answers: seq<seq<Input>>, s: Settings, seen: Seen): seq<Record>
    requires AllProgressing(answers)
  {
    if answers == [] || answers[0] == [] then []
    else
      var (recs, after) := Run(PushAll([], answers[0]), s, seen);
      recs + RunAnswers(answers[1..], s, after)
  }

  lemma Queued(xs: seq<Input>)
    ensures Ordered(PushAll([], xs)) && forall x :: x in PushAll([], xs) ==> x in xs
    ensures Spanned(xs) ==> Spanned(PushAll([], xs))
  {
    PushAllOrdered([], xs);
  }

  // ---------- what is accepted ----------

  ghost predicate DistinctAll(xs: seq<Input>)
  {
    forall i, j :: 0 <= i < j < |xs| ==> xs[i] != xs[j]
  }

  lemma {:induction false} AcceptMembers(xs: seq<Input>, period: int, seen: Seen)
    ensures forall x :: x in Accept(xs, period, seen).0 ==> x in xs
    ensures forall x :: x in xs && (period == 0 || x.filetype != "ribs") ==> x in Accept(xs, period, seen).0
    ensures DistinctAll(xs) ==> DistinctAll(Accept(xs, period, seen).0)
  {
    if xs != [] {
      assert xs == [xs[0]] + xs[1..];
      AcceptMembers(xs[1..], period, PeriodCheck(xs[0], period, seen).1);
      if DistinctAll(xs) {
        assert DistinctAll(xs[1..]) && xs[0] !in xs[1..];
      }
    }
  }

  /** y is a RIB dump of the same collector as x. */
  predicate SameCollectorRib(x: Input, y: Input)
  {
    x.filetype == "ribs" && y.filetype == "ribs" && CollectorKey(x) == CollectorKey(y)
  }

  /** In time order from what was last seen. */
  ghost predicate Forward(xs: seq<Input>, seen: Seen)
  {
    && (forall i, j :: 0 <= i < j < |xs| ==> xs[i].filetime <= xs[j].filetime)
    && (forall x :: x in xs && CollectorKey(x) in seen ==> seen[CollectorKey(x)] <= x.filetime)
  }

  /** The RIB dumps taken from one collector have equal times or lie a period apart. */
  ghost predicate Spaced(x: Input, y: Input, period: int)
  {
    SameCollectorRib(x, y) ==> x.filetime == y.filetime || x.filetime + period <= y.filetime
  }

  ghost predicate SpacedFrom(seen: Seen, y: Input, period: int)
  {
    y.filetype == "ribs" && CollectorKey(y) in seen ==>
      seen[CollectorKey(y)] == y.filetime || seen[CollectorKey(y)] + period <= y.filetime
  }

  lemma CheckForward(xs: seq<Input>, period: int, seen: Seen)
    requires xs != [] && period > 0 && Forward(xs, seen)
    ensures Forward(xs[1..], PeriodCheck(xs[0], period, seen).1)
  {
    assert xs[0] in xs;
    forall x | x in xs[1..]
      ensures x in xs && xs[0].filetime <= x.filetime
    {
      var j :| 0 <= j < |xs[1..]| && xs[1..][j] == x;
      assert xs[j + 1] == x;
    }
  }

  /** Passing the check with y's last time settled settles it for x in front of y too. */
  lemma SpacedStep(x: Input, y: Input, period: int, seen: Seen)
    requires period > 0 && x.filetime <= y.filetime
    requires CollectorKey(x) in seen ==> seen[CollectorKey(x)] <= x.filetime
    requires SpacedFrom(PeriodCheck(x, period, seen).1, y, period)
    ensures SpacedFrom(seen, y, period)
    ensures PeriodCheck(x, period, seen).0 ==> Spaced(x, y, period)
  {
  }

  ghost predicate SpacedAll(ys: seq<Input>, period: int)
  {
    forall i, j :: 0 <= i < j < |ys| ==> Spaced(ys[i], ys[j], period)
  }

  lemma SpacedPrepend(x: Input, ys: seq<Input>, period: int)
    requires SpacedAll(ys, period) && forall y :: y in ys ==> Spaced(x, y, period)
    ensures SpacedAll([x] + ys, period)
  {
    assert forall i :: 0 <= i < |ys| ==> ys[i] in ys;
  }

  /** The RIB dumps a batch takes from one collector are a period apart, or of the same time. */
  lemma {:induction false} AcceptedAreSpaced(xs: seq<Input>, period: int, seen: Seen)
    requires period > 0 && Forward(xs, seen)
    ensures forall x :: x in Accept(xs, period, seen).0 ==> SpacedFrom(seen, x, period)
    ensures SpacedAll(Accept(xs, period, seen).0, period)
  {
    if xs != [] {
      var x := xs[0];
      var (taken, seen1) := PeriodCheck(x, period, seen);
      var rest := Accept(xs[1..], period, seen1).0;
      assert x in xs;
      CheckForward(xs, period, seen);
      AcceptedAreSpaced(xs[1..], period, seen1);
      AcceptMembers(xs[1..], period, seen1);
      forall y | y in rest
        ensures SpacedFrom(seen, y, period)
        ensures taken ==> Spaced(x, y, period)
      {
        var j :| 0 <= j < |xs[1..]| && xs[1..][j] == y;
        assert xs[j + 1] == y;
        SpacedStep(x, y, period, seen);
      }
      if taken {
        SpacedPrepend(x, rest, period);
      }
    }
  }

  // ---------- conservation over a run ----------

  lemma {:induction false} CreatedMembers(xs: seq<Input>, dumps: Input -> Dump)
    ensures forall r :: r in Created(xs, dumps) <==> r.input in xs && r == Create(r.input, dumps(r.input))
    ensures DistinctAll(xs) ==> DistinctInputs(Created(xs, dumps))
  {
    if xs != [] {
      CreatedMembers(xs[1..], dumps);
      assert xs == [xs[0]] + xs[1..];
      if DistinctAll(xs) {
        assert DistinctAll(xs[1..]) && xs[0] !in xs[1..];
        var rest := Created(xs[1..], dumps);
        assert forall j :: 0 <= j < |rest| ==> rest[j] in rest;
      }
    }
  }

  lemma ReadKeepsInput(r: Reader, windows: seq<Window>)
    ensures ReadNewData(r, windows).input == r.input
  {
    if r.status == ValidEntry {
      ReadingProgresses(r, windows);
    }
  }

  ghost predicate Apart(q: seq<Reader>, rs: seq<Reader>)
  {
    forall a, b :: a in q && b in rs ==> a.input != b.input
  }

  lemma HeadApart(q: seq<Reader>, rs: seq<Reader>, windows: seq<Window>)
    requires rs != [] && DistinctInputs(q) && DistinctInputs(rs) && Apart(q, rs)
    ensures var q' := SortedInsert(q, ReadNewData(rs[0], windows));
      DistinctInputs(q') && DistinctInputs(rs[1..]) && Apart(q', rs[1..])
  {
    var r := ReadNewData(rs[0], windows);
    ReadKeepsInput(rs[0], windows);
    assert rs == [rs[0]] + rs[1..];
    InsertDistinct(q, r);
    InsertMembers(q, r);
    forall b | b in rs[1..]
      ensures b.input != r.input
    {
      var j :| 0 <= j < |rs[1..]| && rs[1..][j] == b;
      assert rs[j + 1] == b;
    }
  }

  /** a is a reader of rs after its first read. */
  ghost predicate FirstReadOf(a: Reader, rs: seq<Reader>, windows: seq<Window>)
  {
    exists b :: b in rs && a == ReadNewData(b, windows)
  }

  lemma {:induction false} AddReadersDistinct(q: seq<Reader>, rs: seq<Reader>, windows: seq<Window>)
    requires DistinctInputs(q) && DistinctInputs(rs) && Apart(q, rs)
    ensures DistinctInputs(AddReaders(q, rs, windows))
    decreases |rs|
  {
    if rs != [] {
      HeadApart(q, rs, windows);
      AddReadersDistinct(SortedInsert(q, ReadNewData(rs[0], windows)), rs[1..], windows);
    }
  }

  lemma {:induction false} AddReadersMembers(q: seq<Reader>, rs: seq<Reader>, windows: seq<Window>)
    ensures forall a :: a in AddReaders(q, rs, windows) <==> a in q || FirstReadOf(a, rs, windows)
    decreases |rs|
  {
    if rs != [] {
      var r := ReadNewData(rs[0], windows);
      InsertMembers(q, r);
      AddReadersMembers(SortedInsert(q, r), rs[1..], windows);
      assert rs == [rs[0]] + rs[1..];
      forall a
        ensures FirstReadOf(a, rs, windows) <==> a == r || FirstReadOf(a, rs[1..], windows)
      {
        if a == r {
          assert rs[0] in rs;
        }
      }
    }
  }

  /** x is thinned out: a RIB dump, and there is a RIB period. */
  predicate CanBeSkipped(x: Input, period: int)
  {
    period != 0 && x.filetype == "ribs"
  }

  /** What a batch returns from x: all that its dump contributes, or nothing if x is not in the
      batch or is thinned out. */
  lemma OpeningConserves(xs: seq<Input>, s: Settings, seen: Seen, x: Input)
    requires DistinctAll(xs)
    ensures From(Drain(Opening(xs, s, seen), s.windows), x)
      == if x in Accept(xs, s.period, seen).0 then Contribution(x, s.dumps(x), s.windows) else []
  {
    var ys := Accept(xs, s.period, seen).0;
    AcceptMembers(xs, s.period, seen);
    CreatedMembers(ys, s.dumps);
    var rs := Created(ys, s.dumps);
    AddReadersDistinct([], rs, s.windows);
    AddReadersMembers([], rs, s.windows);
    if x in ys {
      var b := Create(x, s.dumps(x));
      assert b in rs;
      ReadKeepsInput(b, s.windows);
      assert FirstReadOf(ReadNewData(b, s.windows), rs, s.windows);
      MergeConserves(Opening(xs, s, seen), s.windows, ReadNewData(b, s.windows));
      AloneIsContribution(x, s.dumps(x), s.windows);
    } else {
      forall r | r in Opening(xs, s, seen)
        ensures r.input != x
      {
        var b :| b in rs && r == ReadNewData(b, s.windows);
        ReadKeepsInput(b, s.windows);
      }
      NothingFromElsewhere(Opening(xs, s, seen), s.windows, x);
    }
  }

  lemma OrderedParts(q: seq<Input>, k: nat)
    requires Ordered(q) && k <= |q|
    ensures Ordered(q[..k]) && Ordered(q[k..]) && DistinctAll(q[..k])
    ensures forall x :: x in q <==> x in q[..k] || x in q[k..]
    ensures forall x :: x in q[..k] ==> x !in q[k..]
  {
    assert q == q[..k] + q[k..];
    forall i, j | 0 <= i < k <= j < |q|
      ensures q[i] != q[j]
    {
      assert Same(q[i], q[i]);
    }
    forall i, j | 0 <= i < j < k
      ensures q[i] != q[j]
    {
      assert Same(q[i], q[i]);
    }
  }

  /** The dumps a whole run takes. */
  ghost function Taken(q: seq<Input>, s: Settings, seen: Seen): seq<Input>
    requires Progressing(q)
    decreases |q|
  {
    if q == [] then []
    else
      var k := BatchLength(q);
      var recs := Drain(Opening(q[..k], s, seen), s.windows);
      Accept(q[..k], s.period, seen).0
      + Taken(q[k..], s, ExportedAll(recs, s.period, Accept(q[..k], s.period, seen).1))
  }

  /** A run takes only what is queued, and everything that is not a RIB under a RIB period. */
  lemma {:induction false} TakenMembers(q: seq<Input>, s: Settings, seen: Seen)
    requires Progressing(q)
    ensures forall x :: x in Taken(q, s, seen) ==> x in q
    ensures forall x :: x in q && !CanBeSkipped(x, s.period) ==> x in Taken(q, s, seen)
    decreases |q|
  {
    if q != [] {
      var k := BatchLength(q);
      AcceptMembers(q[..k], s.period, seen);
      var recs := Drain(Opening(q[..k], s, seen), s.windows);
      TakenMembers(q[k..], s, ExportedAll(recs, s.period, Accept(q[..k], s.period, seen).1));
      assert q == q[..k] + q[k..];
    }
  }

  /** A whole run conserves every dump: the records that come from an input are exactly the
      contribution of its dump, in the dump's order, if the run takes it, and none otherwise. */
  lemma {:induction false} RunConserves(q: seq<Input>, s: Settings, seen: Seen, x: Input)
    requires Ordered(q) && Progressing(q)
    ensures From(Run(q, s, seen).0, x)
      == if x in Taken(q, s, seen) then Contribution(x, s.dumps(x), s.windows) else []
    decreases |q|
  {
    if q != [] {
      var k := BatchLength(q);
      OrderedParts(q, k);
      OpeningConserves(q[..k], s, seen, x);
      AcceptMembers(q[..k], s.period, seen);
      var recs := Drain(Opening(q[..k], s, seen), s.windows);
      var next := ExportedAll(recs, s.period, Accept(q[..k], s.period, seen).1);
      TakenMembers(q[k..], s, next);
      RunConserves(q[k..], s, next, x);
      FromConcat(recs, Run(q[k..], s, next).0, x);
    }
  }

  // ---------- conservation over several answers of the data source ----------

  lemma AnswersUnfolded(answers: seq<seq<Input>>, s: Settings, seen: Seen, x: Input)
    requires answers != [] && answers[0] != [] && AllProgressing(answers)
    ensures AllProgressing(answers[1..])
    ensures Ordered(PushAll([], answers[0])) && Progressing(PushAll([], answers[0]))
    ensures forall y :: y in PushAll([], answers[0]) ==> y in answers[0]
    ensures var (recs, after) := Run(PushAll([], answers[0]), s, seen);
      From(RunAnswers(answers, s, seen), x) == From(recs, x) + From(RunAnswers(answers[1..], s, after), x)
  {
    assert answers == [answers[0]] + answers[1..] && answers[0] in answers;
    Queued(answers[0]);
    var (recs, after) := Run(PushAll([], answers[0]), s, seen);
    FromConcat(recs, RunAnswers(answers[1..], s, after), x);
  }

  lemma {:induction false} NothingFromOtherAnswers(answers: seq<seq<Input>>, s: Settings, seen: Seen, x: Input)
    requires AllProgressing(answers) && forall a :: a in answers ==> x !in a
    ensures From(RunAnswers(answers, s, seen), x) == []
  {
    if answers != [] && answers[0] != [] {
      AnswersUnfolded(answers, s, seen, x);
      var q := PushAll([], answers[0]);
      assert answers == [answers[0]] + answers[1..] && answers[0] in answers;
      RunConserves(q, s, seen, x);
      TakenMembers(q, s, seen);
      NothingFromOtherAnswers(answers[1..], s, Run(q, s, seen).1, x);
    }
  }

  /** Of a dump that only answer i names, everything the data source gives before it runs out
      returns exactly the contribution, if the run of that answer takes it. */
  lemma {:induction false} AnswersConserve(answers: seq<seq<Input>>, s: Settings, seen: Seen, x: Input, i: nat)
    returns (then_: Seen)
    requires AllProgressing(answers) && i < |answers|
    requires forall j :: 0 <= j <= i ==> answers[j] != []
    requires forall j :: 0 <= j < |answers| && j != i ==> x !in answers[j]
    ensures answers[i] in answers && Progressing(PushAll([], answers[i]))
    ensures From(RunAnswers(answers, s, seen), x)
      == if x in Taken(PushAll([], answers[i]), s, then_) then Contribution(x, s.dumps(x), s.windows) else []
  {
    AnswersUnfolded(answers, s, seen, x);
    var q := PushAll([], answers[0]);
    RunConserves(q, s, seen, x);
    TakenMembers(q, s, seen);
    if i == 0 {
      then_ := seen;
      NothingFromOtherAnswers(answers[1..], s, Run(q, s, seen).1, x);
    } else {
      then_ := AnswersConserve(answers[1..], s, Run(q, s, seen).1, x, i - 1);
    }
  }
}
