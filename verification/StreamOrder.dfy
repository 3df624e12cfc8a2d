/** Time order over a whole run: exactly when every cut of the input queue is clean. */
module StreamOrder {
  import opened Wrappers
  import opened Inputs
  import opened Readers
  import opened Merging
  import opened DumpRecords
  import opened MergeOrder
  import opened Stream

  // ---------- time order over a run ----------

  /** The dump's times never go back and stay in the interval its input announces. */
  ghost predicate KeepsItsInterval(x: Input, s: Settings)
  {
    s.dumps(x).Opened? ==> TimesFrom(s.dumps(x).items, x.filetime, x.filetime + x.span, s.windows)
  }

  /** No batch of the run is cut short by the cap on readers. */
  ghost predicate NeverCapped(q: seq<Input>)
    decreases |q|
  {
    BatchLength(q) > 0 ==> Uncapped(q) && NeverCapped(q[BatchLength(q)..])
  }

  lemma {:induction false} TimesWiden(items: seq<Item>, lo: int, hi: int, hi': int, windows: seq<Window>)
    requires TimesFrom(items, lo, hi, windows) && hi <= hi'
    ensures TimesFrom(items, lo, hi', windows)
  {
    if items != [] {
      match items[0]
      case Corrupted =>
      case Blank => TimesWiden(items[1..], lo, hi, hi', windows);
      case Read(e) => TimesWiden(items[1..], if Passes(windows, e) then e.time else lo, hi, hi', windows);
    }
  }

  lemma CreatedSteady(ys: seq<Input>, s: Settings, lo: int, hi: int)
    requires forall x :: x in ys ==> Known(x) && x.span > 0
    requires forall x :: x in ys ==> KeepsItsInterval(x, s) && lo <= x.filetime && End(x) <= hi
    ensures forall r :: r in Created(ys, s.dumps) ==> Steady(r, hi, s.windows) && lo <= r.recordTime
  {
    CreatedMembers(ys, s.dumps);
    forall r | r in Created(ys, s.dumps)
      ensures Steady(r, hi, s.windows) && lo <= r.recordTime
    {
      var x := r.input;
      assert x in ys;
      if r.dump.Opened? {
        TimesWiden(r.dump.items, x.filetime, x.filetime + x.span, hi, s.windows);
      }
    }
  }

  /** The records of one batch are in order and inside the interval its inputs span. */
  lemma BatchOrdered(xs: seq<Input>, s: Settings, seen: Seen, lo: int, hi: int)
    requires Spanned(xs) && forall x :: x in xs ==> KeepsItsInterval(x, s) && lo <= x.filetime && End(x) <= hi
    ensures var recs := Drain(Opening(xs, s, seen), s.windows);
      TimeOrdered(recs) && forall rec :: rec in recs ==> lo <= rec.time < hi
  {
    var ys := Accept(xs, s.period, seen).0;
    AcceptMembers(xs, s.period, seen);
    CreatedSteady(ys, s, lo, hi);
    AddReadersSorted([], Created(ys, s.dumps), lo, hi, s.windows);
    DrainOrdered(Opening(xs, s, seen), lo, hi, s.windows);
  }

  lemma HeadIsEarliest(q: seq<Input>)
    requires Ordered(q) && q != []
    ensures forall x :: x in q ==> q[0].filetime <= x.filetime
  {
    forall x | x in q
      ensures q[0].filetime <= x.filetime
    {
      var j :| 0 <= j < |q| && q[j] == x;
      assert j > 0 ==> !Before(q[j], q[0]);
    }
  }

  lemma TimeOrderedConcat(a: seq<Record>, b: seq<Record>, mid: int)
    requires TimeOrdered(a) && TimeOrdered(b)
    requires (forall r :: r in a ==> r.time <= mid) && (forall r :: r in b ==> mid <= r.time)
    ensures TimeOrdered(a + b)
  {
    assert forall i :: 0 <= i < |a| ==> a[i] in a;
    assert forall i :: 0 <= i < |b| ==> b[i] in b;
  }

  /** No input left behind at a cut can have a record earlier than one of the batch. */
  ghost predicate CleanCut(xs: seq<Input>, later: seq<Input>)
  {
    forall x, y :: x in xs && y in later ==> End(x) <= y.filetime + 1
  }

  ghost predicate CleanCuts(q: seq<Input>)
    decreases |q|
  {
    var k := BatchLength(q);
    k > 0 ==> CleanCut(q[..k], q[k..]) && CleanCuts(q[k..])
  }

  /** Overlapping inputs stay together in a batch, so only the cap can make a cut unclean. */
  lemma {:induction false} UncappedCutsAreClean(q: seq<Input>)
    requires Ordered(q) && Spanned(q) && NeverCapped(q)
    ensures CleanCuts(q)
    decreases |q|
  {
    if q != [] {
      BatchNonEmpty(q);
      var k := BatchLength(q);
      TakeExact(q, 0, End(q[0]));
      ReachBounds(q[..k], End(q[0]));
      OrderedParts(q, k);
      if k < |q| {
        HeadIsEarliest(q[k..]);
        assert q[k] in q && q[k..][0] == q[k];
      }
      UncappedCutsAreClean(q[k..]);
    }
  }

  lemma {:induction false} ReachIsLeast(q: seq<Input>, end: int, bound: int)
    requires end <= bound && forall x :: x in q ==> End(x) <= bound
    ensures Reach(q, end) <= bound
  {
    if q != [] {
      ReachIsLeast(q[1..], Later(end, End(q[0])), bound);
    }
  }

  /** The records of a whole run come in time order, across batches as well as inside one, when
      the cuts are clean. */
  lemma {:induction false} RunOrdered(q: seq<Input>, s: Settings, seen: Seen)
    requires Ordered(q) && Spanned(q) && CleanCuts(q) && forall x :: x in q ==> KeepsItsInterval(x, s)
    ensures TimeOrdered(Run(q, s, seen).0)
    ensures q != [] ==> forall rec :: rec in Run(q, s, seen).0 ==> q[0].filetime <= rec.time
    decreases |q|
  {
    if q != [] {
      BatchNonEmpty(q);
      var k := BatchLength(q);
      var hi := Reach(q[..k], End(q[0]));
      OrderedParts(q, k);
      HeadIsEarliest(q);
      ReachBounds(q[..k], End(q[0]));
      BatchOrdered(q[..k], s, seen, q[0].filetime, hi);
      var recs := Drain(Opening(q[..k], s, seen), s.windows);
      var next := ExportedAll(recs, s.period, Accept(q[..k], s.period, seen).1);
      RunOrdered(q[k..], s, next);
      if k < |q| {
        assert q[k..][0] in q[k..] && q[k..][0] in q && q[..k][0] in q[..k];
        ReachIsLeast(q[..k], End(q[0]), q[k].filetime + 1);
        TimeOrderedConcat(recs, Run(q[k..], s, next).0, q[k].filetime);
      }
    }
  }

  lemma {:induction false} NoPeriod(xs: seq<Input>, recs: seq<Record>, seen: Seen)
    ensures Accept(xs, 0, seen) == (xs, seen) && ExportedAll(recs, 0, seen) == seen
  {
    if xs != [] {
      NoPeriod(xs[1..], recs, seen);
      assert xs == [xs[0]] + xs[1..];
    }
    if xs == [] && recs != [] {
      NoPeriod(xs, recs[1..], seen);
    }
  }

  /** A dump with a single entry, at the given time. */
  function OneEntry(time: int): Dump
  {
    Opened([Read(Entry(time, 0))])
  }

  function OneEntryRecord(x: Input, time: int): Record
  {
    Record(x, time, Some(Entry(time, 0)), DumpEnd, ValidRecord)
  }

  lemma OneEntryContribution(x: Input, time: int)
    ensures Contribution(x, OneEntry(time), []) == [OneEntryRecord(x, time)]
  {
    assert [Read(Entry(time, 0))][1..] == [];
    assert Entries([Read(Entry(time, 0))]) == [Entry(time, 0)];
    assert Passing(x, [Entry(time, 0)], 1, false, []) == [];
  }

  lemma LateRecord(recs: seq<Record>, rest: seq<Record>, a: Record, b: Record)
    requires a in recs && b in rest && b.time < a.time
    ensures !TimeOrdered(recs + rest)
  {
    var i :| 0 <= i < |recs| && recs[i] == a;
    var j :| 0 <= j < |rest| && rest[j] == b;
    assert (recs + rest)[i] == a && (recs + rest)[|recs| + j] == b;
  }

  lemma TailOrdered(recs: seq<Record>, rest: seq<Record>)
    requires TimeOrdered(recs + rest)
    ensures TimeOrdered(rest)
  {
    assert forall i :: 0 <= i < |rest| ==> rest[i] == (recs + rest)[|recs| + i];
  }

  /** The dumps that show a cut unclean: a late entry before it, an early one after it. */
  function Witness(x: Input, y: Input): Settings
  {
    Settings(0, [], z => if z == x then OneEntry(End(x) - 1) else if z == y then OneEntry(y.filetime) else Unopenable)
  }

  lemma WitnessKeepsIntervals(x: Input, y: Input)
    requires Known(x) && Known(y) && x.span > 0 && y.span > 0
    ensures forall z :: KeepsItsInterval(z, Witness(x, y))
  {
    OneEntryTimes(End(x) - 1, x.filetime, x.filetime + x.span);
    OneEntryTimes(y.filetime, y.filetime, y.filetime + y.span);
  }

  lemma OneEntryTimes(t: int, lo: int, hi: int)
    requires lo <= t < hi
    ensures TimesFrom(OneEntry(t).items, lo, hi, [])
  {
    assert OneEntry(t).items[1..] == [];
  }

  lemma WitnessRecords(x: Input, y: Input)
    requires x != y
    ensures Contribution(x, Witness(x, y).dumps(x), []) == [OneEntryRecord(x, End(x) - 1)]
    ensures Contribution(y, Witness(x, y).dumps(y), []) == [OneEntryRecord(y, y.filetime)]
  {
    OneEntryContribution(x, End(x) - 1);
    OneEntryContribution(y, y.filetime);
  }

  lemma InBatch(xs: seq<Input>, x: Input, y: Input, seen: Seen)
    requires DistinctAll(xs) && x in xs && x != y
    ensures OneEntryRecord(x, End(x) - 1) in Drain(Opening(xs, Witness(x, y), seen), [])
  {
    var s := Witness(x, y);
    NoPeriod(xs, [], seen);
    WitnessRecords(x, y);
    OpeningConserves(xs, s, seen, x);
    FromOrigin(Drain(Opening(xs, s, seen), []), x, OneEntryRecord(x, End(x) - 1));
  }

  lemma InRest(q: seq<Input>, x: Input, y: Input, seen: Seen)
    requires Ordered(q) && Spanned(q) && y in q && x != y
    ensures OneEntryRecord(y, y.filetime) in Run(q, Witness(x, y), seen).0
  {
    WitnessRecords(x, y);
    RunConserves(q, Witness(x, y), seen, y);
    TakenMembers(q, Witness(x, y), seen);
    FromOrigin(Run(q, Witness(x, y), seen).0, y, OneEntryRecord(y, y.filetime));
  }

  lemma LateInBatch(q: seq<Input>, x: Input, y: Input, seen: Seen)
    requires Ordered(q) && Spanned(q) && q != []
    requires x in q[..BatchLength(q)] && y in q[BatchLength(q)..] && End(x) > y.filetime + 1
    ensures !TimeOrdered(Run(q, Witness(x, y), seen).0)
  {
    BatchNonEmpty(q);
    var k, s := BatchLength(q), Witness(x, y);
    OrderedParts(q, k);
    var recs := Drain(Opening(q[..k], s, seen), s.windows);
    NoPeriod(q[..k], recs, seen);
    InBatch(q[..k], x, y, seen);
    InRest(q[k..], x, y, seen);
    LateRecord(recs, Run(q[k..], s, seen).0, OneEntryRecord(x, End(x) - 1), OneEntryRecord(y, y.filetime));
  }

  /** The condition is exact: at any unclean cut, some dumps that keep their intervals come out
      of order. */
  lemma {:induction false} UncleanCutBreaksOrder(q: seq<Input>, seen: Seen) returns (s: Settings)
    requires Ordered(q) && Spanned(q) && !CleanCuts(q)
    ensures forall x :: KeepsItsInterval(x, s)
    ensures s.period == 0 && !TimeOrdered(Run(q, s, seen).0)
    decreases |q|
  {
    BatchNonEmpty(q);
    var k := BatchLength(q);
    OrderedParts(q, k);
    if CleanCut(q[..k], q[k..]) {
      s := UncleanCutBreaksOrder(q[k..], seen);
      var recs := Drain(Opening(q[..k], s, seen), s.windows);
      NoPeriod(q[..k], recs, seen);
      if TimeOrdered(Run(q, s, seen).0) {
        TailOrdered(recs, Run(q[k..], s, seen).0);
      }
    } else {
      var x, y :| x in q[..k] && y in q[k..] && End(x) > y.filetime + 1;
      s := Witness(x, y);
      WitnessKeepsIntervals(x, y);
      LateInBatch(q, x, y, seen);
    }
  }

  lemma {:induction false} RunWithin(q: seq<Input>, s: Settings, seen: Seen, lo: int, hi: int)
    requires Spanned(q) && forall x :: x in q ==> KeepsItsInterval(x, s) && lo <= x.filetime && End(x) <= hi
    ensures forall rec :: rec in Run(q, s, seen).0 ==> lo <= rec.time < hi
    decreases |q|
  {
    if q != [] {
      BatchNonEmpty(q);
      var k := BatchLength(q);
      BatchOrdered(q[..k], s, seen, lo, hi);
      var recs := Drain(Opening(q[..k], s, seen), s.windows);
      RunWithin(q[k..], s, ExportedAll(recs, s.period, Accept(q[..k], s.period, seen).1), lo, hi);
    }
  }

  // ---------- time order over several answers of the data source ----------

  /** One answer on its own gives an ordered run. */
  ghost predicate WellTimed(a: seq<Input>, s: Settings)
    ensures WellTimed(a, s) ==> Progressing(PushAll([], a))
  {
    Spanned(a) && (Queued(a); CleanCuts(PushAll([], a))) && forall x :: x in a ==> KeepsItsInterval(x, s)
  }

  ghost predicate AllWellTimed(answers: seq<seq<Input>>, s: Settings)
    ensures AllWellTimed(answers, s) ==> AllProgressing(answers)
  {
    forall a {:trigger a in answers} :: a in answers ==> WellTimed(a, s)
  }

  /** Nothing in b is earlier than the end of anything in a. */
  ghost predicate WhollyBefore(a: seq<Input>, b: seq<Input>)
  {
    forall x, y :: x in a && y in b ==> End(x) <= y.filetime
  }

  ghost predicate AnswersAscend(answers: seq<seq<Input>>)
  {
    forall i, j :: 0 <= i < j < |answers| ==> WhollyBefore(answers[i], answers[j])
  }

  lemma {:induction false} AnswersFrom(answers: seq<seq<Input>>, s: Settings, seen: Seen, lo: int)
    requires AllWellTimed(answers, s) && forall a, x :: a in answers && x in a ==> lo <= x.filetime
    ensures forall rec :: rec in RunAnswers(answers, s, seen) ==> lo <= rec.time
  {
    if answers != [] && answers[0] != [] {
      assert answers[0] in answers && WellTimed(answers[0], s);
      Queued(answers[0]);
      var q := PushAll([], answers[0]);
      var hi := Reach(q, lo);
      ReachBounds(q, lo);
      RunWithin(q, s, seen, lo, hi);
      assert answers == [answers[0]] + answers[1..];
      AnswersFrom(answers[1..], s, Run(q, s, seen).1, lo);
    }
  }

  lemma LaterAnswers(answers: seq<seq<Input>>, s: Settings)
    requires answers != [] && AllWellTimed(answers, s) && AnswersAscend(answers)
    ensures AllWellTimed(answers[1..], s) && AnswersAscend(answers[1..])
    ensures forall b, x, y :: b in answers[1..] && x in answers[0] && y in b ==> End(x) <= y.filetime
  {
    var rest := answers[1..];
    assert answers == [answers[0]] + rest;
    forall a | a in rest
      ensures WellTimed(a, s)
    {
      assert a in answers;
    }
    forall i, j | 0 <= i < j < |rest|
      ensures WhollyBefore(rest[i], rest[j])
    {
      assert rest[i] == answers[i + 1] && rest[j] == answers[j + 1];
    }
    forall b | b in rest
      ensures WhollyBefore(answers[0], b)
    {
      var j :| 0 <= j < |rest| && rest[j] == b;
      assert answers[j + 1] == b;
    }
  }

  /** Time order holds over any number of answers when each begins where the ones before end. */
  lemma {:induction false} AnswersOrdered(answers: seq<seq<Input>>, s: Settings, seen: Seen)
    requires AllWellTimed(answers, s) && AnswersAscend(answers)
    ensures TimeOrdered(RunAnswers(answers, s, seen))
  {
    if answers != [] && answers[0] != [] {
      var a := answers[0];
      assert a in answers && WellTimed(a, s);
      Queued(a);
      var q := PushAll([], a);
      var hi := Reach(q, End(a[0]));
      ReachBounds(q, End(a[0]));
      var (recs, after) := Run(q, s, seen);
      RunOrdered(q, s, seen);
      if q != [] {
        HeadIsEarliest(q);
        RunWithin(q, s, seen, q[0].filetime, hi);
      }
      LaterAnswers(answers, s);
      AnswersOrdered(answers[1..], s, after);
      forall b, y | b in answers[1..] && y in b
        ensures hi <= y.filetime
      {
        ReachIsLeast(q, End(a[0]), y.filetime);
      }
      AnswersFrom(answers[1..], s, after, hi);
      TimeOrderedConcat(recs, RunAnswers(answers[1..], s, after), hi);
    }
  }
}
