/** What a RIB period leaves of a whole run. */
module StreamThinning {
  import opened Sequences
  import opened Inputs
  import opened Readers
  import opened Merging
  import opened DumpRecords
  import opened Stream

  /** x's dump opens and is not corrupted. */
  predicate Clean(x: Input, s: Settings)
  {
    s.dumps(x).Opened? && !EndsCorrupted(s.dumps(x).items)
  }

  lemma {:induction false} FromHolds(recs: seq<Record>, rec: Record)
    requires rec in recs
    ensures rec in From(recs, rec.input)
  {
    if recs[0] != rec {
      FromHolds(recs[1..], rec);
    }
  }

  lemma CleanContribution(x: Input, s: Settings, rec: Record)
    requires Clean(x, s) && rec in Contribution(x, s.dumps(x), s.windows)
    ensures rec.status != CorruptedSource && rec.status != CorruptedRecord
  {
    AllValid(x, Entries(s.dumps(x).items), 0, false, s.windows);
  }

  lemma {:induction false} CleanExports(recs: seq<Record>, period: int, seen: Seen)
    requires forall rec :: rec in recs ==> rec.status != CorruptedSource && rec.status != CorruptedRecord
    ensures ExportedAll(recs, period, seen) == seen
  {
    if recs != [] {
      assert recs[0] in recs;
      CleanExports(recs[1..], period, seen);
    }
  }

  /** A batch of clean dumps leaves the times last seen alone. */
  lemma CleanBatch(xs: seq<Input>, s: Settings, seen: Seen)
    requires DistinctAll(xs) && forall x :: x in xs ==> Clean(x, s)
    ensures var after := Accept(xs, s.period, seen).1;
      ExportedAll(Drain(Opening(xs, s, seen), s.windows), s.period, after) == after
  {
    var recs := Drain(Opening(xs, s, seen), s.windows);
    AcceptMembers(xs, s.period, seen);
    forall rec | rec in recs
      ensures rec.status != CorruptedSource && rec.status != CorruptedRecord
    {
      FromHolds(recs, rec);
      OpeningConserves(xs, s, seen, rec.input);
      CleanContribution(rec.input, s, rec);
    }
    CleanExports(recs, s.period, Accept(xs, s.period, seen).1);
  }

  lemma AcceptFirst(x: Input, rest: seq<Input>, period: int, seen: Seen)
    ensures var (taken, seen1) := PeriodCheck(x, period, seen);
      var (ys, seen2) := Accept(rest, period, seen1);
      Accept([x] + rest, period, seen) == ((if taken then [x] else []) + ys, seen2)
  {
    assert ([x] + rest)[1..] == rest;
    assert [] + Accept(rest, period, seen).0 == Accept(rest, period, seen).0;
  }

  /** Taking from a and then from b is taking from both. */
  lemma {:induction false} AcceptSplit(a: seq<Input>, b: seq<Input>, period: int, seen: Seen)
    ensures var (xs, seen1) := Accept(a, period, seen);
      var (ys, seen2) := Accept(b, period, seen1);
      Accept(a + b, period, seen) == (xs + ys, seen2)
  {
    if a == [] {
      assert a + b == b && [] + Accept(b, period, seen).0 == Accept(b, period, seen).0;
    } else {
      var (taken, seen0) := PeriodCheck(a[0], period, seen);
      AcceptSplit(a[1..], b, period, seen0);
      AcceptFirst(a[0], a[1..] + b, period, seen);
      AcceptFirst(a[0], a[1..], period, seen);
      assert a == [a[0]] + a[1..] && a + b == [a[0]] + (a[1..] + b);
      Assoc(if taken then [a[0]] else [], Accept(a[1..], period, seen0).0,
            Accept(b, period, Accept(a[1..], period, seen0).1).0);
    }
  }

  lemma AcceptCut(q: seq<Input>, k: nat, period: int, seen: Seen)
    requires k <= |q|
    ensures var (xs, seen1) := Accept(q[..k], period, seen);
      var (ys, seen2) := Accept(q[k..], period, seen1);
      Accept(q, period, seen) == (xs + ys, seen2)
  {
    AcceptSplit(q[..k], q[k..], period, seen);
    assert q == q[..k] + q[k..];
  }

  /** With clean dumps, cutting into batches does not change what is taken. */
  lemma {:induction false} TakenAtOnce(q: seq<Input>, s: Settings, seen: Seen)
    requires Ordered(q) && Progressing(q) && forall x :: x in q ==> Clean(x, s)
    ensures Taken(q, s, seen) == Accept(q, s.period, seen).0
    decreases |q|
  {
    if q != [] {
      TakenCut(q, s, seen);
      OrderedParts(q, BatchLength(q));
      TakenAtOnce(q[BatchLength(q)..], s, Accept(q[..BatchLength(q)], s.period, seen).1);
      AcceptCut(q, BatchLength(q), s.period, seen);
    }
  }

  lemma TakenCut(q: seq<Input>, s: Settings, seen: Seen)
    requires q != [] && Ordered(q) && Progressing(q) && forall x :: x in q ==> Clean(x, s)
    ensures BatchLength(q) > 0
    ensures var (xs, seen1) := Accept(q[..BatchLength(q)], s.period, seen);
      Taken(q, s, seen) == xs + Taken(q[BatchLength(q)..], s, seen1)
  {
    assert q[0] in q;
    BatchNonEmpty(q);
    OrderedParts(q, BatchLength(q));
    CleanBatch(q[..BatchLength(q)], s, seen);
  }

  /** Over a whole run of clean dumps, the RIB dumps taken from one collector are a period apart,
      or of the same time, and every one left out follows one taken by less than a period. */
  lemma RunIsThinned(q: seq<Input>, s: Settings)
    requires Ordered(q) && Progressing(q) && (forall x :: x in q ==> Clean(x, s)) && s.period > 0
    ensures SpacedAll(Taken(q, s, map[]), s.period)
    ensures forall y :: y in q && y !in Taken(q, s, map[]) ==>
      exists x :: x in Taken(q, s, map[]) && SameCollectorRib(x, y) && x.filetime < y.filetime < x.filetime + s.period
  {
    TakenAtOnce(q, s, map[]);
    OrderedIsForward(q);
    AcceptedAreSpaced(q, s.period, map[]);
    forall y | y in q && y !in Taken(q, s, map[])
      ensures exists x ::
        x in Taken(q, s, map[]) && SameCollectorRib(x, y) && x.filetime < y.filetime < x.filetime + s.period
    {
      SkippedHasReason(q, s.period, map[], y);
    }
  }

  lemma OrderedIsForward(q: seq<Input>)
    requires Ordered(q)
    ensures Forward(q, map[])
  {
    forall i, j | 0 <= i < j < |q|
      ensures q[i].filetime <= q[j].filetime
    {
      assert !Before(q[j], q[i]);
    }
  }

  /** x was taken, or last seen, less than a period before the RIB dump y. */
  ghost predicate HidesRib(taken: seq<Input>, seen: Seen, period: int, y: Input)
  {
    || (exists x :: x in taken && SameCollectorRib(x, y) && x.filetime < y.filetime < x.filetime + period)
    || (y.filetype == "ribs" && CollectorKey(y) in seen
      && seen[CollectorKey(y)] < y.filetime < seen[CollectorKey(y)] + period)
  }

  lemma {:induction false} SkippedHasReason(xs: seq<Input>, period: int, seen: Seen, y: Input)
    requires period > 0 && Forward(xs, seen) && y in xs && y !in Accept(xs, period, seen).0
    ensures HidesRib(Accept(xs, period, seen).0, seen, period, y)
  {
    var x := xs[0];
    var (taken, seen1) := PeriodCheck(x, period, seen);
    var rest := Accept(xs[1..], period, seen1).0;
    assert x in xs;
    if y == x {
      assert !taken;
    } else {
      assert xs == [x] + xs[1..];
      CheckForward(xs, period, seen);
      SkippedHasReason(xs[1..], period, seen1, y);
      if taken && x.filetype == "ribs" && CollectorKey(x) == CollectorKey(y) {
        assert x in [x] + rest;
      }
    }
  }

  // ---------- in names and times ----------

  lemma FirstDot(a: string, b: string, s: string)
    requires s == a + "." + b && '.' !in a
    ensures |a| < |s| && s[|a|] == '.' && forall i :: 0 <= i < |a| ==> s[i] != '.'
    ensures s[..|a|] == a && s[|a| + 1..] == b
  {
    forall i | 0 <= i < |a|
      ensures s[i] != '.'
    {
      assert s[i] == a[i] && a[i] in a;
    }
  }

  /** A name without a dot can be read off in front of the first one. */
  lemma DotSplits(a: string, b: string, c: string, d: string)
    requires a + "." + b == c + "." + d && '.' !in a && '.' !in c
    ensures a == c && b == d
  {
    var s := a + "." + b;
    FirstDot(a, b, s);
    FirstDot(c, d, s);
    assert |a| == |c|;
  }

  /** Of one project and collector, the RIB dumps of xs are of one time or a period apart. */
  ghost predicate RibsApart(xs: seq<Input>, period: int)
  {
    forall i, j :: 0 <= i < j < |xs| && xs[i].filetype == "ribs" && xs[j].filetype == "ribs" ==>
      xs[i].project == xs[j].project && xs[i].collector == xs[j].collector ==>
      xs[i].filetime == xs[j].filetime || xs[i].filetime + period <= xs[j].filetime
  }

  /** x is a RIB dump under the name "project.collector" of the RIB dump y, less than a period before it. */
  predicate Hides(x: Input, y: Input, period: int)
  {
    && x.filetype == "ribs" && y.filetype == "ribs"
    && x.project + "." + x.collector == y.project + "." + y.collector
    && x.filetime < y.filetime < x.filetime + period
  }

  /** Of one project and collector, the RIB dumps a run takes are of one time or a period apart; and one that
      is left out follows one taken by less than a period, of the same project and collector if projects
      have no dots in their names. */
  lemma RunIsThinnedByName(q: seq<Input>, s: Settings)
    requires Ordered(q) && Progressing(q) && (forall x :: x in q ==> Clean(x, s)) && s.period > 0
    ensures RibsApart(Taken(q, s, map[]), s.period)
    ensures forall y :: y in q && y !in Taken(q, s, map[]) ==>
      exists x :: x in Taken(q, s, map[]) && Hides(x, y, s.period)
    ensures forall x, y :: Hides(x, y, s.period) && '.' !in x.project && '.' !in y.project ==>
      x.project == y.project && x.collector == y.collector
  {
    RunIsThinned(q, s);
    SpacedIsApart(Taken(q, s, map[]), s.period);
    forall y | y in q && y !in Taken(q, s, map[])
      ensures exists x :: x in Taken(q, s, map[]) && Hides(x, y, s.period)
    {
      var x :| x in Taken(q, s, map[]) && SameCollectorRib(x, y) && x.filetime < y.filetime < x.filetime + s.period;
      assert Hides(x, y, s.period);
    }
    forall x, y | Hides(x, y, s.period) && '.' !in x.project && '.' !in y.project
      ensures x.project == y.project && x.collector == y.collector
    {
      DotSplits(x.project, x.collector, y.project, y.collector);
    }
  }

  lemma SpacedIsApart(xs: seq<Input>, period: int)
    requires SpacedAll(xs, period)
    ensures RibsApart(xs, period)
  {
    forall i, j | 0 <= i < j < |xs| && xs[i].filetype == "ribs" && xs[j].filetype == "ribs"
      ensures xs[i].project == xs[j].project && xs[i].collector == xs[j].collector ==>
        xs[i].filetime == xs[j].filetime || xs[i].filetime + period <= xs[j].filetime
    {
      assert Spaced(xs[i], xs[j], period);
    }
  }

  // ---------- corrupted dumps do not count ----------

  /** The next RIB dump of y's collector may be y. */
  predicate Due(y: Input, period: int, seen: Seen)
  {
    y.filetype == "ribs" && (CollectorKey(y) in seen ==> seen[CollectorKey(y)] + period <= y.filetime)
  }

  predicate OtherRib(x: Input, y: Input)
  {
    x.filetype != "ribs" || x.project + "." + x.collector != y.project + "." + y.collector
  }

  lemma {:induction false} DueIsAccepted(xs: seq<Input>, i: nat, period: int, seen: Seen, y: Input)
    requires i <= |xs| && period > 0 && Due(y, period, seen) && forall j :: 0 <= j < i ==> OtherRib(xs[j], y)
    ensures i < |xs| && xs[i] == y ==> y in Accept(xs, period, seen).0
    ensures i == |xs| ==> Due(y, period, Accept(xs, period, seen).1)
  {
    if i > 0 {
      DueIsAccepted(xs[1..], i - 1, period, PeriodCheck(xs[0], period, seen).1, y);
    }
  }

  lemma {:induction false} DueStays(recs: seq<Record>, period: int, seen: Seen, y: Input)
    requires Due(y, period, seen) && period <= y.filetime
    ensures Due(y, period, ExportedAll(recs, period, seen))
  {
    if recs != [] {
      DueStays(recs[1..], period, Exported(recs[0], period, seen), y);
    }
  }

  lemma OthersBehind(q: seq<Input>, k: nat, i: nat)
    requires k <= i < |q| && forall j :: k <= j < i ==> OtherRib(q[j], q[i])
    ensures q[k..][i - k] == q[i] && forall j :: 0 <= j < i - k ==> OtherRib(q[k..][j], q[i])
  {
    assert forall j :: 0 <= j < i - k ==> q[k..][j] == q[k + j];
  }

  /** The times last seen after a batch. */
  ghost function AfterBatch(xs: seq<Input>, s: Settings, seen: Seen): Seen
  {
    ExportedAll(Drain(Opening(xs, s, seen), s.windows), s.period, Accept(xs, s.period, seen).1)
  }

  /** The first RIB dump of a collector that is due is taken, whatever else the run holds. */
  lemma {:induction false} DueIsTaken(q: seq<Input>, s: Settings, seen: Seen, i: nat)
    requires Ordered(q) && Progressing(q) && s.period > 0 && i < |q|
    requires Due(q[i], s.period, seen) && s.period <= q[i].filetime
    requires forall j :: 0 <= j < i ==> OtherRib(q[j], q[i])
    ensures q[i] in Taken(q, s, seen)
    decreases |q|
  {
    var k, y := BatchLength(q), q[i];
    if i < k {
      DueIsAccepted(q[..k], i, s.period, seen, y);
    } else {
      DueIsAccepted(q[..k], k, s.period, seen, y);
      DueStays(Drain(Opening(q[..k], s, seen), s.windows), s.period, Accept(q[..k], s.period, seen).1, y);
      OrderedParts(q, k);
      OthersBehind(q, k, i);
      DueIsTaken(q[k..], s, AfterBatch(q[..k], s, seen), i - k);
    }
  }

  lemma {:induction false} CorruptedIsReset(recs: seq<Record>, period: int, seen: Seen, y: Input, rec: Record)
    requires period > 0 && y.filetype == "ribs" && period <= y.filetime
    requires rec in recs && (rec.status == CorruptedSource || rec.status == CorruptedRecord)
    requires rec.input.project == y.project && rec.input.collector == y.collector
    ensures Due(y, period, ExportedAll(recs, period, seen))
  {
    if recs[0] == rec {
      DueStays(recs[1..], period, Exported(rec, period, seen), y);
    } else {
      CorruptedIsReset(recs[1..], period, Exported(recs[0], period, seen), y, rec);
    }
  }

  /** A dump that does not open, or is corrupted, has a record that says so. */
  lemma CorruptedHasRecord(x: Input, dump: Dump, windows: seq<Window>) returns (rec: Record)
    requires dump == Unopenable || (dump.Opened? && Corrupted in dump.items)
    ensures rec in Contribution(x, dump, windows) && rec.input == x
    ensures rec.status == CorruptedSource || rec.status == CorruptedRecord
  {
    var c := Contribution(x, dump, windows);
    rec := c[|c| - 1];
  }

  lemma BatchResets(xs: seq<Input>, s: Settings, seen: Seen, x: Input, y: Input)
    requires DistinctAll(xs) && s.period > 0 && x in Accept(xs, s.period, seen).0
    requires s.dumps(x) == Unopenable || (s.dumps(x).Opened? && Corrupted in s.dumps(x).items)
    requires y.filetype == "ribs" && s.period <= y.filetime && y.project == x.project && y.collector == x.collector
    ensures Due(y, s.period, AfterBatch(xs, s, seen))
  {
    var recs := Drain(Opening(xs, s, seen), s.windows);
    OpeningConserves(xs, s, seen, x);
    var rec := CorruptedHasRecord(x, s.dumps(x), s.windows);
    FromOrigin(recs, x, rec);
    CorruptedIsReset(recs, s.period, Accept(xs, s.period, seen).1, y, rec);
  }

  /** A corrupted dump does not count: if one of a batch does not open or is corrupted, the first RIB dump of
      its project and collector behind the batch is taken, however soon it follows. */
  lemma CorruptedDoesNotCount(q: seq<Input>, s: Settings, seen: Seen, x: Input, i: nat)
    requires Ordered(q) && Progressing(q) && s.period > 0 && q != []
    requires x in Accept(q[..BatchLength(q)], s.period, seen).0
    requires s.dumps(x) == Unopenable || (s.dumps(x).Opened? && Corrupted in s.dumps(x).items)
    requires BatchLength(q) <= i < |q| && q[i].filetype == "ribs" && s.period <= q[i].filetime
    requires q[i].project == x.project && q[i].collector == x.collector
    requires forall j :: BatchLength(q) <= j < i ==> OtherRib(q[j], q[i])
    ensures q[i] in Taken(q, s, seen)
  {
    var k, y := BatchLength(q), q[i];
    OrderedParts(q, k);
    BatchResets(q[..k], s, seen, x, y);
    OthersBehind(q, k, i);
    DueIsTaken(q[k..], s, AfterBatch(q[..k], s, seen), i - k);
  }
}
