/** Records of the same time: those of RIB dumps come before those of updates dumps, and those of one
    dump come one after the other. */
module MergeTies {
  import opened Wrappers
  import opened Inputs
  import opened Readers
  import opened Merging
  import opened MergeOrder
  import opened Stream
  import opened StreamOrder

  /** Of readers at the same time, none of a RIB dump is queued behind one of an updates dump. */
  ghost predicate TypesInOrder(q: seq<Reader>)
  {
    forall i, j :: 0 <= i < j < |q| && q[i].recordTime == q[j].recordTime ==>
      !(q[i].input.filetype == "updates" && q[j].input.filetype == "ribs")
  }

  lemma {:induction false} InsertTypes(q: seq<Reader>, r: Reader)
    requires QueueSorted(q) && TypesInOrder(q)
    ensures TypesInOrder(SortedInsert(q, r))
  {
    if q != [] && !StopsAt(r, q[0]) {
      TailSorted(q);
      InsertTypes(q[1..], r);
      InsertMembers(q[1..], r);
      var t := SortedInsert(q[1..], r);
      forall j | 0 <= j < |t| && q[0].recordTime == t[j].recordTime
        ensures !(q[0].input.filetype == "updates" && t[j].input.filetype == "ribs")
      {
        assert t[j] in t;
        if t[j] in q[1..] {
          var k :| 0 <= k < |q[1..]| && q[1..][k] == t[j];
          assert q[k + 1] == t[j];
        }
      }
    }
  }

  lemma StepTypes(q: seq<Reader>, hi: int, windows: seq<Window>)
    requires q != [] && QueueSorted(q) && TypesInOrder(q) && forall r :: r in q ==> Ready(r, hi, windows)
    ensures TypesInOrder(NextRecord(q, windows).1)
  {
    assert q[0] in q;
    AdvanceReady(q[0], hi, windows);
    AdvanceProgresses(q[0], windows);
    TailSorted(q);
    match Advance(q[0], windows)
    case None =>
    case Some(r) => InsertTypes(q[1..], r);
  }

  // ---------- what comes later ----------

  /** All readers of the chosen inputs are past time t. */
  ghost predicate Past(q: seq<Reader>, chosen: Input -> bool, t: int)
  {
    forall r :: r in q && chosen(r.input) ==> t < r.recordTime
  }

  lemma StepPast(q: seq<Reader>, chosen: Input -> bool, t: int, hi: int, windows: seq<Window>)
    requires q != [] && QueueSorted(q) && (forall r :: r in q ==> Ready(r, hi, windows)) && Past(q, chosen, t)
    ensures var (rec, q') := NextRecord(q, windows); Past(q', chosen, t) && (chosen(rec.input) ==> t < rec.time)
  {
    assert q[0] in q;
    AdvanceReady(q[0], hi, windows);
    AdvanceProgresses(q[0], windows);
    TailSorted(q);
    match Advance(q[0], windows)
    case None =>
    case Some(r) => InsertMembers(q[1..], r);
  }

  /** Then so are all their records. */
  lemma {:induction false} RecordsPast(q: seq<Reader>, chosen: Input -> bool, t: int, hi: int, windows: seq<Window>)
    requires QueueSorted(q) && (forall r :: r in q ==> Ready(r, hi, windows)) && Past(q, chosen, t)
    ensures forall rec :: rec in Drain(q, windows) && chosen(rec.input) ==> t < rec.time
    decreases TotalWeight(q)
  {
    if q != [] {
      StepProgresses(q, windows);
      StepSorted(q, hi, windows);
      StepPast(q, chosen, t, hi, windows);
      var (rec, q') := NextRecord(q, windows);
      RecordsPast(q', chosen, t, hi, windows);
      assert Drain(q, windows) == [rec] + Drain(q', windows);
    }
  }

  // ---------- RIBs first ----------

  ghost predicate RibsFirst(recs: seq<Record>)
  {
    forall i, j :: 0 <= i < j < |recs| && recs[i].time == recs[j].time ==>
      !(recs[i].input.filetype == "updates" && recs[j].input.filetype == "ribs")
  }

  predicate OfRib(x: Input)
  {
    x.filetype == "ribs"
  }

  /** With an updates dump at the head, the readers of RIB dumps are past its time. */
  lemma RibsPast(q: seq<Reader>)
    requires q != [] && QueueSorted(q) && TypesInOrder(q) && q[0].input.filetype == "updates"
    ensures Past(q, OfRib, q[0].recordTime)
  {
    forall r | r in q && r.input.filetype == "ribs"
      ensures q[0].recordTime < r.recordTime
    {
      var j :| 0 <= j < |q| && q[j] == r;
      assert "updates" != "ribs";
    }
  }

  lemma {:induction false} DrainRibsFirst(q: seq<Reader>, hi: int, windows: seq<Window>)
    requires QueueSorted(q) && TypesInOrder(q) && forall r :: r in q ==> Ready(r, hi, windows)
    ensures RibsFirst(Drain(q, windows))
    decreases TotalWeight(q)
  {
    if q != [] {
      StepProgresses(q, windows);
      StepSorted(q, hi, windows);
      StepTypes(q, hi, windows);
      var (rec, q') := NextRecord(q, windows);
      DrainRibsFirst(q', hi, windows);
      var recs := Drain(q', windows);
      if rec.input.filetype == "updates" {
        RibsPast(q);
        StepPast(q, OfRib, rec.time, hi, windows);
        RecordsPast(q', OfRib, rec.time, hi, windows);
      }
      assert forall j :: 0 <= j < |recs| ==> recs[j] in recs;
      assert Drain(q, windows) == [rec] + recs;
    }
  }

  // ---------- one dump's records together ----------

  /** Between two records of one dump and one time are only records of that dump. */
  ghost predicate Together(recs: seq<Record>)
  {
    forall i, j, k :: 0 <= i < j < k < |recs| && recs[i].input == recs[k].input && recs[i].time == recs[k].time ==>
      recs[j].input == recs[i].input
  }

  /** If the dump of the record taken has more of the same time, its next record comes next. */
  lemma GoesOn(q: seq<Reader>, hi: int, windows: seq<Window>, rec': Record)
    requires q != [] && QueueSorted(q) && DistinctInputs(q) && forall r :: r in q ==> Ready(r, hi, windows)
    requires var (rec, q') := NextRecord(q, windows);
      rec' in Drain(q', windows) && rec'.input == rec.input && rec'.time == rec.time
    ensures var (rec, q') := NextRecord(q, windows);
      q' != [] && Drain(q', windows)[0].input == rec.input && Drain(q', windows)[0].time == rec.time
  {
    var (rec, q') := NextRecord(q, windows);
    var x := q[0].input;
    assert q[0] in q;
    StepSorted(q, hi, windows);
    StepMembers(q, windows);
    AdvanceReady(q[0], hi, windows);
    AdvanceProgresses(q[0], windows);
    if Advance(q[0], windows).Some? && Advance(q[0], windows).value.recordTime == rec.time {
      StepSorted(q', hi, windows);
    } else {
      forall r | r in q' && r.input == x
        ensures rec.time < r.recordTime
      {
        OthersDiffer(q, q[0]);
        if r in q[1..] {
          OthersDiffer(q, r);
        }
      }
      var same := (z: Input) => z == x;
      assert Past(q', same, rec.time);
      RecordsPast(q', same, rec.time, hi, windows);
    }
  }

  lemma TogetherInFront(rec: Record, recs: seq<Record>)
    requires Together(recs)
    requires (exists r :: r in recs && r.input == rec.input && r.time == rec.time) ==>
      recs[0].input == rec.input && recs[0].time == rec.time
    ensures Together([rec] + recs)
  {
    var all := [rec] + recs;
    forall i, j, k | 0 <= i < j < k < |all| && all[i].input == all[k].input && all[i].time == all[k].time
      ensures all[j].input == all[i].input
    {
      if i == 0 {
        assert recs[k - 1] in recs && all[j] == recs[j - 1];
        if j > 1 {
          assert recs[0].input == recs[k - 1].input;
        }
      } else {
        assert all[i] == recs[i - 1] && all[j] == recs[j - 1] && all[k] == recs[k - 1];
      }
    }
  }

  lemma {:induction false} DrainTogether(q: seq<Reader>, hi: int, windows: seq<Window>)
    requires QueueSorted(q) && DistinctInputs(q) && forall r :: r in q ==> Ready(r, hi, windows)
    ensures Together(Drain(q, windows))
    decreases TotalWeight(q)
  {
    if q != [] {
      StepProgresses(q, windows);
      StepSorted(q, hi, windows);
      StepMembers(q, windows);
      var (rec, q') := NextRecord(q, windows);
      DrainTogether(q', hi, windows);
      if rec' :| rec' in Drain(q', windows) && rec'.input == rec.input && rec'.time == rec.time {
        GoesOn(q, hi, windows, rec');
      }
      TogetherInFront(rec, Drain(q', windows));
      assert Drain(q, windows) == [rec] + Drain(q', windows);
    }
  }

  // ---------- a batch ----------

  lemma {:induction false} AddReadersTypes(q: seq<Reader>, rs: seq<Reader>, lo: int, hi: int, windows: seq<Window>)
    requires QueueSorted(q) && TypesInOrder(q) && forall r :: r in q ==> Ready(r, hi, windows) && lo <= r.recordTime
    requires forall r :: r in rs ==> Steady(r, hi, windows) && lo <= r.recordTime
    ensures TypesInOrder(AddReaders(q, rs, windows))
    decreases |rs|
  {
    if rs != [] {
      assert rs == [rs[0]] + rs[1..];
      var r := ReadNewData(rs[0], windows);
      ReadSteady(rs[0], hi, windows);
      InsertSorted(q, r);
      InsertTypes(q, r);
      InsertMembers(q, r);
      AddReadersTypes(SortedInsert(q, r), rs[1..], lo, hi, windows);
    }
  }

  /** The records of one batch that have the same time: RIBs first, and each dump's together. */
  lemma BatchTies(xs: seq<Input>, s: Settings, seen: Seen, lo: int, hi: int)
    requires Spanned(xs) && DistinctAll(xs)
    requires forall x :: x in xs ==> KeepsItsInterval(x, s) && lo <= x.filetime && End(x) <= hi
    ensures var recs := Drain(Opening(xs, s, seen), s.windows); RibsFirst(recs) && Together(recs)
  {
    var ys := Accept(xs, s.period, seen).0;
    AcceptMembers(xs, s.period, seen);
    CreatedMembers(ys, s.dumps);
    var rs := Created(ys, s.dumps);
    CreatedSteady(ys, s, lo, hi);
    AddReadersSorted([], rs, lo, hi, s.windows);
    AddReadersTypes([], rs, lo, hi, s.windows);
    AddReadersDistinct([], rs, s.windows);
    DrainRibsFirst(Opening(xs, s, seen), hi, s.windows);
    DrainTogether(Opening(xs, s, seen), hi, s.windows);
  }
}
