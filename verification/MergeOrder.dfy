/** The merge of a batch returns records in time order, for dumps whose own times never go back. */
module MergeOrder {
  import opened Wrappers
  import opened Readers
  import opened Merging

  /** Every entry that can still be returned lies in [lo, hi) and none is earlier than the one
      before it. */
  ghost predicate TimesFrom(items: seq<Item>, lo: int, hi: int, windows: seq<Window>)
  {
    items == [] ||
    match items[0]
    case Corrupted => true
    case Blank => TimesFrom(items[1..], lo, hi, windows)
    case Read(e) =>
      if Passes(windows, e) then lo <= e.time < hi && TimesFrom(items[1..], e.time, hi, windows)
      else TimesFrom(items[1..], lo, hi, windows)
  }

  /** The reader's times stay in [its current time, hi). */
  ghost predicate Steady(r: Reader, hi: int, windows: seq<Window>)
  {
    r.recordTime < hi && (r.dump.Opened? ==> TimesFrom(r.dump.items, r.recordTime, hi, windows))
  }

  lemma {:induction false} ReadSteady(r: Reader, hi: int, windows: seq<Window>)
    requires Steady(r, hi, windows)
    ensures Steady(ReadNewData(r, windows), hi, windows) || ReadNewData(r, windows).status != ValidEntry
    ensures r.recordTime <= ReadNewData(r, windows).recordTime < hi
    decreases Remaining(r.dump)
  {
    if r.status == ValidEntry && r.dump.Opened? && r.dump.items != [] {
      var rest := r.(dump := Opened(r.dump.items[1..]), entry := None);
      match r.dump.items[0]
      case Read(e) =>
        if !Passes(windows, e) {
          ReadSteady(rest.(successful := r.successful + 1), hi, windows);
        }
      case Corrupted =>
      case Blank => ReadSteady(rest, hi, windows);
    }
  }

  ghost predicate QueueSorted(q: seq<Reader>)
  {
    forall i, j :: 0 <= i < j < |q| ==> q[i].recordTime <= q[j].recordTime
  }

  /** Readers that can go on are steady; the others have only their status record left. */
  ghost predicate Ready(r: Reader, hi: int, windows: seq<Window>)
  {
    r.recordTime < hi && (r.status == ValidEntry ==> Steady(r, hi, windows))
  }

  lemma {:induction false} InsertSorted(q: seq<Reader>, r: Reader)
    requires QueueSorted(q)
    ensures QueueSorted(SortedInsert(q, r))
  {
    if q != [] && !StopsAt(r, q[0]) {
      InsertSorted(q[1..], r);
      InsertMembers(q[1..], r);
      var t := SortedInsert(q[1..], r);
      forall i | 0 <= i < |t|
        ensures q[0].recordTime <= t[i].recordTime
      {
        assert t[i] in t;
        if t[i] in q[1..] {
          var j :| 0 <= j < |q[1..]| && q[1..][j] == t[i];
          assert q[j + 1] == t[i];
        }
      }
    }
  }

  lemma AdvanceReady(r: Reader, hi: int, windows: seq<Window>)
    requires Ready(r, hi, windows)
    ensures var n := Advance(r, windows);
      n.Some? ==> Ready(n.value, hi, windows) && r.recordTime <= n.value.recordTime
    ensures RecordOf(r, windows).time == r.recordTime
  {
    if r.status == ValidEntry {
      ReadSteady(r.(entry := None), hi, windows);
    }
  }

  /** The rest of a sorted queue. */
  lemma TailSorted(q: seq<Reader>)
    requires q != [] && QueueSorted(q)
    ensures QueueSorted(q[1..]) && forall s :: s in q[1..] ==> s in q && q[0].recordTime <= s.recordTime
  {
    assert q == [q[0]] + q[1..];
    forall s | s in q[1..]
      ensures q[0].recordTime <= s.recordTime
    {
      var j :| 0 <= j < |q[1..]| && q[1..][j] == s;
      assert q[j + 1] == s;
    }
  }

  lemma PrependSorted(r: Reader, q: seq<Reader>)
    requires QueueSorted(q) && forall s :: s in q ==> r.recordTime <= s.recordTime
    ensures QueueSorted([r] + q)
  {
    assert forall i :: 0 <= i < |q| ==> q[i] in q;
  }

  lemma StepSorted(q: seq<Reader>, hi: int, windows: seq<Window>)
    requires q != [] && QueueSorted(q) && forall r :: r in q ==> Ready(r, hi, windows)
    ensures var (rec, q') := NextRecord(q, windows);
      && QueueSorted(q') && (forall r :: r in q' ==> Ready(r, hi, windows) && rec.time <= r.recordTime)
      && rec.time == q[0].recordTime
  {
    assert q[0] in q;
    AdvanceReady(q[0], hi, windows);
    TailSorted(q);
    match Advance(q[0], windows)
    case None =>
    case Some(r) =>
      InsertSorted(q[1..], r);
      InsertMembers(q[1..], r);
      if r.recordTime == q[0].recordTime {
        PrependSorted(r, q[1..]);
      }
  }

  ghost predicate TimeOrdered(recs: seq<Record>)
  {
    forall i, j :: 0 <= i < j < |recs| ==> recs[i].time <= recs[j].time
  }

  /** All records of the batch come in time order, none before the first reader's time and none
      at or after hi. */
  lemma {:induction false} DrainOrdered(q: seq<Reader>, lo: int, hi: int, windows: seq<Window>)
    requires QueueSorted(q) && forall r :: r in q ==> Ready(r, hi, windows) && lo <= r.recordTime
    ensures TimeOrdered(Drain(q, windows))
    ensures forall rec :: rec in Drain(q, windows) ==> lo <= rec.time < hi
    decreases TotalWeight(q)
  {
    if q != [] {
      StepProgresses(q, windows);
      StepSorted(q, hi, windows);
      var (rec, q') := NextRecord(q, windows);
      DrainOrdered(q', rec.time, hi, windows);
      assert q[0] in q;
      Prepend(rec, Drain(q', windows));
      assert Drain(q, windows) == [rec] + Drain(q', windows);
    }
  }

  lemma Prepend(rec: Record, recs: seq<Record>)
    requires TimeOrdered(recs) && forall r :: r in recs ==> rec.time <= r.time
    ensures TimeOrdered([rec] + recs)
  {
    assert forall i :: 0 <= i < |recs| ==> recs[i] in recs;
  }

  /** Adding readers keeps the queue sorted. */
  lemma {:induction false} AddReadersSorted(q: seq<Reader>, rs: seq<Reader>, lo: int, hi: int, windows: seq<Window>)
    requires QueueSorted(q) && forall r :: r in q ==> Ready(r, hi, windows) && lo <= r.recordTime
    requires forall r :: r in rs ==> Steady(r, hi, windows) && lo <= r.recordTime
    ensures QueueSorted(AddReaders(q, rs, windows))
    ensures forall r :: r in AddReaders(q, rs, windows) ==> Ready(r, hi, windows) && lo <= r.recordTime
    decreases |rs|
  {
    if rs != [] {
      assert rs == [rs[0]] + rs[1..];
      var r := ReadNewData(rs[0], windows);
      ReadSteady(rs[0], hi, windows);
      InsertSorted(q, r);
      InsertMembers(q, r);
      AddReadersSorted(SortedInsert(q, r), rs[1..], lo, hi, windows);
    }
  }
}
