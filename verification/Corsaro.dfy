/** bgpcorsaro's interval machine: the start, end and process events its plugins see. */
module Corsaro {

  datatype Event =
    | StartInterval(number: nat, time: int)
    | EndInterval(number: nat, time: int)
    | ProcessRecord(time: int)

  /** The fields of bgpcorsaro_t that drive intervals, and the events so far. An interval below
      zero means that there is only one. */
  datatype Machine = Machine(interval: int, align: bool, recordCnt: nat, lastTs: int, number: nat, start: int,
                             nextReport: int, endNeeded: bool, events: seq<Event>)

  function Fresh(interval: int, align: bool): Machine
  {
    Machine(interval, align, 0, 0, 0, 0, 0, false, [])
  }

  /** C's division, toward zero. */
  function TruncDiv(a: int, b: int): int
    requires b != 0
  {
    if (a >= 0) == (b > 0) then Magnitude(a) / Magnitude(b) else -(Magnitude(a) / Magnitude(b))
  }

  function Magnitude(a: int): nat
    ensures a != 0 ==> Magnitude(a) > 0
  {
    if a >= 0 then a else -a
  }

  function FirstBoundary(interval: int, align: bool, ts: int): int
    requires interval != 0
  {
    if align then TruncDiv(ts + interval, interval) * interval else ts + interval
  }

  function StartAt(m: Machine, time: int): Machine
  {
    m.(start := time, events := m.events + [StartInterval(m.number, time)])
  }

  function EndAt(m: Machine, time: int): Machine
  {
    m.(endNeeded := false, events := m.events + [EndInterval(m.number, time)])
  }

  /** One turn of the catch-up loop of bgpcorsaro_per_record. */
  function Turn(m: Machine): Machine
  {
    var ended := EndAt(m, m.nextReport - 1);
    var started := StartAt(ended.(number := m.number + 1), m.nextReport);
    started.(nextReport := m.nextReport + m.interval)
  }

  function CatchUp(m: Machine, ts: int): Machine
    requires m.interval != 0
    decreases ts - m.nextReport
  {
    if m.interval >= 0 && ts >= m.nextReport then CatchUp(Turn(m), ts) else m
  }

  /** The machine before the catch-up loop of record ts. */
  function Begun(m: Machine, ts: int): Machine
    requires m.interval != 0
  {
    var seen := m.(lastTs := ts, endNeeded := true);
    if m.recordCnt == 0 then StartAt(seen, ts).(nextReport := FirstBoundary(m.interval, m.align, ts)) else seen
  }

  /** bgpcorsaro_per_record. */
  function Step(m: Machine, ts: int): (s: Machine)
    requires m.interval != 0
    ensures s.interval == m.interval && s.align == m.align
  {
    CaughtUp(Begun(m, ts), ts);
    var caught := CatchUp(Begun(m, ts), ts);
    caught.(recordCnt := m.recordCnt + 1, events := caught.events + [ProcessRecord(ts)])
  }

  /** bgpcorsaro_finalize_output. */
  function Finalize(m: Machine): Machine
  {
    if m.endNeeded then EndAt(m, m.lastTs) else m
  }

  function Run(interval: int, align: bool, records: seq<int>): (m: Machine)
    requires interval != 0
    ensures m.interval == interval && m.align == align && m.recordCnt == |records|
  {
    if records == [] then Fresh(interval, align)
    else
      var before := Run(interval, align, records[..|records| - 1]);
      Step(before, records[|records| - 1])
  }

  lemma {:induction false} CaughtUp(m: Machine, ts: int)
    requires m.interval != 0
    ensures var c := CatchUp(m, ts);
      && c.interval == m.interval && c.align == m.align && c.lastTs == m.lastTs && c.recordCnt == m.recordCnt
      && (m.interval > 0 ==> ts < c.nextReport)
      && (c.endNeeded <==> m.endNeeded && !(m.interval > 0 && ts >= m.nextReport))
    decreases ts - m.nextReport
  {
    if m.interval >= 0 && ts >= m.nextReport {
      CaughtUp(Turn(m), ts);
    }
  }

  // ---------- what the events say ----------

  /** How far someone who reads the events has got. */
  datatype Phase = Idle | Open(number: nat, start: int, latest: int) | Closed(number: nat, end: int) | Wrong

  /** Intervals are numbered consecutively, each starts the moment after the one before ends, and
      the records of an interval come in order between its start and its end. */
  function After(p: Phase, e: Event): Phase
  {
    match e
    case StartInterval(n, t) =>
      if p.Idle? && n == 0 then Open(n, t, t)
      else if p.Closed? && n == p.number + 1 && t == p.end + 1 then Open(n, t, t) else Wrong
    case EndInterval(n, t) =>
      if p.Open? && n == p.number && p.latest <= t then Closed(n, t) else Wrong
    case ProcessRecord(t) =>
      if p.Open? && p.latest <= t then Open(p.number, p.start, t) else Wrong
  }

  function Check(es: seq<Event>): Phase
  {
    if es == [] then Idle else After(Check(es[..|es| - 1]), es[|es| - 1])
  }

  lemma CheckNext(es: seq<Event>, e: Event)
    ensures Check(es + [e]) == After(Check(es), e)
  {
    assert (es + [e])[..|es|] == es;
  }

  function Processed(es: seq<Event>): seq<int>
  {
    if es == [] then []
    else
      var init := Processed(es[..|es| - 1]);
      if es[|es| - 1].ProcessRecord? then init + [es[|es| - 1].time] else init
  }

  lemma ProcessedNext(es: seq<Event>, e: Event)
    ensures Processed(es + [e]) == if e.ProcessRecord? then Processed(es) + [e.time] else Processed(es)
  {
    assert (es + [e])[..|es|] == es;
  }

  ghost predicate NonDecreasing(records: seq<int>)
  {
    forall i, j :: 0 <= i < j < |records| ==> records[i] <= records[j]
  }

  /** The machine is inside the interval its events have opened. */
  ghost predicate Inside(m: Machine, latest: int)
  {
    Check(m.events) == Open(m.number, m.start, latest) && m.start <= latest
      && (m.interval > 0 ==> latest < m.nextReport)
  }

  lemma TurnInside(m: Machine, latest: int)
    requires m.interval > 0 && Inside(m, latest)
    ensures Inside(Turn(m), m.nextReport) && Processed(Turn(m).events) == Processed(m.events)
  {
    TwoEvents(m.events, EndInterval(m.number, m.nextReport - 1), StartInterval(m.number + 1, m.nextReport));
  }

  lemma TwoEvents(es: seq<Event>, end: Event, start: Event)
    requires end.EndInterval? && start.StartInterval?
    ensures Check(es + [end] + [start]) == After(After(Check(es), end), start)
    ensures Processed(es + [end] + [start]) == Processed(es)
  {
    CheckNext(es, end);
    CheckNext(es + [end], start);
    ProcessedNext(es, end);
    ProcessedNext(es + [end], start);
  }

  lemma {:induction false} CatchUpInside(m: Machine, latest: int, ts: int) returns (latest': int)
    requires m.interval != 0 && Inside(m, latest) && latest <= ts
    ensures var c := CatchUp(m, ts);
      Inside(c, latest') && latest' <= ts && Processed(c.events) == Processed(m.events)
    decreases ts - m.nextReport
  {
    if m.interval >= 0 && ts >= m.nextReport {
      TurnInside(m, latest);
      latest' := CatchUpInside(Turn(m), m.nextReport, ts);
    } else {
      latest' := latest;
    }
  }

  ghost predicate MultipleOf(b: int, n: int)
  {
    exists q :: b == q * n
  }

  /** The first boundary lies ahead, at most one interval away; aligned, it is a multiple. */
  lemma FirstBoundaryAhead(interval: int, align: bool, ts: int)
    requires interval > 0
    ensures ts < FirstBoundary(interval, align, ts)
    ensures ts >= 0 ==> FirstBoundary(interval, align, ts) <= ts + interval
    ensures align ==> MultipleOf(FirstBoundary(interval, align, ts), interval)
  {
    var a, q := ts + interval, TruncDiv(ts + interval, interval);
    if a >= 0 {
      assert a == q * interval + a % interval;
    } else {
      assert -a == (-q) * interval + (-a) % interval;
    }
  }

  /** first is the machine's first boundary; each boundary crossed added one to the number. */
  ghost predicate Counted(m: Machine, first: int, firstTs: int)
  {
    && m.nextReport == first + m.number * m.interval
    && m.start == if m.number == 0 then firstTs else m.nextReport - m.interval
  }

  lemma TurnCounted(m: Machine, first: int, firstTs: int)
    requires Counted(m, first, firstTs)
    ensures Counted(Turn(m), first, firstTs)
  {
    assert (m.number + 1) * m.interval == m.number * m.interval + m.interval;
  }

  lemma {:induction false} CatchUpCounted(m: Machine, ts: int, first: int, firstTs: int)
    requires m.interval != 0 && Counted(m, first, firstTs)
    ensures var c := CatchUp(m, ts);
      && Counted(c, first, firstTs)
      && (m.interval > 0 && ts >= m.nextReport ==> c.nextReport - c.interval <= ts && c.number > m.number)
      && (!(m.interval > 0 && ts >= m.nextReport) ==> c == m)
    decreases ts - m.nextReport
  {
    if m.interval >= 0 && ts >= m.nextReport {
      TurnCounted(m, first, firstTs);
      CatchUpCounted(Turn(m), ts, first, firstTs);
    }
  }

  // ---------- a whole run ----------

  /** Everything a run of records has led to. */
  ghost predicate Tiled(m: Machine, records: seq<int>)
    requires m.interval != 0 && records != []
  {
    var last, first := records[|records| - 1], FirstBoundary(m.interval, m.align, records[0]);
    && Inside(m, last) && m.lastTs == last
    && Processed(m.events) == records
    && (m.interval > 0 ==>
          && Counted(m, first, records[0])
          && (m.number > 0 ==> m.nextReport - m.interval <= last))
    && (m.interval < 0 ==> m.number == 0 && m.start == records[0])
  }

  lemma LastProcessed(m: Machine, latest: int, ts: int)
    requires m.interval != 0 && Inside(m, latest) && latest <= ts && (m.interval > 0 ==> ts < m.nextReport)
    ensures var m' := m.(recordCnt := m.recordCnt + 1, events := m.events + [ProcessRecord(ts)]);
      Inside(m', ts) && Processed(m'.events) == Processed(m.events) + [ts]
  {
    CheckNext(m.events, ProcessRecord(ts));
    ProcessedNext(m.events, ProcessRecord(ts));
  }

  lemma FirstTiled(interval: int, align: bool, ts: int)
    requires interval != 0
    ensures Tiled(Step(Fresh(interval, align), ts), [ts]) && Step(Fresh(interval, align), ts).endNeeded
  {
    var m := Fresh(interval, align);
    var begun := Begun(m, ts);
    if interval > 0 {
      FirstBoundaryAhead(interval, align, ts);
    }
    assert CatchUp(begun, ts) == begun;
    CheckNext([], StartInterval(0, ts));
    ProcessedNext([], StartInterval(0, ts));
    assert begun.events == [] + [StartInterval(0, ts)];
    LastProcessed(begun, ts, ts);
  }

  lemma NextTiled(m: Machine, records: seq<int>, ts: int)
    requires m.interval != 0 && records != [] && m.recordCnt > 0 && Tiled(m, records) && records[|records| - 1] <= ts
    ensures Tiled(Step(m, ts), records + [ts])
    ensures Step(m, ts).endNeeded <==> !(m.interval > 0 && ts >= m.nextReport)
    ensures Step(m, ts).number == m.number <==> !(m.interval > 0 && ts >= m.nextReport)
  {
    var begun, first := Begun(m, ts), FirstBoundary(m.interval, m.align, records[0]);
    CaughtUp(begun, ts);
    var latest := CatchUpInside(begun, records[|records| - 1], ts);
    if m.interval > 0 {
      CatchUpCounted(begun, ts, first, records[0]);
    }
    LastProcessed(CatchUp(begun, ts), latest, ts);
  }

  /** Over any run of records in time order: intervals are numbered consecutively and tile time,
      every record is processed, once and in order, inside its interval, and boundaries lie at
      whole intervals from the first. */
  lemma {:induction false} RunTiles(interval: int, align: bool, records: seq<int>)
    requires interval != 0 && records != [] && NonDecreasing(records)
    ensures Tiled(Run(interval, align, records), records)
  {
    var init, ts := records[..|records| - 1], records[|records| - 1];
    assert records == init + [ts];
    if init == [] {
      FirstTiled(interval, align, ts);
    } else {
      RunTiles(interval, align, init);
      NextTiled(Run(interval, align, init), init, ts);
    }
  }

  /** Aligned, every interval but the first starts at a multiple of the interval. */
  lemma AlignedStarts(interval: int, records: seq<int>)
    requires interval > 0 && records != [] && NonDecreasing(records)
    ensures var m := Run(interval, true, records);
      MultipleOf(m.nextReport, interval) && (m.number > 0 ==> MultipleOf(m.start, interval))
  {
    RunTiles(interval, true, records);
    FirstBoundaryAhead(interval, true, records[0]);
    var m := Run(interval, true, records);
    var q :| FirstBoundary(interval, true, records[0]) == q * interval;
    assert m.nextReport == (q + m.number) * interval;
    assert m.number > 0 ==> m.start == (q + m.number - 1) * interval;
  }

  /** How many boundaries a time has reached, the first of them at `first`. */
  function Reached(first: int, interval: int, t: int): nat
    requires interval > 0
  {
    if t < first then 0 else (t - first) / interval + 1
  }

  lemma Quotient(n: nat, q: int, r: int)
    requires n > 0 && 0 <= r < n
    ensures (q * n + r) / n == q
  {
    var d, rest := (q * n + r) / n, (q * n + r) % n;
    assert q * n + r == d * n + rest;
    OnlyZero(n, d - q, r - rest);
  }

  /** Only the multiple 0 of n lies strictly between -n and n. */
  lemma OnlyZero(n: int, k: int, x: int)
    requires n > 0 && k * n == x && -n < x < n
    ensures k == 0
  {
  }

  /** The interval the machine is in is the one its last record's time says. */
  lemma NumberIsReached(m: Machine, records: seq<int>)
    requires m.interval > 0 && records != [] && Tiled(m, records)
    ensures m.number == Reached(FirstBoundary(m.interval, m.align, records[0]), m.interval, records[|records| - 1])
  {
    var first, t := FirstBoundary(m.interval, m.align, records[0]), records[|records| - 1];
    if m.number > 0 {
      assert (m.number - 1) * m.interval == m.number * m.interval - m.interval;
      var r := t - (m.nextReport - m.interval);
      assert t - first == (m.number - 1) * m.interval + r;
      Quotient(m.interval, m.number - 1, r);
    }
  }

  /** The last record reached a boundary that the one before it had not. */
  predicate OpensLast(interval: int, align: bool, records: seq<int>)
    requires interval != 0 && records != []
  {
    interval > 0 && |records| > 1 &&
    var first := FirstBoundary(interval, align, records[0]);
    Reached(first, interval, records[|records| - 2]) != Reached(first, interval, records[|records| - 1])
  }

  lemma NextOpens(interval: int, align: bool, records: seq<int>, ts: int)
    requires interval != 0 && records != [] && NonDecreasing(records + [ts])
    ensures Step(Run(interval, align, records), ts).endNeeded <==> !OpensLast(interval, align, records + [ts])
  {
    var m := Run(interval, align, records);
    var all := records + [ts];
    assert forall i :: 0 <= i < |records| ==> all[i] == records[i];
    assert all[|records| - 1] <= all[|records|];
    RunTiles(interval, align, records);
    NextTiled(m, records, ts);
    if interval > 0 {
      NumberIsReached(m, records);
      NumberIsReached(Step(m, ts), records + [ts]);
    }
  }

  /** Finalising ends the last interval exactly when the last record did not open it. */
  lemma FinalizeCloses(interval: int, align: bool, records: seq<int>)
    requires interval != 0 && records != [] && NonDecreasing(records)
    ensures var m := Run(interval, align, records);
      Check(Finalize(m).events) ==
        if OpensLast(interval, align, records) then Open(m.number, m.start, m.lastTs) else Closed(m.number, m.lastTs)
  {
    var init, ts := records[..|records| - 1], records[|records| - 1];
    assert records == init + [ts];
    if init == [] {
      FirstTiled(interval, align, ts);
    } else {
      NextOpens(interval, align, init, ts);
    }
    var m := Run(interval, align, records);
    RunTiles(interval, align, records);
    CheckNext(m.events, EndInterval(m.number, m.lastTs));
  }

  /** A minute's intervals and two records a minute apart: the second interval is never ended. */
  lemma LastLeftOpen()
    ensures Finalize(Run(60, true, [0, 60])).events ==
      [StartInterval(0, 0), ProcessRecord(0), EndInterval(0, 59), StartInterval(1, 60), ProcessRecord(60)]
  {
    assert [0, 60][..1] == [0] && [0][..0] == [];
    var m := Run(60, true, [0]);
    assert m == Machine(60, true, 1, 0, 0, 0, 60, true, [StartInterval(0, 0), ProcessRecord(0)]);
    var seen := Begun(m, 60);
    assert CatchUp(Turn(seen), 60) == Turn(seen);
    assert Step(m, 60).events == Turn(seen).events + [ProcessRecord(60)];
  }

  // ---------- the times of the events ----------

  /** When interval n starts and ends, if the first record comes at firstTs and the first boundary is
      at first. */
  ghost predicate AtTime(e: Event, interval: int, firstTs: int, first: int)
  {
    match e
    case StartInterval(n, t) => t == if n == 0 then firstTs else first + (n - 1) * interval
    case EndInterval(n, t) => t == first + n * interval - 1
    case ProcessRecord(_) => true
  }

  ghost predicate AllAtTime(es: seq<Event>, interval: int, firstTs: int, first: int)
  {
    forall e :: e in es ==> AtTime(e, interval, firstTs, first)
  }

  lemma TurnAtTime(m: Machine, firstTs: int, first: int)
    requires Counted(m, first, firstTs) && AllAtTime(m.events, m.interval, firstTs, first)
    ensures AllAtTime(Turn(m).events, m.interval, firstTs, first)
  {
    assert m.number + 1 - 1 == m.number;
  }

  lemma {:induction false} CatchUpAtTime(m: Machine, ts: int, firstTs: int, first: int)
    requires m.interval != 0 && Counted(m, first, firstTs) && AllAtTime(m.events, m.interval, firstTs, first)
    ensures AllAtTime(CatchUp(m, ts).events, m.interval, firstTs, first)
    decreases ts - m.nextReport
  {
    if m.interval >= 0 && ts >= m.nextReport {
      TurnCounted(m, first, firstTs);
      TurnAtTime(m, firstTs, first);
      CatchUpAtTime(Turn(m), ts, firstTs, first);
    }
  }

  /** A boundary as the alignment asks for it: a whole interval after the first record, or aligned the first
      multiple of the interval after it. (Before time zero C's division makes that the second multiple,
      unless the record is on a multiple or less than an interval before zero.) */
  ghost predicate IsFirstBoundary(first: int, interval: int, align: bool, ts: int)
  {
    if !align then first == ts + interval
    else
      && MultipleOf(first, interval)
      && if ts + interval >= 0 then ts < first <= ts + interval else ts + interval <= first < ts + 2 * interval
  }

  lemma BoundaryIsFirst(interval: int, align: bool, ts: int)
    requires interval > 0
    ensures IsFirstBoundary(FirstBoundary(interval, align, ts), interval, align, ts)
  {
    FirstBoundaryAhead(interval, align, ts);
    var a, q := ts + interval, TruncDiv(ts + interval, interval);
    if a >= 0 {
      assert a == q * interval + a % interval;
    } else {
      assert -a == (-q) * interval + (-a) % interval;
    }
  }

  lemma FirstAtTime(interval: int, align: bool, ts: int)
    requires interval > 0
    ensures var m, first := Step(Fresh(interval, align), ts), FirstBoundary(interval, align, ts);
      Counted(m, first, ts) && AllAtTime(m.events, interval, ts, first)
  {
    var begun, first := Begun(Fresh(interval, align), ts), FirstBoundary(interval, align, ts);
    FirstBoundaryAhead(interval, align, ts);
    assert CatchUp(begun, ts) == begun && begun.events == [] + [StartInterval(0, ts)];
  }

  lemma NextAtTime(m: Machine, ts: int, firstTs: int, first: int)
    requires m.interval > 0 && m.recordCnt > 0 && Counted(m, first, firstTs)
    requires AllAtTime(m.events, m.interval, firstTs, first)
    ensures Counted(Step(m, ts), first, firstTs) && AllAtTime(Step(m, ts).events, m.interval, firstTs, first)
  {
    CatchUpCounted(Begun(m, ts), ts, first, firstTs);
    CatchUpAtTime(Begun(m, ts), ts, firstTs, first);
  }

  lemma {:induction false} RunAtTime(interval: int, align: bool, records: seq<int>)
    requires interval > 0 && records != []
    ensures var m, first := Run(interval, align, records), FirstBoundary(interval, align, records[0]);
      Counted(m, first, records[0]) && AllAtTime(m.events, interval, records[0], first)
  {
    var init, ts := records[..|records| - 1], records[|records| - 1];
    if init == [] {
      FirstAtTime(interval, align, ts);
    } else {
      RunAtTime(interval, align, init);
      NextAtTime(Run(interval, align, init), ts, records[0], FirstBoundary(interval, align, records[0]));
    }
  }

  /** Every event of a run comes at its time, whatever the records: the first interval starts with the first
      record and ends in front of the first boundary, and from there each lasts exactly `interval`
      seconds. */
  lemma EventTimes(interval: int, align: bool, records: seq<int>) returns (first: int)
    requires interval > 0 && records != []
    ensures IsFirstBoundary(first, interval, align, records[0])
    ensures var m := Run(interval, align, records);
      m.nextReport == first + m.number * interval && AllAtTime(m.events, interval, records[0], first)
  {
    first := FirstBoundary(interval, align, records[0]);
    BoundaryIsFirst(interval, align, records[0]);
    RunAtTime(interval, align, records);
  }

  /** So every interval that the loop ends lasts exactly `interval` seconds: all of them without alignment,
      with it all but the first. */
  lemma IntervalsLast(interval: int, align: bool, records: seq<int>, n: nat, start: int, end: int)
    requires interval > 0 && records != []
    requires var es := Run(interval, align, records).events; StartInterval(n, start) in es && EndInterval(n, end) in es
    ensures !align || n > 0 ==> end + 1 - start == interval
    ensures !align ==> start == records[0] + n * interval
  {
    var first := EventTimes(interval, align, records);
    assert AtTime(StartInterval(n, start), interval, records[0], first);
    assert AtTime(EndInterval(n, end), interval, records[0], first);
    assert n * interval == (n - 1) * interval + interval;
  }

  /** Without alignment boundaries lie at whole intervals from the first record, and the interval a run is in
      is the number of whole intervals since then. */
  lemma RunBoundaries(interval: int, records: seq<int>)
    requires interval > 0 && records != []
    ensures var m := Run(interval, false, records); m.nextReport == records[0] + (m.number + 1) * interval
    ensures NonDecreasing(records) ==>
      Run(interval, false, records).number == (records[|records| - 1] - records[0]) / interval
  {
    var first := EventTimes(interval, false, records);
    var m, t := Run(interval, false, records), records[|records| - 1];
    assert (m.number + 1) * interval == m.number * interval + interval;
    if NonDecreasing(records) {
      RunTiles(interval, false, records);
      NumberIsReached(m, records);
      WholeIntervals(interval, records[0], t);
    }
  }

  lemma WholeIntervals(interval: int, from: int, t: int)
    requires interval > 0 && from <= t
    ensures Reached(from + interval, interval, t) == (t - from) / interval
  {
    var q, r := (t - from) / interval, (t - from) % interval;
    assert t - from == q * interval + r;
    if t - from >= interval {
      assert t - (from + interval) == (q - 1) * interval + r;
      OneFewer(interval, q, r, t - from);
    }
  }

  lemma OneFewer(n: int, q: int, r: int, x: int)
    requires n > 0 && 0 <= r < n && x == q * n + r && x >= n
    ensures q >= 1 && (x - n) / n == q - 1
  {
    assert (q - 1) * n == q * n - n;
    assert q <= 0 ==> q * n <= 0;
    Quotient(n, q - 1, r);
  }

  // ---------- the object ----------

  /** bgpcorsaro_t; the plugins see the events. */
  class BgpCorsaro {
    const interval: int
    const align: bool
    var recordCnt: nat
    var firstTs: int
    var lastTs: int
    var number: nat
    var start: int
    var nextReport: int
    var endNeeded: bool
    var events: seq<Event>

    function View(): Machine
      reads this
    {
      Machine(interval, align, recordCnt, lastTs, number, start, nextReport, endNeeded, events)
    }

    constructor (interval: int, align: bool)
      ensures View() == Fresh(interval, align)
    {
      this.interval, this.align := interval, align;
      recordCnt, firstTs, lastTs, number, start, nextReport, endNeeded, events := 0, 0, 0, 0, 0, 0, false, [];
    }

    method Begin(time: int)
      modifies this
      ensures View() == StartAt(old(View()), time)
    {
      start := time;
      events := events + [StartInterval(number, time)];
    }

    method End(time: int)
      modifies this
      ensures View() == EndAt(old(View()), time)
    {
      events := events + [EndInterval(number, time)];
      endNeeded := false;
    }

    /** The current interval ends a second before the boundary, and the next one starts on it. */
    method NextInterval()
      modifies this
      ensures View() == Turn(old(View()))
    {
      End(nextReport - 1);
      number := number + 1;
      Begin(nextReport);
      nextReport := nextReport + interval;
    }

    /** bgpcorsaro_per_record. */
    method PerRecord(ts: int)
      requires interval != 0
      modifies this
      ensures View() == Step(old(View()), ts)
    {
      lastTs := ts;
      endNeeded := true;
      if recordCnt == 0 {
        firstTs := ts;
        Begin(ts);
        nextReport := ts + interval;
        if align {
          nextReport := TruncDiv(nextReport, interval) * interval;
        }
      }
      assert View() == Begun(old(View()), ts);
      while interval >= 0 && ts >= nextReport
        invariant CatchUp(View(), ts) == CatchUp(Begun(old(View()), ts), ts) && recordCnt == old(recordCnt)
        decreases ts - nextReport
      {
        NextInterval();
      }
      recordCnt := recordCnt + 1;
      events := events + [ProcessRecord(ts)];
    }

    /** bgpcorsaro_finalize_output. */
    method FinalizeOutput()
      modifies this
      ensures View() == Finalize(old(View()))
    {
      if endNeeded {
        End(lastTs);
      }
    }
  }
}
