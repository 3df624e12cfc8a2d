/** The driver: an object that denotes the records it has still to return. */
module Bgpstream {
  import opened Sequences
  import opened Inputs
  import opened Readers
  import opened DumpRecords
  import opened Stream
  import opened InputQueue
  import opened ReaderQueue

  // ---------- what the data source gives ----------

  /** What one query of the data source comes to. */
  datatype Answer = Answered(inputs: seq<Input>) | SourceError

  /** What calls for records come to, one after the other. */
  datatype Event = Rec(record: Record) | Fault

  ghost function Recs(recs: seq<Record>): seq<Event>
  {
    seq(|recs|, i requires 0 <= i < |recs| => Rec(recs[i]))
  }

  /** Every answer can be worked through to its end. */
  ghost predicate AllWork(answers: seq<Answer>)
  {
    forall a :: a in answers && a.Answered? ==> Progressing(PushAll([], a.inputs))
  }

  /** The answer a call of bgpstream_datasource_mgr_update_input_queue stops at: a blocking one
      asks again while the answer is empty. */
  function Asked(answers: seq<Answer>, blocking: bool): (k: nat)
    ensures k <= |answers|
  {
    if blocking && answers != [] && answers[0] == Answered([]) then 1 + Asked(answers[1..], blocking) else 0
  }

  /** Everything the answers lead to, until one is empty (or, blocking, until they end): the records
      of each run, and a fault for each error. */
  ghost function Events(answers: seq<Answer>, blocking: bool, s: Settings, seen: Seen): seq<Event>
    requires AllWork(answers)
  {
    if answers == [] then []
    else if answers[0].SourceError? then [Fault] + Events(answers[1..], blocking, s, seen)
    else if answers[0].inputs == [] then if blocking then Events(answers[1..], blocking, s, seen) else []
    else
      var (recs, after) := Run(PushAll([], answers[0].inputs), s, seen);
      Recs(recs) + Events(answers[1..], blocking, s, after)
  }

  ghost function RecordsIn(events: seq<Event>): seq<Record>
  {
    if events == [] then []
    else (if events[0].Rec? then [events[0].record] else []) + RecordsIn(events[1..])
  }

  /** The answers without the errors, and, blocking, without the empty ones. */
  ghost function Fruitful(answers: seq<Answer>, blocking: bool): seq<seq<Input>>
  {
    if answers == [] then []
    else if answers[0].SourceError? || (blocking && answers[0].inputs == []) then Fruitful(answers[1..], blocking)
    else [answers[0].inputs] + Fruitful(answers[1..], blocking)
  }

  lemma {:induction false} RecordsInRecs(recs: seq<Record>, events: seq<Event>)
    ensures RecordsIn(Recs(recs) + events) == recs + RecordsIn(events)
  {
    if recs == [] {
      assert Recs(recs) + events == events;
    } else {
      RecordsInRecs(recs[1..], events);
      assert (Recs(recs) + events)[1..] == Recs(recs[1..]) + events;
      assert recs == [recs[0]] + recs[1..];
      Assoc([recs[0]], recs[1..], RecordsIn(events));
    }
  }

  lemma {:induction false} FruitfulWorks(answers: seq<Answer>, blocking: bool)
    requires AllWork(answers)
    ensures AllProgressing(Fruitful(answers, blocking))
  {
    if answers != [] {
      FruitfulWorks(answers[1..], blocking);
      assert answers[0] in answers;
    }
  }

  /** Errors only interrupt: the records are those of the run over the other answers, about which
      modules Stream, StreamThinning and StreamOrder speak. */
  lemma {:induction false} EventsAreRun(answers: seq<Answer>, blocking: bool, s: Settings, seen: Seen)
    requires AllWork(answers)
    ensures AllProgressing(Fruitful(answers, blocking))
    ensures RecordsIn(Events(answers, blocking, s, seen)) == RunAnswers(Fruitful(answers, blocking), s, seen)
  {
    FruitfulWorks(answers, blocking);
    if answers != [] {
      FruitfulWorks(answers[1..], blocking);
      if answers[0].SourceError? {
        EventsAreRun(answers[1..], blocking, s, seen);
        assert ([Fault] + Events(answers[1..], blocking, s, seen))[1..] == Events(answers[1..], blocking, s, seen);
      } else if answers[0].inputs == [] {
        if blocking {
          EventsAreRun(answers[1..], blocking, s, seen);
        }
      } else {
        var (recs, after) := Run(PushAll([], answers[0].inputs), s, seen);
        EventsAreRun(answers[1..], blocking, s, after);
        RecordsInRecs(recs, Events(answers[1..], blocking, s, after));
        assert Fruitful(answers, blocking)[1..] == Fruitful(answers[1..], blocking);
      }
    }
  }

  /** Asking again after empty answers changes nothing. */
  lemma {:induction false} EventsAsked(answers: seq<Answer>, blocking: bool, s: Settings, seen: Seen)
    requires AllWork(answers)
    ensures AllWork(answers[Asked(answers, blocking)..])
    ensures Events(answers, blocking, s, seen) == Events(answers[Asked(answers, blocking)..], blocking, s, seen)
  {
    if Asked(answers, blocking) > 0 {
      EventsAsked(answers[1..], blocking, s, seen);
      assert answers[1..][Asked(answers[1..], blocking)..] == answers[Asked(answers, blocking)..];
    } else {
      assert answers[0..] == answers;
    }
  }

  // ---------- what is left of a stream ----------

  /** Everything calls for records will come to: the batch being merged, then the queued inputs,
      then what the data source will answer. */
  ghost function Left(readers: seq<Reader>, q: seq<Input>, answers: seq<Answer>, blocking: bool, s: Settings,
      seen: Seen): seq<Event>
    requires Progressing(q) && AllWork(answers)
  {
    var recs := Drain(readers, s.windows);
    var (more, after) := Run(q, s, ExportedAll(recs, s.period, seen));
    Recs(recs) + (Recs(more) + Events(answers, blocking, s, after))
  }

  lemma LeftAfterRecord(readers: seq<Reader>, q: seq<Input>, answers: seq<Answer>, blocking: bool, s: Settings,
      seen: Seen)
    requires readers != [] && Progressing(q) && AllWork(answers)
    ensures var (rec, readers') := NextRecord(readers, s.windows);
      Left(readers, q, answers, blocking, s, seen)
      == [Rec(rec)] + Left(readers', q, answers, blocking, s, Exported(rec, s.period, seen))
  {
    StepProgresses(readers, s.windows);
    var (rec, readers') := NextRecord(readers, s.windows);
    var recs, recs' := Drain(readers, s.windows), Drain(readers', s.windows);
    assert recs == [rec] + recs' && recs[1..] == recs';
    assert ExportedAll(recs, s.period, seen) == ExportedAll(recs', s.period, Exported(rec, s.period, seen));
    var (more, after) := Run(q, s, ExportedAll(recs, s.period, seen));
    assert Recs(recs) == [Rec(rec)] + Recs(recs');
    Assoc([Rec(rec)], Recs(recs'), Recs(more) + Events(answers, blocking, s, after));
  }

  lemma RunUnfolded(q: seq<Input>, s: Settings, seen: Seen)
    requires q != [] && Progressing(q)
    ensures BatchLength(q) > 0
    ensures var k := BatchLength(q);
      var recs := Drain(Opening(q[..k], s, seen), s.windows);
      var (more, after) := Run(q[k..], s, ExportedAll(recs, s.period, Accept(q[..k], s.period, seen).1));
      Run(q, s, seen) == (recs + more, after)
  {
  }

  lemma LeftOfNothing(answers: seq<Answer>, blocking: bool, s: Settings, seen: Seen)
    requires AllWork(answers)
    ensures Left([], [], answers, blocking, s, seen) == Events(answers, blocking, s, seen)
  {
  }

  /** Cutting a batch and opening its readers changes nothing. */
  lemma LeftAfterCut(q: seq<Input>, answers: seq<Answer>, blocking: bool, s: Settings, seen: Seen)
    requires q != [] && Progressing(q) && AllWork(answers)
    ensures BatchLength(q) > 0
    ensures var k := BatchLength(q);
      Left([], q, answers, blocking, s, seen)
      == Left(Opening(q[..k], s, seen), q[k..], answers, blocking, s, Accept(q[..k], s.period, seen).1)
  {
    RunUnfolded(q, s, seen);
    var k := BatchLength(q);
    var recs := Drain(Opening(q[..k], s, seen), s.windows);
    var (more, after) := Run(q[k..], s, ExportedAll(recs, s.period, Accept(q[..k], s.period, seen).1));
    NoReaders(q, answers, blocking, s, seen);
    RecsRegroup(recs, more, Events(answers, blocking, s, after));
  }

  lemma NoReaders(q: seq<Input>, answers: seq<Answer>, blocking: bool, s: Settings, seen: Seen)
    requires Progressing(q) && AllWork(answers)
    ensures Left([], q, answers, blocking, s, seen)
      == Recs(Run(q, s, seen).0) + Events(answers, blocking, s, Run(q, s, seen).1)
  {
  }

  lemma RecsRegroup(a: seq<Record>, b: seq<Record>, rest: seq<Event>)
    ensures Recs(a + b) + rest == Recs(a) + (Recs(b) + rest)
  {
    assert Recs(a + b) == Recs(a) + Recs(b);
    Assoc(Recs(a), Recs(b), rest);
  }

  /** The next answer comes to an end of the stream, to a fault, or to its inputs, queued. */
  lemma LeftAfterAnswer(answers: seq<Answer>, blocking: bool, s: Settings, seen: Seen)
    requires AllWork(answers)
    ensures var k := Asked(answers, blocking);
      var left := Left([], [], answers, blocking, s, seen);
      && (k == |answers| || answers[k] == Answered([]) ==> left == [])
      && (k < |answers| && answers[k].SourceError? ==>
            AllWork(answers[k + 1..]) && left == [Fault] + Left([], [], answers[k + 1..], blocking, s, seen))
      && (k < |answers| && answers[k].Answered? && answers[k] != Answered([]) ==>
            var q := PushAll([], answers[k].inputs);
            AllWork(answers[k + 1..]) && Progressing(q) && left == Left([], q, answers[k + 1..], blocking, s, seen))
  {
    var k := Asked(answers, blocking);
    EventsAsked(answers, blocking, s, seen);
    LeftOfNothing(answers, blocking, s, seen);
    if k < |answers| {
      if answers[k] == Answered([]) {
        NotSkipped(answers, blocking);
      }
      assert answers[k..][0] == answers[k] && answers[k..][1..] == answers[k + 1..];
      LeftOfFirst(answers[k..], blocking, s, seen);
    }
  }

  /** What the answer in front comes to, if it is not skipped. */
  lemma LeftOfFirst(answers: seq<Answer>, blocking: bool, s: Settings, seen: Seen)
    requires AllWork(answers) && answers != [] && (answers[0] == Answered([]) ==> !blocking)
    ensures AllWork(answers[1..]) && (answers[0].Answered? ==> Progressing(PushAll([], answers[0].inputs)))
    ensures Events(answers, blocking, s, seen) ==
      if answers[0] == Answered([]) then []
      else if answers[0].SourceError? then [Fault] + Left([], [], answers[1..], blocking, s, seen)
      else Left([], PushAll([], answers[0].inputs), answers[1..], blocking, s, seen)
  {
    assert answers[0] in answers;
    LeftOfNothing(answers[1..], blocking, s, seen);
    if answers[0].Answered? && answers[0].inputs != [] {
      QueuedIsLeft(answers[0].inputs, answers[1..], blocking, s, seen);
    }
  }

  lemma {:induction false} NotSkipped(answers: seq<Answer>, blocking: bool)
    requires Asked(answers, blocking) < |answers| && answers[Asked(answers, blocking)] == Answered([])
    ensures !blocking
  {
    if Asked(answers, blocking) > 0 {
      NotSkipped(answers[1..], blocking);
    }
  }

  lemma QueuedIsLeft(xs: seq<Input>, answers: seq<Answer>, blocking: bool, s: Settings, seen: Seen)
    requires Progressing(PushAll([], xs)) && AllWork(answers)
    ensures var (recs, after) := Run(PushAll([], xs), s, seen);
      Recs(recs) + Events(answers, blocking, s, after) == Left([], PushAll([], xs), answers, blocking, s, seen)
  {
  }

  lemma {:induction false} PushedOne(q: seq<Input>, xs: seq<Input>, i: nat)
    requires i < |xs|
    ensures PushAll(q, xs[..i + 1]) == Push(PushAll(q, xs[..i]), xs[i]).0
  {
    assert xs[..i + 1][..i] == xs[..i];
  }

  /** Every reader of a batch has a record to return. */
  lemma OpeningNoneEnded(xs: seq<Input>, s: Settings, seen: Seen)
    ensures NoneEnded(Opening(xs, s, seen))
  {
    var ys := Accept(xs, s.period, seen).0;
    CreatedMembers(ys, s.dumps);
    AddReadersMembers([], Created(ys, s.dumps), s.windows);
    forall r | r in Opening(xs, s, seen)
      ensures r.status != EndOfDump
    {
      var b :| b in Created(ys, s.dumps) && r == Readers.ReadNewData(b, s.windows);
      AloneIsContribution(b.input, s.dumps(b.input), s.windows);
    }
  }

  lemma NextBatchFacts(q: seq<Input>, answers: seq<Answer>, blocking: bool, s: Settings, seen: Seen)
    requires q != [] && Ordered(q) && Progressing(q) && AllWork(answers)
    ensures var k := BatchLength(q);
      k > 0 && Ordered(q[k..]) && Progressing(q[k..]) && NoneEnded(Opening(q[..k], s, seen))
    ensures var k := BatchLength(q);
      Left([], q, answers, blocking, s, seen)
      == Left(Opening(q[..k], s, seen), q[k..], answers, blocking, s, Accept(q[..k], s.period, seen).1)
  {
    LeftAfterCut(q, answers, blocking, s, seen);
    OpeningNoneEnded(q[..BatchLength(q)], s, seen);
    OrderedParts(q, BatchLength(q));
  }

  lemma PushedNonEmpty(xs: seq<Input>)
    requires xs != []
    ensures PushAll([], xs) != []
  {
    PushAllOrdered([], xs);
    assert xs[0] in xs;
  }

  /** What a call for more inputs comes to, given what it leaves and what it queues. */
  lemma AskedComesTo(asked: seq<Answer>, blocking: bool, s: Settings, seen: Seen, rest: seq<Answer>, q: seq<Input>)
    requires AllWork(asked)
    requires var k := Asked(asked, blocking);
      && rest == (if k < |asked| then asked[k + 1..] else [])
      && q == if k < |asked| && asked[k].Answered? then PushAll([], asked[k].inputs) else []
    ensures AllWork(rest) && Ordered(q) && Progressing(q)
    ensures var k, left := Asked(asked, blocking), Left([], [], asked, blocking, s, seen);
      if k == |asked| || asked[k] == Answered([]) then left == [] && q == []
      else if asked[k].SourceError? then left == [Fault] + Left([], [], rest, blocking, s, seen)
      else left == Left([], q, rest, blocking, s, seen) && q != []
  {
    var k := Asked(asked, blocking);
    LeftAfterAnswer(asked, blocking, s, seen);
    if k < |asked| && asked[k].Answered? {
      Queued(asked[k].inputs);
      if asked[k].inputs != [] {
        PushedNonEmpty(asked[k].inputs);
      }
    }
  }

  lemma InputsSplit(ns: seq<InputNode>, taken: seq<InputNode>, rest: seq<InputNode>)
    requires ns == taken + rest
    ensures InputsOf(taken) == InputsOf(ns)[..|taken|] && InputsOf(rest) == InputsOf(ns)[|taken|..]
    ensures rest == ns[|taken|..]
  {
  }

  datatype Outcome = Got(record: Record) | NoMore | Failed

  datatype Status = Allocated | On | Off

  /** What a round of queries finds: something queued, nothing more, or an error. */
  datatype Found = Something | Nothing | Broken

  class BgpStream {
    const settings: Settings
    const blocking: bool
    const inputs: InputMgr
    const readers: ReaderMgr
    const filter: FilterMgr
    var status: Status
    /** What the data source will answer, query by query; then nothing. */
    var answers: seq<Answer>

    /** Everything a call may change. */
    ghost var footprint: set<object>

    ghost predicate Owned()
      reads this, inputs, readers
    {
      && this in footprint && inputs in footprint && readers in footprint && filter in footprint
      && (forall k :: 0 <= k < |inputs.nodes| ==> inputs.nodes[k] in footprint)
      && (forall k :: 0 <= k < |readers.nodes| ==> readers.nodes[k] in footprint)
    }

    ghost predicate Sound()
      reads `answers, inputs, inputs.nodes, readers, readers.nodes, filter
    {
      && inputs.Valid() && Ordered(inputs.Contents()) && Progressing(inputs.Contents())
      && readers.Valid() && NoneEnded(readers.Queue())
      && AllWork(answers)
      && filter.period == settings.period && filter.windows == settings.windows
    }

    ghost predicate Valid()
      reads this, inputs, inputs.nodes, readers, readers.nodes, filter
    {
      Owned() && Sound()
    }

    ghost function Remaining(): seq<Event>
      requires Sound()
      reads `answers, inputs, inputs.nodes, readers, readers.nodes, filter
    {
      Left(readers.Queue(), inputs.Contents(), answers, blocking, settings, filter.seen)
    }

    /** bgpstream_create, with what the data source is going to answer. */
    constructor (settings: Settings, answers: seq<Answer>, blocking: bool)
      ensures this.settings == settings && this.answers == answers && this.blocking == blocking && status == Allocated
      ensures inputs.Valid() && inputs.nodes == [] && readers.Valid() && readers.nodes == []
      ensures filter.period == settings.period && filter.windows == settings.windows && filter.seen == map[]
      ensures Owned() && fresh(footprint)
    {
      var inputMgr := new InputMgr();
      var readerMgr := new ReaderMgr();
      var filterMgr := new FilterMgr(settings.period, settings.windows);
      this.settings, this.answers, this.blocking, status := settings, answers, blocking, Allocated;
      inputs, readers, filter := inputMgr, readerMgr, filterMgr;
      footprint := {this, inputMgr, readerMgr, filterMgr};
    }

    /** Everything is still to come. */
    static method Create(settings: Settings, answers: seq<Answer>, blocking: bool) returns (bs: BgpStream)
      requires AllWork(answers)
      ensures bs.Valid() && bs.status == Allocated && fresh(bs.footprint)
      ensures bs.Remaining() == Events(answers, blocking, settings, map[])
    {
      LeftOfNothing(answers, blocking, settings, map[]);
      bs := new BgpStream(settings, answers, blocking);
      assert bs.inputs.Contents() == [] && bs.readers.Queue() == [];
    }

    /** bgpstream_start, given what validating the filters and opening the data source come to. */
    method Start(filterCheck: int, sourceOn: bool) returns (rc: int)
      requires Valid()
      modifies this`status
      ensures Valid() && Remaining() == old(Remaining())
      ensures old(status) != Allocated ==> rc == 0 && status == old(status)
      ensures old(status) == Allocated ==>
        (rc == 0 <==> status == On) && (status == On <==> filterCheck == 0 && sourceOn)
      ensures status == On || status == old(status)
      ensures rc != 0 ==> rc == if filterCheck != 0 then filterCheck else -1
    {
      if status != Allocated {
        return 0;
      }
      if filterCheck != 0 {
        return filterCheck;
      }
      if sourceOn {
        status := On;
        rc := 0;
      } else {
        status := Allocated;
        rc := -1;
      }
    }

    /** bgpstream_stop. */
    method Stop()
      requires Valid()
      modifies this`status
      ensures Valid() && Remaining() == old(Remaining()) && status == if old(status) == On then Off else old(status)
    {
      if status == On {
        status := Off;
      }
    }

    /** The managers and filter this stream was made with, and nodes that were its own or are new. */
    ghost predicate OwnedWith(more: set<object>)
      reads this, inputs, readers
    {
      && this in footprint && inputs in footprint && readers in footprint && filter in footprint
      && (forall k :: 0 <= k < |inputs.nodes| ==> inputs.nodes[k] in footprint || inputs.nodes[k] in more)
      && (forall k :: 0 <= k < |readers.nodes| ==> readers.nodes[k] in footprint || readers.nodes[k] in more)
    }

    /** New nodes belong to this stream. */
    ghost method Own(nodes: set<object>)
      requires Sound() && OwnedWith(nodes)
      modifies this`footprint
      ensures footprint == old(footprint) + nodes && Valid() && Remaining() == old(Remaining())
    {
      footprint := footprint + nodes;
    }

    method PushOne(x: Input, ghost q: seq<Input>) returns (added: bool)
      requires inputs.Valid() && inputs.Contents() == q
      modifies inputs, inputs.nodes
      ensures inputs.Valid() && (inputs.Contents(), added) == Push(q, x)
      ensures forall k :: 0 <= k < |inputs.nodes| ==> inputs.nodes[k] in old(inputs.nodes) || fresh(inputs.nodes[k])
    {
      added := inputs.PushSortedInput(x);
    }

    /** One answer is pushed; the result is how many inputs were new. */
    method PushAnswer(xs: seq<Input>) returns (n: nat)
      requires inputs.Valid() && inputs.Contents() == []
      modifies inputs, inputs.nodes
      ensures inputs.Valid() && inputs.Contents() == PushAll([], xs) && (n == 0 <==> xs == [])
      ensures forall k :: 0 <= k < |inputs.nodes| ==> inputs.nodes[k] in old(inputs.nodes) || fresh(inputs.nodes[k])
    {
      n := 0;
      var i := 0;
      ghost var q: seq<Input> := [];
      while i < |xs|
        invariant i <= |xs| && inputs.Valid() && inputs.Contents() == q == PushAll([], xs[..i])
        invariant forall k :: 0 <= k < |inputs.nodes| ==> inputs.nodes[k] in old(inputs.nodes) || fresh(inputs.nodes[k])
        invariant n == 0 <==> i == 0
      {
        PushedOne([], xs, i);
        var added := PushOne(xs[i], q);
        q := Push(q, xs[i]).0;
        if added {
          n := n + 1;
        }
        i := i + 1;
      }
      assert xs[..i] == xs;
    }

    /** One query of the data source. */
    method QuerySource() returns (n: int)
      requires inputs.Valid() && inputs.Contents() == []
      modifies this`answers, inputs, inputs.nodes
      ensures inputs.Valid()
      ensures forall k :: 0 <= k < |inputs.nodes| ==> inputs.nodes[k] in old(inputs.nodes) || fresh(inputs.nodes[k])
      ensures old(answers) == [] ==> n == 0 && answers == [] && inputs.Contents() == []
      ensures old(answers) != [] ==> answers == old(answers)[1..]
      ensures old(answers) != [] && old(answers)[0].SourceError? ==> n < 0 && inputs.Contents() == []
      ensures old(answers) != [] && old(answers)[0].Answered? ==>
        && inputs.Contents() == PushAll([], old(answers)[0].inputs)
        && n >= 0 && (n == 0 <==> old(answers)[0] == Answered([]))
    {
      if answers == [] {
        return 0;
      }
      var answer := answers[0];
      answers := answers[1..];
      match answer
      case SourceError => n := -1;
      case Answered(xs) => n := PushAnswer(xs);
    }

    /** bgpstream_datasource_mgr_update_input_queue: query, and when blocking query again while
        there is nothing; a data source that has no more answers is not waited for. */
    method UpdateInputQueue() returns (n: int, ghost k: nat)
      requires inputs.Valid() && inputs.Contents() == []
      modifies this`answers, inputs, inputs.nodes
      ensures inputs.Valid()
      ensures forall j :: 0 <= j < |inputs.nodes| ==> inputs.nodes[j] in old(inputs.nodes) || fresh(inputs.nodes[j])
      ensures k == Asked(old(answers), blocking)
      ensures k == |old(answers)| ==> n == 0 && answers == [] && inputs.Contents() == []
      ensures k < |old(answers)| ==> answers == old(answers)[k + 1..]
      ensures k < |old(answers)| && old(answers)[k].SourceError? ==> n < 0 && inputs.Contents() == []
      ensures k < |old(answers)| && old(answers)[k].Answered? ==>
        && inputs.Contents() == PushAll([], old(answers)[k].inputs)
        && n >= 0 && (n == 0 <==> old(answers)[k] == Answered([]))
    {
      ghost var asked := answers;
      k := 0;
      assert asked[0..] == asked;
      n := QuerySource();
      while blocking && n == 0 && answers != []
        invariant inputs.Valid() && k <= |asked| && Asked(asked, blocking) == k + Asked(asked[k..], blocking)
        invariant forall j :: 0 <= j < |inputs.nodes| ==> inputs.nodes[j] in old(inputs.nodes) || fresh(inputs.nodes[j])
        invariant k == |asked| ==> n == 0 && answers == [] && inputs.Contents() == []
        invariant k < |asked| ==> answers == asked[k + 1..]
        invariant k < |asked| && asked[k].SourceError? ==> n < 0 && inputs.Contents() == []
        invariant k < |asked| && asked[k].Answered? ==>
          inputs.Contents() == PushAll([], asked[k].inputs) && n >= 0 && (n == 0 <==> asked[k] == Answered([]))
        decreases |answers|
      {
        assert asked[k..][1..] == asked[k + 1..];
        k := k + 1;
        n := QuerySource();
      }
      if k < |asked| && blocking && asked[k] == Answered([]) {
        assert asked[k..][1..] == asked[k + 1..];
        k := k + 1;
      }
    }

    /** The batch leaves the input queue. */
    method TakeBatch() returns (batch: InputNode?, ghost taken: seq<InputNode>, ghost k: nat)
      requires inputs.Valid()
      modifies inputs, inputs.nodes
      ensures inputs.Valid() && Chained(taken) && batch == At(taken, 0)
      ensures k == BatchLength(old(inputs.Contents())) && |inputs.nodes| == old(|inputs.nodes|) - k
      ensures InputsOf(taken) == old(inputs.Contents())[..k] && inputs.Contents() == old(inputs.Contents())[k..]
      ensures forall j :: 0 <= j < |inputs.nodes| ==> inputs.nodes[j] in old(inputs.nodes)
    {
      k := BatchLength(inputs.Contents());
      batch, taken := inputs.GetQueueToProcess();
      InputsSplit(old(inputs.nodes), taken, inputs.nodes);
    }

    /** Its readers are opened. */
    method OpenBatch(batch: InputNode?, ghost taken: seq<InputNode>)
      requires inputs.Valid() && readers.Valid() && readers.nodes == [] && Chained(taken) && batch == At(taken, 0)
      requires filter.period == settings.period && filter.windows == settings.windows
      modifies readers, filter
      ensures inputs.Valid() && inputs.Contents() == old(inputs.Contents()) && readers.Valid()
      ensures readers.Queue() == Opening(InputsOf(taken), settings, old(filter.seen))
      ensures filter.seen == Accept(InputsOf(taken), settings.period, old(filter.seen)).1
      ensures forall j :: 0 <= j < |readers.nodes| ==> fresh(readers.nodes[j])
    {
      readers.Refill(batch, taken, settings.dumps, filter);
    }

    method CutAndOpen() returns (ghost k: nat)
      requires inputs.Valid() && readers.Valid() && readers.nodes == []
      requires filter.period == settings.period && filter.windows == settings.windows
      modifies inputs, inputs.nodes, readers, filter
      ensures inputs.Valid() && readers.Valid()
      ensures k == BatchLength(old(inputs.Contents())) && inputs.Contents() == old(inputs.Contents())[k..]
      ensures |inputs.nodes| == old(|inputs.nodes|) - k
      ensures readers.Queue() == Opening(old(inputs.Contents())[..k], settings, old(filter.seen))
      ensures filter.seen == Accept(old(inputs.Contents())[..k], settings.period, old(filter.seen)).1
      ensures forall j :: 0 <= j < |inputs.nodes| ==> inputs.nodes[j] in old(inputs.nodes)
      ensures forall j :: 0 <= j < |readers.nodes| ==> fresh(readers.nodes[j])
    {
      var batch;
      ghost var taken;
      batch, taken, k := TakeBatch();
      assert readers.Valid();
      OpenBatch(batch, taken);
    }

    method CutBatch()
      requires Sound() && readers.Queue() == [] && inputs.Contents() != []
      modifies inputs, inputs.nodes, readers, filter
      ensures Sound() && Remaining() == old(Remaining()) && |inputs.nodes| < old(|inputs.nodes|)
      ensures forall j :: 0 <= j < |inputs.nodes| ==> inputs.nodes[j] in old(inputs.nodes)
      ensures forall j :: 0 <= j < |readers.nodes| ==> fresh(readers.nodes[j])
    {
      ghost var q, seen := inputs.Contents(), filter.seen;
      assert readers.nodes == [];
      ghost var k := CutAndOpen();
      NextBatchFacts(q, answers, blocking, settings, seen);
    }

    /** On a head of an unknown type or without a span, a round of the outer loop changes nothing:
        the driver goes round for ever. */
    method StuckRound()
      requires inputs.Valid() && readers.Valid() && readers.nodes == [] && inputs.Contents() != []
      requires filter.period == settings.period && filter.windows == settings.windows
      requires !Known(inputs.Contents()[0]) || inputs.Contents()[0].span <= 0
      modifies inputs, inputs.nodes, readers, filter
      ensures inputs.Valid() && readers.Valid()
      ensures inputs.Contents() == old(inputs.Contents()) && readers.Queue() == [] && filter.seen == old(filter.seen)
    {
      BatchNonEmpty(inputs.Contents());
      ghost var q := inputs.Contents();
      ghost var k := CutAndOpen();
      assert q[0..] == q && q[..0] == [];
    }

    /** A batch is cut and its readers are opened. */
    method NextBatch()
      requires Valid() && readers.Queue() == [] && inputs.Contents() != []
      modifies footprint
      ensures Valid() && Remaining() == old(Remaining())
      ensures answers == old(answers) && |inputs.nodes| < old(|inputs.nodes|)
      ensures status == old(status) && fresh(footprint - old(footprint))
    {
      CutBatch();
      Own(set n | n in readers.nodes);
    }

    method AskSource() returns (found: Found)
      requires Sound() && readers.Queue() == [] && inputs.Contents() == []
      modifies this`answers, inputs, inputs.nodes
      ensures Sound()
      ensures found == Nothing ==> old(Remaining()) == [] && inputs.Contents() == []
      ensures found == Broken ==> old(Remaining()) == [Fault] + Remaining() && inputs.Contents() == []
      ensures found == Something ==> Remaining() == old(Remaining()) && inputs.Contents() != []
      ensures found != Nothing ==> |answers| < old(|answers|)
      ensures forall k :: 0 <= k < |inputs.nodes| ==> inputs.nodes[k] in old(inputs.nodes) || fresh(inputs.nodes[k])
    {
      ghost var asked := answers;
      var n;
      ghost var k;
      n, k := UpdateInputQueue();
      AskedComesTo(asked, blocking, settings, filter.seen, answers, inputs.Contents());
      found := if n == 0 then Nothing else if n < 0 then Broken else Something;
    }

    /** One query of the data source, when nothing is queued. */
    method Query() returns (found: Found)
      requires Valid() && readers.Queue() == [] && inputs.Contents() == []
      modifies footprint
      ensures Valid() && readers.Queue() == []
      ensures found == Nothing ==> old(Remaining()) == [] && inputs.Contents() == []
      ensures found == Broken ==> old(Remaining()) == [Fault] + Remaining() && inputs.Contents() == []
      ensures found == Something ==> Remaining() == old(Remaining()) && inputs.Contents() != []
      ensures found != Nothing ==> |answers| < old(|answers|)
      ensures status == old(status) && fresh(footprint - old(footprint))
    {
      found := AskSource();
      Own(set m | m in inputs.nodes);
    }

    /** The inner loop of bgpstream_get_next_record: query until something is queued, the data
        source has nothing more, or it reports an error. */
    method FillInputs() returns (found: Found)
      requires Valid() && readers.Queue() == []
      modifies footprint
      ensures Valid() && readers.Queue() == []
      ensures found == Something ==> inputs.Contents() != [] && Remaining() == old(Remaining())
      ensures found == Something ==>
        |answers| < old(|answers|) || (answers == old(answers) && inputs.nodes == old(inputs.nodes))
      ensures found == Nothing ==> old(Remaining()) == [] && inputs.Contents() == []
      ensures found == Broken ==> old(Remaining()) == [Fault] + Remaining()
      ensures status == old(status) && fresh(footprint - old(footprint))
    {
      while inputs.empty
        invariant Valid() && readers.Queue() == [] && Remaining() == old(Remaining())
        invariant |answers| < old(|answers|) || (answers == old(answers) && inputs.nodes == old(inputs.nodes))
        invariant status == old(status) && fresh(footprint - old(footprint))
        decreases |answers|
      {
        found := Query();
        if found != Something {
          return;
        }
      }
      found := Something;
    }

    /** One round of the outer loop. */
    method FillBatch() returns (found: Found)
      requires Valid() && readers.Queue() == []
      modifies footprint
      ensures Valid()
      ensures found == Something ==> Remaining() == old(Remaining())
      ensures found == Something ==>
        |answers| < old(|answers|) || (answers == old(answers) && |inputs.nodes| < old(|inputs.nodes|))
      ensures found == Nothing ==> old(Remaining()) == [] && readers.Queue() == [] && inputs.Contents() == []
      ensures found == Broken ==> old(Remaining()) == [Fault] + Remaining()
      ensures status == old(status) && fresh(footprint - old(footprint))
    {
      assert readers.nodes == [];
      found := FillInputs();
      if found == Something {
        NextBatch();
      }
    }

    /** The outer loop: cut batches until one has a reader. */
    method FillReaders() returns (found: Found)
      requires Valid()
      modifies footprint
      ensures Valid()
      ensures found == Something ==> readers.Queue() != [] && Remaining() == old(Remaining())
      ensures found == Nothing ==> old(Remaining()) == [] && readers.Queue() == [] && inputs.Contents() == []
      ensures found == Broken ==> old(Remaining()) == [Fault] + Remaining()
      ensures status == old(status) && fresh(footprint - old(footprint))
    {
      while readers.empty
        invariant Valid() && Remaining() == old(Remaining())
        invariant status == old(status) && fresh(footprint - old(footprint))
        decreases |answers|, |inputs.nodes|
      {
        found := FillBatch();
        if found != Something {
          return;
        }
      }
      found := Something;
    }

    /** The next record of the batch; its reader stays or goes. */
    method TakeRecord() returns (rec: Record)
      requires Sound() && readers.Queue() != []
      modifies readers, readers.nodes, filter
      ensures Sound() && old(Remaining()) == [Rec(rec)] + Remaining()
      ensures forall n :: n in readers.nodes ==> n in old(readers.nodes)
    {
      ghost var rs, q, seen := readers.Queue(), inputs.Contents(), filter.seen;
      var next := readers.GetNextRecord(filter);
      assert inputs.Valid() && inputs.Contents() == q;
      rec := next.value;
      LeftAfterRecord(rs, q, answers, blocking, settings, seen);
    }

    method NextOfBatch() returns (rec: Record)
      requires Valid() && readers.Queue() != []
      modifies footprint
      ensures Valid() && old(Remaining()) == [Rec(rec)] + Remaining()
      ensures status == old(status) && fresh(footprint - old(footprint))
    {
      rec := TakeRecord();
      assert forall k :: 0 <= k < |readers.nodes| ==> readers.nodes[k] in readers.nodes;
    }

    /** bgpstream_get_next_record: the next of what remains, a record or an error of the data source,
        or nothing exactly when nothing remains. */
    method GetNextRecord() returns (out: Outcome)
      requires Valid()
      modifies footprint
      ensures Valid() && status == old(status) && fresh(footprint - old(footprint))
      ensures status != On ==> out == Failed && Remaining() == old(Remaining())
      ensures status == On && out.Failed? ==> old(Remaining()) == [Fault] + Remaining()
      ensures out.Got? ==> old(Remaining()) == [Rec(out.record)] + Remaining()
      ensures out.NoMore? ==> old(Remaining()) == []
    {
      if status != On {
        return Failed;
      }
      var found := FillReaders();
      match found
      case Nothing => return NoMore;
      case Broken => return Failed;
      case Something =>
        var rec := NextOfBatch();
        return Got(rec);
    }
  }
}
