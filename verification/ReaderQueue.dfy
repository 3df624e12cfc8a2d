/** Readers as objects and the reader manager: a linked priority queue, relinked in place. They do
    what the functions of modules Readers and Stream say. */
module ReaderQueue {
  import opened Wrappers
  import opened Inputs
  import opened Readers
  import opened Merging
  import opened Stream
  import opened InputQueue

  /** The walk over the time intervals in bgpstream_reader_filter_bd_entry. */
  method FilterEntry(e: Entry, windows: seq<Window>) returns (ok: bool)
    ensures ok <==> Passes(windows, e)
  {
    if windows == [] {
      return true;
    }
    var i := 0;
    while i < |windows|
      invariant i <= |windows| && forall j :: 0 <= j < i ==> !Admits(windows[j], e)
    {
      if Admits(windows[i], e) {
        return true;
      }
      i := i + 1;
    }
    return false;
  }

  /** bgpstream_reader_t. */
  class ReaderNode {
    const input: Input
    var recordTime: int
    var entry: Option<Entry>
    var successful: nat
    var valid: nat
    var status: Status
    var dump: Dump
    var next: ReaderNode?

    ghost function View(): Reader
      reads this`recordTime, this`entry, this`successful, this`valid, this`status, this`dump
    {
      Reader(input, recordTime, entry, successful, valid, status, dump)
    }

    /** bgpstream_reader_create. */
    constructor (x: Input, dump: Dump)
      ensures View() == Create(x, dump) && next == null
    {
      input, recordTime, entry := x, x.filetime, None;
      successful, valid, status := 0, 0, ValidEntry;
      this.dump, next := dump, null;
    }

    /** get_next_entry, with the flags bgpdump_read_next leaves behind. */
    method GetNextEntry() returns (e: Option<Entry>, corrupted: bool, eof: bool)
      modifies this`status, this`dump
      ensures old(dump).Unopenable? ==> e == None && status == CantOpenDump && dump == old(dump)
      ensures old(dump).Opened? ==> status == old(status) && (eof <==> old(dump).items == [])
      ensures old(dump).Opened? && !eof ==>
        dump == Opened(old(dump).items[1..]) && (corrupted <==> old(dump).items[0].Corrupted?)
        && e == if old(dump).items[0].Read? then Some(old(dump).items[0].entry) else None
      ensures eof && old(dump).Opened? ==> dump == old(dump) && e == None && !corrupted
    {
      e, corrupted, eof := None, false, false;
      match dump
      case Unopenable =>
        status := CantOpenDump;
      case Opened(items) =>
        if items == [] {
          eof := true;
        } else {
          dump := Opened(items[1..]);
          match items[0]
          case Read(next) => e := Some(next);
          case Blank =>
          case Corrupted => corrupted := true;
        }
    }

    /** bgpstream_reader_read_new_data. */
    method ReadNewData(windows: seq<Window>)
      modifies this`recordTime, this`entry, this`successful, this`valid, this`status, this`dump
      ensures View() == Readers.ReadNewData(old(View()), windows)
    {
      if status != ValidEntry {
        return;
      }
      entry := None;
      var significant := false;
      while !significant
        invariant !significant ==> status == ValidEntry && entry == None
        invariant (if significant then View() else Readers.ReadNewData(View(), windows))
               == Readers.ReadNewData(old(View()), windows)
        decreases !significant, Remaining(dump)
      {
        var e, corrupted, eof := GetNextEntry();
        entry := e;
        if status == CantOpenDump {
          return;
        }
        if entry.Some? {
          successful := successful + 1;
          var ok := FilterEntry(entry.value, windows);
          if ok {
            valid := valid + 1;
            status := ValidEntry;
            recordTime := entry.value.time;
            significant := true;
          } else {
            entry := None;
          }
        } else if corrupted {
          status := CorruptedDump;
          significant := true;
        } else if eof {
          significant := true;
          if successful == 0 {
            status := EmptyDump;
          } else if valid == 0 {
            status := FilteredDump;
          } else {
            status := EndOfDump;
          }
        }
      }
    }
  }

  /** bgpstream_filter_mgr_t, as far as readers use it. */
  class FilterMgr {
    const period: int
    const windows: seq<Window>
    var seen: Seen

    constructor (period: int, windows: seq<Window>)
      ensures this.period == period && this.windows == windows && seen == map[]
    {
      this.period, this.windows, seen := period, windows, map[];
    }

    /** bgpstream_reader_period_check. */
    method Check(x: Input) returns (taken: bool)
      modifies this
      ensures (taken, seen) == PeriodCheck(x, period, old(seen))
    {
      if period != 0 && x.filetype == "ribs" {
        var key := CollectorKey(x);
        if key !in seen {
          seen := seen[key := x.filetime];
          return true;
        }
        if x.filetime != seen[key] {
          if x.filetime < seen[key] + period {
            return false;
          }
          seen := seen[key := x.filetime];
        }
      }
      return true;
    }

    /** The end of bgpstream_reader_export_record. */
    method Forget(rec: Record)
      modifies this
      ensures seen == Exported(rec, period, old(seen))
    {
      if period != 0 && (rec.status == CorruptedSource || rec.status == CorruptedRecord) {
        seen := seen[CollectorKey(rec.input) := 0];
      }
    }
  }

  ghost predicate Threaded(ns: seq<ReaderNode>)
    reads ns`next
  {
    && (forall i {:trigger ns[i].next} :: 0 <= i < |ns| ==> ns[i].next == if i + 1 < |ns| then ns[i + 1] else null)
    && (forall i, j :: 0 <= i < j < |ns| ==> ns[i] != ns[j])
  }

  ghost function Views(ns: seq<ReaderNode>): (q: seq<Reader>)
    reads ns
    ensures |q| == |ns| && forall i :: 0 <= i < |q| ==> q[i] == ns[i].View()
  {
    seq(|ns|, i requires 0 <= i < |ns| reads ns => ns[i].View())
  }

  lemma SplicedViews(ns: seq<ReaderNode>, r: ReaderNode, i: nat)
    requires i <= |ns|
    ensures Views(ns[..i] + [r] + ns[i..]) == Views(ns)[..i] + [r.View()] + Views(ns)[i..]
  {
  }

  /** Only the head differs from q. */
  lemma HeadReplaced(ns: seq<ReaderNode>, q: seq<Reader>)
    requires ns != [] && |q| == |ns| && forall i :: 0 < i < |ns| ==> ns[i].View() == q[i]
    ensures Views(ns) == [ns[0].View()] + q[1..]
  {
  }

  ghost function NodeAt(ns: seq<ReaderNode>, i: nat): ReaderNode?
  {
    if i < |ns| then ns[i] else null
  }

  ghost predicate NoneStops(q: seq<Reader>, r: Reader, i: nat)
  {
    forall j :: 0 <= j < i && j < |q| ==> !StopsAt(r, q[j])
  }

  lemma {:induction false} InsertsAt(q: seq<Reader>, r: Reader, i: nat)
    requires i <= |q| && NoneStops(q, r, i) && (i == |q| || StopsAt(r, q[i]))
    ensures SortedInsert(q, r) == q[..i] + [r] + q[i..]
  {
    if i > 0 {
      InsertsAt(q[1..], r, i - 1);
      assert q[1..][i - 1..] == q[i..] && [q[0]] + q[1..][..i - 1] == q[..i];
    }
  }

  /** No queued reader has reached the end of its dump. */
  ghost predicate NoneEnded(q: seq<Reader>)
  {
    forall r :: r in q ==> r.status != EndOfDump
  }

  /** A reader that reaches the end leaves the queue at once. */
  lemma NextRecordNoneEnded(q: seq<Reader>, windows: seq<Window>)
    requires q != [] && NoneEnded(q)
    ensures NoneEnded(NextRecord(q, windows).1)
  {
    match Advance(q[0], windows)
    case None =>
    case Some(r) =>
      InsertMembers(q[1..], r);
  }

  /** The queue after a step, given the head after its read. */
  function Requeued(r: Reader, previousTime: int, rest: seq<Reader>): seq<Reader>
  {
    if r.status == EndOfDump then rest
    else if r.recordTime != previousTime then SortedInsert(rest, r) else [r] + rest
  }

  lemma StepAsRead(q: seq<Reader>, windows: seq<Window>)
    requires q != [] && q[0].status == ValidEntry
    ensures var r := Readers.ReadNewData(q[0].(entry := None), windows);
      NextRecord(q, windows) ==
        (if r.status == EndOfDump && Discarded(r) == Discarded(q[0]) then Export(q[0]).(position := DumpEnd)
         else Export(q[0]), Requeued(r, q[0].recordTime, q[1..]))
  {
  }

  lemma StepAsStatus(q: seq<Reader>, windows: seq<Window>)
    requires q != [] && q[0].status != ValidEntry
    ensures NextRecord(q, windows) == (Export(q[0]).(position := DumpEnd), q[1..])
  {
  }

  lemma StepExported(q: seq<Reader>, filter: FilterMgr, seen: Seen)
    requires q != []
    ensures Exported(Export(q[0]), filter.period, seen)
      == Exported(NextRecord(q, filter.windows).0, filter.period, seen)
  {
  }

  lemma {:induction false} AcceptNext(q: seq<Input>, i: nat, period: int, seen: Seen)
    requires i < |q|
    ensures var (xs, seen1) := Accept(q[..i], period, seen);
      var (taken, seen2) := PeriodCheck(q[i], period, seen1);
      Accept(q[..i + 1], period, seen) == (if taken then xs + [q[i]] else xs, seen2)
  {
    if i > 0 {
      var (taken, seen1) := PeriodCheck(q[0], period, seen);
      AcceptNext(q[1..], i - 1, period, seen1);
      assert q[..i + 1][1..] == q[1..][..i] && q[..i][1..] == q[1..][..i - 1];
      var rest := Accept(q[..i][1..], period, seen1).0;
      assert [q[0]] + (rest + [q[i]]) == [q[0]] + rest + [q[i]];
    } else {
      assert q[..1][1..] == [] && q[..0] == [] && [q[0]] + [] == [] + [q[0]];
      assert Accept([], period, seen) == ([], seen);
    }
  }

  lemma {:induction false} CreatedNext(xs: seq<Input>, x: Input, dumps: Input -> Dump)
    ensures Created(xs + [x], dumps) == Created(xs, dumps) + [Create(x, dumps(x))]
  {
    if xs != [] {
      CreatedNext(xs[1..], x, dumps);
      assert (xs + [x])[1..] == xs[1..] + [x];
    }
  }

  ghost predicate Different(rs: seq<ReaderNode>)
  {
    forall i, j :: 0 <= i < j < |rs| ==> rs[i] != rs[j]
  }

  lemma ViewsNext(rs: seq<ReaderNode>, r: ReaderNode)
    ensures Views(rs + [r]) == Views(rs) + [r.View()]
  {
  }

  /** bgpstream_reader_mgr_t. */
  class ReaderMgr {
    var readerQueue: ReaderNode?
    var empty: bool
    ghost var nodes: seq<ReaderNode>

    ghost predicate Valid()
      reads this, nodes`next
    {
      Threaded(nodes) && readerQueue == NodeAt(nodes, 0) && (empty <==> nodes == [])
    }

    ghost function Queue(): (q: seq<Reader>)
      reads this, nodes
    {
      Views(nodes)
    }

    constructor ()
      ensures Valid() && Queue() == [] && nodes == []
    {
      readerQueue, empty, nodes := null, true, [];
    }

    /** The walk of bgpstream_reader_mgr_sorted_insert. */
    method Scan(r: ReaderNode) returns (previous: ReaderNode?, it: ReaderNode?, ghost i: nat)
      requires Valid() && nodes != []
      ensures i <= |nodes| && it == NodeAt(nodes, i) && previous == nodes[if i == 0 then 0 else i - 1]
      ensures NoneStops(Queue(), r.View(), i) && (i == |nodes| || StopsAt(r.View(), Queue()[i]))
    {
      previous, it := readerQueue, readerQueue;
      i := 0;
      while it != null
        invariant i <= |nodes| && it == NodeAt(nodes, i) && previous == nodes[if i == 0 then 0 else i - 1]
        invariant NoneStops(Queue(), r.View(), i)
        decreases |nodes| - i
      {
        if r.recordTime == it.recordTime {
          if it.input.filetype == "updates" && r.input.filetype == "ribs" {
            return;
          }
        } else if r.recordTime < it.recordTime {
          return;
        }
        assert it.next == NodeAt(nodes, i + 1);
        previous, it, i := it, it.next, i + 1;
      }
    }

    method Link(r: ReaderNode, previous: ReaderNode?, it: ReaderNode?, ghost i: nat)
      requires Valid() && r !in nodes && nodes != [] && i <= |nodes|
      requires it == NodeAt(nodes, i) && previous == nodes[if i == 0 then 0 else i - 1]
      modifies this, nodes`next, r`next
      ensures Valid() && nodes == old(nodes)[..i] + [r] + old(nodes)[i..]
    {
      if it == null {
        previous.next := r;
        r.next := null;
      } else if previous == readerQueue && it == readerQueue {
        r.next := readerQueue;
        readerQueue := r;
      } else {
        previous.next := r;
        r.next := it;
      }
      nodes := nodes[..i] + [r] + nodes[i..];
    }

    method LinkAt(r: ReaderNode, previous: ReaderNode?, it: ReaderNode?, ghost i: nat)
      requires Valid() && r !in nodes && nodes != [] && i <= |nodes|
      requires it == NodeAt(nodes, i) && previous == nodes[if i == 0 then 0 else i - 1]
      modifies this, nodes`next, r`next
      ensures Valid() && Queue() == old(Queue())[..i] + [old(r.View())] + old(Queue())[i..]
      ensures forall n :: n in nodes ==> n == r || n in old(nodes)
    {
      Link(r, previous, it, i);
      assert Views(old(nodes)) == old(Queue());
      SplicedViews(old(nodes), r, i);
    }

    method First(r: ReaderNode)
      requires Valid() && empty
      modifies this, r`next
      ensures Valid() && nodes == [r]
    {
      readerQueue, empty, nodes := r, false, [r];
      r.next := null;
    }

    /** bgpstream_reader_mgr_sorted_insert. */
    method InsertSorted(r: ReaderNode)
      requires Valid() && r !in nodes
      modifies this, nodes`next, r`next
      ensures Valid() && Queue() == SortedInsert(old(Queue()), old(r.View()))
      ensures forall n :: n in nodes ==> n == r || n in old(nodes)
    {
      if empty {
        First(r);
        return;
      }
      var previous, it, i := Scan(r);
      assert unchanged(this) && unchanged(nodes) && Valid();
      InsertsAt(Queue(), r.View(), i);
      LinkAt(r, previous, it, i);
    }

    /** bs_reader_mgr_pop_head. */
    method PopHead() returns (r: ReaderNode)
      requires Valid() && nodes != []
      modifies this, nodes`next
      ensures Valid() && r == old(nodes)[0] && nodes == old(nodes)[1..] && Queue() == old(Queue())[1..]
    {
      r := readerQueue;
      assert r.next == NodeAt(nodes, 1);
      readerQueue := readerQueue.next;
      if readerQueue == null {
        empty := true;
      }
      r.next := null;
      nodes := nodes[1..];
    }

    /** bgpstream_reader_export_record. */
    method ExportRecord(r: ReaderNode, filter: FilterMgr) returns (rec: Record)
      requires r.status != EndOfDump
      modifies r`entry, filter
      ensures rec == Export(old(r.View())) && r.View() == old(r.View()).(entry := None)
      ensures filter.seen == Exported(rec, filter.period, old(filter.seen))
    {
      var entry := r.entry;
      r.entry := None;
      var position := if r.valid == 1 && r.successful == 1 then DumpStart else DumpMiddle;
      var status := match r.status
        case ValidEntry => ValidRecord
        case FilteredDump => FilteredSource
        case EmptyDump => EmptySource
        case CantOpenDump => CorruptedSource
        case CorruptedDump => CorruptedRecord
        case EndOfDump => EmptySource;
      rec := Record(r.input, r.recordTime, entry, position, status);
      filter.Forget(rec);
    }

    /** The head has been read: it leaves if its dump is over, moves back if its time has changed,
        and stays otherwise. */
    method Requeue(previousTime: int)
      requires Valid() && nodes != []
      modifies this, nodes`next
      ensures Valid()
      ensures Queue() == Requeued(old(Queue())[0], previousTime, old(Queue())[1..])
      ensures forall n :: n in nodes ==> n in old(nodes)
    {
      var r := readerQueue;
      assert r.View() == Queue()[0];
      if r.status == EndOfDump {
        var _ := PopHead();
      } else if r.recordTime != previousTime {
        var _ := PopHead();
        InsertSorted(r);
      }
    }

    /** The head's record is exported and its status is valid: read on, and settle the record's
        position if that was the last. */
    method ReadOn(exported: Record, windows: seq<Window>, ghost q: seq<Reader>) returns (rec: Record)
      requires Valid() && q != [] && Queue() == [q[0].(entry := None)] + q[1..]
      requires q[0].status == ValidEntry && exported == Export(q[0])
      modifies this, nodes
      ensures Valid() && (rec, Queue()) == NextRecord(q, windows)
      ensures forall n :: n in nodes ==> n in old(nodes)
    {
      rec := exported;
      var r := readerQueue;
      assert r.View() == Queue()[0];
      var readDiff := r.successful - r.valid;
      r.ReadNewData(windows);
      if r.status == EndOfDump && r.successful - r.valid == readDiff {
        rec := rec.(position := DumpEnd);
      }
      StepAsRead(q, windows);
      HeadReplaced(nodes, q);
      Requeue(exported.time);
    }

    /** What follows the export: reading on, or dropping a reader that is done. */
    method Settle(exported: Record, windows: seq<Window>, ghost q: seq<Reader>) returns (rec: Record)
      requires Valid() && q != [] && Queue() == [q[0].(entry := None)] + q[1..] && exported == Export(q[0])
      modifies this, nodes
      ensures Valid() && (rec, Queue()) == NextRecord(q, windows)
      ensures forall n :: n in nodes ==> n in old(nodes)
    {
      assert readerQueue.View() == Queue()[0];
      if readerQueue.status == ValidEntry {
        rec := ReadOn(exported, windows, q);
      } else {
        rec := exported.(position := DumpEnd);
        StepAsStatus(q, windows);
        var _ := PopHead();
      }
    }

    /** bgpstream_reader_mgr_get_next_record. */
    method GetNextRecord(filter: FilterMgr) returns (rec: Option<Record>)
      requires Valid() && NoneEnded(Queue())
      modifies this, nodes, filter
      ensures Valid() && NoneEnded(Queue())
      ensures old(Queue()) == [] ==> rec == None && Queue() == [] && filter.seen == old(filter.seen)
      ensures old(Queue()) != [] ==>
        && rec.Some? && (rec.value, Queue()) == NextRecord(old(Queue()), filter.windows)
        && filter.seen == Exported(rec.value, filter.period, old(filter.seen))
      ensures forall n :: n in nodes ==> n in old(nodes)
    {
      if empty {
        return None;
      }
      NextRecordNoneEnded(Queue(), filter.windows);
      var out := NextOfHead(filter, Queue());
      rec := Some(out);
    }

    /** The head's record is exported, and the head is moved on. */
    method NextOfHead(filter: FilterMgr, ghost q: seq<Reader>) returns (rec: Record)
      requires Valid() && q == Queue() && q != [] && q[0].status != EndOfDump
      modifies this, nodes, filter
      ensures Valid() && (rec, Queue()) == NextRecord(q, filter.windows)
      ensures filter.seen == Exported(rec, filter.period, old(filter.seen))
      ensures forall n :: n in nodes ==> n in old(nodes)
    {
      StepExported(q, filter, filter.seen);
      assert readerQueue.View() == q[0];
      var exported := ExportRecord(readerQueue, filter);
      HeadReplaced(nodes, q);
      rec := Settle(exported, filter.windows, q);
    }

    /** A reader for an input that passes the period check goes behind the others. */
    method CreateIfTaken(rs: seq<ReaderNode>, x: Input, dumps: Input -> Dump, filter: FilterMgr)
      returns (rs': seq<ReaderNode>)
      requires Different(rs)
      modifies filter
      ensures rs <= rs' && Different(rs') && forall a :: |rs| <= a < |rs'| ==> fresh(rs'[a])
      ensures var (taken, seen) := PeriodCheck(x, filter.period, old(filter.seen));
        && filter.seen == seen
        && Views(rs') == if taken then old(Views(rs)) + [Create(x, dumps(x))] else old(Views(rs))
    {
      rs' := rs;
      var ok := filter.Check(x);
      if ok {
        var r := new ReaderNode(x, dumps(x));
        rs' := rs + [r];
        ViewsNext(rs, r);
      }
    }

    /** The first pass of bgpstream_reader_mgr_add: a reader for each input of the batch that is
        taken. */
    method CreateReaders(batch: InputNode?, ghost taken: seq<InputNode>, dumps: Input -> Dump, filter: FilterMgr)
      returns (rs: seq<ReaderNode>)
      requires Chained(taken) && batch == At(taken, 0)
      modifies filter
      ensures forall i :: 0 <= i < |rs| ==> fresh(rs[i])
      ensures Different(rs)
      ensures var (xs, seen) := Accept(InputsOf(taken), filter.period, old(filter.seen));
        Views(rs) == Created(xs, dumps) && filter.seen == seen
    {
      rs := [];
      var it := batch;
      ghost var i := 0;
      ghost var xs: seq<Input> := [];
      ghost var q, seen := InputsOf(taken), filter.seen;
      assert q[..0] == [];
      while it != null
        invariant i <= |taken| && it == At(taken, i)
        invariant Different(rs) && forall a :: 0 <= a < |rs| ==> fresh(rs[a])
        invariant Accept(q[..i], filter.period, seen) == (xs, filter.seen) && Views(rs) == Created(xs, dumps)
        decreases |taken| - i
      {
        AcceptNext(q, i, filter.period, seen);
        CreatedNext(xs, q[i], dumps);
        xs := Accept(q[..i + 1], filter.period, seen).0;
        rs := CreateIfTaken(rs, it.input, dumps, filter);
        assert Chained(taken) && it.next == At(taken, i + 1);
        it, i := it.next, i + 1;
      }
      assert q[..i] == q;
    }

    method ReadFirst(r: ReaderNode, windows: seq<Window>)
      requires Valid() && r !in nodes
      modifies this, nodes`next, r
      ensures Valid() && Queue() == SortedInsert(old(Queue()), Readers.ReadNewData(old(r.View()), windows))
      ensures forall k :: 0 <= k < |nodes| ==> nodes[k] == r || nodes[k] in old(nodes)
    {
      r.ReadNewData(windows);
      assert Queue() == old(Queue());
      InsertSorted(r);
    }

    /** The second pass: the first read of each new reader, and its place in the queue. */
    method ReadAndQueue(rs: seq<ReaderNode>, windows: seq<Window>)
      requires Valid() && (forall r :: r in rs ==> r !in nodes) && Different(rs)
      modifies this, nodes, rs
      ensures Valid() && Queue() == AddReaders(old(Queue()), old(Views(rs)), windows)
      ensures forall n :: n in nodes ==> n in old(nodes) || n in rs
    {
      ghost var views, added := Views(rs), AddReaders(Queue(), Views(rs), windows);
      var i := 0;
      assert views[0..] == views;
      while i < |rs|
        invariant Valid() && i <= |rs|
        invariant forall k :: 0 <= k < |nodes| ==> nodes[k] in old(nodes) || nodes[k] in rs
        invariant forall j :: i <= j < |rs| ==> rs[j] !in nodes && rs[j].View() == views[j]
        invariant AddReaders(Queue(), views[i..], windows) == added
      {
        ReadFirst(rs[i], windows);
        assert views[i..][1..] == views[i + 1..];
        i := i + 1;
      }
    }

    /** bgpstream_reader_mgr_add. */
    method Add(batch: InputNode?, ghost taken: seq<InputNode>, dumps: Input -> Dump, filter: FilterMgr)
      requires Valid() && Chained(taken) && batch == At(taken, 0)
      modifies this, nodes, filter
      ensures Valid()
      ensures var (xs, seen) := Accept(InputsOf(taken), filter.period, old(filter.seen));
        Queue() == AddReaders(old(Queue()), Created(xs, dumps), filter.windows) && filter.seen == seen
      ensures forall n :: n in nodes ==> n in old(nodes) || fresh(n)
    {
      var rs := CreateReaders(batch, taken, dumps, filter);
      assert unchanged(this) && unchanged(nodes) && Valid();
      assert Queue() == old(Queue());
      ReadAndQueue(rs, filter.windows);
    }

    /** Adding a batch to an empty queue. */
    method Refill(batch: InputNode?, ghost taken: seq<InputNode>, dumps: Input -> Dump, filter: FilterMgr)
      requires Valid() && nodes == [] && Chained(taken) && batch == At(taken, 0)
      modifies this, filter
      ensures Valid()
      ensures Queue()
        == AddReaders([], Created(Accept(InputsOf(taken), filter.period, old(filter.seen)).0, dumps), filter.windows)
      ensures filter.seen == Accept(InputsOf(taken), filter.period, old(filter.seen)).1
      ensures forall k :: 0 <= k < |nodes| ==> fresh(nodes[k])
    {
      assert Queue() == [];
      Add(batch, taken, dumps, filter);
      assert forall k :: 0 <= k < |nodes| ==> nodes[k] in nodes;
    }
  }
}
