/** The readers of a batch as values: what reading, exporting and re-queueing do, and the whole
    merge of a batch as a sequence of records. */
module Readers {
  import opened Inputs
  import opened Wrappers

  /** One MRT entry: its time and whatever else it carries. */
  datatype Entry = Entry(time: int, body: nat)

  /** What successive reads of an open dump give: an entry, nothing, or a corrupted read. The
      dump ends after the last item. */
  datatype Item = Read(entry: Entry) | Blank | Corrupted

  datatype Dump = Unopenable | Opened(items: seq<Item>)

  datatype Status = ValidEntry | FilteredDump | EmptyDump | CantOpenDump | CorruptedDump | EndOfDump

  /** The fields of a bgpstream_reader_t, with what is still unread of its dump. */
  datatype Reader = Reader(input: Input, recordTime: int, entry: Option<Entry>,
                           successful: nat, valid: nat, status: Status, dump: Dump)

  /** A time filter interval; an end of 0 means forever. */
  datatype Window = Window(begin: int, end: int)

  const FOREVER: int := 0

  predicate Admits(w: Window, e: Entry)
  {
    e.time >= w.begin && (w.end == FOREVER || e.time <= w.end)
  }

  /** bgpstream_reader_filter_bd_entry; no windows means no time filtering. */
  predicate Passes(windows: seq<Window>, e: Entry)
  {
    windows == [] || exists i :: 0 <= i < |windows| && Admits(windows[i], e)
  }

  /** bgpstream_reader_create. */
  function Create(x: Input, dump: Dump): Reader
  {
    Reader(x, x.filetime, None, 0, 0, ValidEntry, dump)
  }

  function Remaining(d: Dump): nat
  {
    if d.Unopenable? then 0 else |d.items|
  }

  /** bgpstream_reader_read_new_data: read until an entry passes the filter, the dump is
      corrupted, or it ends. */
  function ReadNewData(r: Reader, windows: seq<Window>): Reader
    decreases Remaining(r.dump)
  {
    if r.status != ValidEntry then r
    else if r.dump.Unopenable? then r.(status := CantOpenDump, entry := None)
    else if r.dump.items == [] then
      r.(entry := None,
         status := if r.successful == 0 then EmptyDump else if r.valid == 0 then FilteredDump else EndOfDump)
    else
      var rest := r.(dump := Opened(r.dump.items[1..]));
      match r.dump.items[0]
      case Read(e) =>
        if Passes(windows, e) then
          rest.(successful := r.successful + 1, valid := r.valid + 1, recordTime := e.time, entry := Some(e))
        else ReadNewData(rest.(successful := r.successful + 1, entry := None), windows)
      case Corrupted => rest.(status := CorruptedDump, entry := None)
      case Blank => ReadNewData(rest.(entry := None), windows)
  }

  datatype Position = DumpStart | DumpMiddle | DumpEnd
  datatype RecordStatus = ValidRecord | FilteredSource | EmptySource | CorruptedSource | CorruptedRecord

  /** A record, with the input its dump came from. */
  datatype Record = Record(input: Input, time: int, entry: Option<Entry>, position: Position, status: RecordStatus)

  function StatusOf(s: Status): RecordStatus
  {
    match s
    case ValidEntry => ValidRecord
    case FilteredDump => FilteredSource
    case EmptyDump => EmptySource
    case CantOpenDump => CorruptedSource
    case CorruptedDump => CorruptedRecord
    case EndOfDump => EmptySource
  }

  /** bgpstream_reader_export_record. */
  function Export(r: Reader): Record
  {
    Record(r.input, r.recordTime, r.entry,
           if r.valid == 1 && r.successful == 1 then DumpStart else DumpMiddle, StatusOf(r.status))
  }

  /** The queue walk of bgpstream_reader_mgr_sorted_insert stops in front of a. */
  predicate StopsAt(r: Reader, a: Reader)
  {
    r.recordTime < a.recordTime
    || (r.recordTime == a.recordTime && a.input.filetype == "updates" && r.input.filetype == "ribs")
  }

  function SortedInsert(q: seq<Reader>, r: Reader): seq<Reader>
  {
    if q == [] || StopsAt(r, q[0]) then [r] + q else [q[0]] + SortedInsert(q[1..], r)
  }

  function Discarded(r: Reader): int
  {
    r.successful - r.valid
  }

  /** The reader after its current record was taken: none if it is destroyed. */
  function Advance(r: Reader, windows: seq<Window>): Option<Reader>
  {
    if r.status == ValidEntry then
      var r' := ReadNewData(r.(entry := None), windows);
      if r'.status == EndOfDump then None else Some(r')
    else None
  }

  /** The record the reader at the head causes: its dump position is settled only by the read
      that follows. */
  function RecordOf(r: Reader, windows: seq<Window>): Record
  {
    var rec := Export(r);
    if r.status == ValidEntry then
      var r' := ReadNewData(r.(entry := None), windows);
      if r'.status == EndOfDump && Discarded(r') == Discarded(r) then rec.(position := DumpEnd) else rec
    else rec.(position := DumpEnd)
  }

  /** bgpstream_reader_mgr_get_next_record on a queue that is not empty. */
  function NextRecord(q: seq<Reader>, windows: seq<Window>): (Record, seq<Reader>)
    requires q != []
  {
    var rec := RecordOf(q[0], windows);
    match Advance(q[0], windows)
    case None => (rec, q[1..])
    case Some(r) => (rec, if r.recordTime != rec.time then SortedInsert(q[1..], r) else [r] + q[1..])
  }

  // ---------- termination of the merge ----------

  /** How many more records a reader can still cause. */
  function Weight(r: Reader): nat
  {
    Remaining(r.dump) + (if r.status == ValidEntry then 2 else 1)
  }

  function TotalWeight(q: seq<Reader>): nat
  {
    if q == [] then 0 else Weight(q[0]) + TotalWeight(q[1..])
  }

  lemma {:induction false} ReadingProgresses(r: Reader, windows: seq<Window>)
    requires r.status == ValidEntry
    ensures Weight(ReadNewData(r, windows)) < Weight(r)
    ensures ReadNewData(r, windows).input == r.input
    decreases Remaining(r.dump)
  {
    if r.dump.Opened? && r.dump.items != [] {
      var rest := r.(dump := Opened(r.dump.items[1..]), entry := None);
      match r.dump.items[0]
      case Read(e) =>
        if !Passes(windows, e) {
          ReadingProgresses(rest.(successful := r.successful + 1), windows);
        }
      case Corrupted =>
      case Blank => ReadingProgresses(rest, windows);
    }
  }

  lemma {:induction false} InsertWeight(q: seq<Reader>, r: Reader)
    ensures TotalWeight(SortedInsert(q, r)) == TotalWeight(q) + Weight(r)
    ensures |SortedInsert(q, r)| == |q| + 1
  {
    if q != [] && !StopsAt(r, q[0]) {
      InsertWeight(q[1..], r);
    }
  }

  lemma StepProgresses(q: seq<Reader>, windows: seq<Window>)
    requires q != []
    ensures TotalWeight(NextRecord(q, windows).1) < TotalWeight(q)
  {
    AdvanceProgresses(q[0], windows);
    match Advance(q[0], windows)
    case None =>
    case Some(r) =>
      InsertWeight(q[1..], r);
      assert ([r] + q[1..])[1..] == q[1..];
  }

  lemma AdvanceProgresses(r: Reader, windows: seq<Window>)
    ensures var n := Advance(r, windows); n.Some? ==> Weight(n.value) < Weight(r) && n.value.input == r.input
  {
    if r.status == ValidEntry {
      ReadingProgresses(r.(entry := None), windows);
    }
  }

  /** The records of one reader on its own. */
  function Alone(r: Reader, windows: seq<Window>): seq<Record>
    decreases Weight(r)
  {
    AdvanceProgresses(r, windows);
    [RecordOf(r, windows)] + (match Advance(r, windows) case None => [] case Some(n) => Alone(n, windows))
  }

  /** All records of a batch, in the order the merge returns them. */
  function Drain(q: seq<Reader>, windows: seq<Window>): seq<Record>
    decreases TotalWeight(q)
  {
    if q == [] then []
    else
      StepProgresses(q, windows);
      var (rec, q') := NextRecord(q, windows);
      [rec] + Drain(q', windows)
  }

  /** The readers of a batch after bgpstream_reader_mgr_add has read the first record of each
      and queued it. */
  function AddReaders(q: seq<Reader>, rs: seq<Reader>, windows: seq<Window>): seq<Reader>
    decreases |rs|
  {
    if rs == [] then q else AddReaders(SortedInsert(q, ReadNewData(rs[0], windows)), rs[1..], windows)
  }
}
