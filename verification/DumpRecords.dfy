/** What one dump contributes, read off the dump itself: the entries that pass the time filter
    with their place in the dump, and one status record when the dump cannot be opened, is
    corrupted, or has nothing to give. The readers' counters and look-ahead compute the same. */
module DumpRecords {
  import opened Sequences
  import opened Wrappers
  import opened Inputs
  import opened Readers

  /** The entries before the first corrupted read. */
  function Entries(items: seq<Item>): seq<Entry>
  {
    if items == [] || items[0].Corrupted? then []
    else (if items[0].Read? then [items[0].entry] else []) + Entries(items[1..])
  }

  predicate EndsCorrupted(items: seq<Item>)
  {
    Corrupted in items
  }

  /** The position mark of entry i of es: END for the last entry of a dump that ends cleanly,
      otherwise START for the first entry and MIDDLE for any other. */
  function PositionOf(es: seq<Entry>, i: nat, corrupted: bool): Position
  {
    if i + 1 == |es| && !corrupted then DumpEnd else if i == 0 then DumpStart else DumpMiddle
  }

  /** The records of entries i, i + 1, ... */
  function Passing(x: Input, es: seq<Entry>, i: nat, corrupted: bool, windows: seq<Window>): seq<Record>
    requires i <= |es|
    decreases |es| - i
  {
    if i == |es| then []
    else
      (if Passes(windows, es[i])
       then [Record(x, es[i].time, Some(es[i]), PositionOf(es, i, corrupted), ValidRecord)] else [])
      + Passing(x, es, i + 1, corrupted, windows)
  }

  function StatusRecord(x: Input, time: int, status: RecordStatus): Record
  {
    Record(x, time, None, DumpEnd, status)
  }

  /** The time of the last passing entry before entry i, or the dump's own time. */
  function LastTime(x: Input, es: seq<Entry>, i: nat, windows: seq<Window>): int
    requires i <= |es|
  {
    if i == 0 then x.filetime
    else if Passes(windows, es[i - 1]) then es[i - 1].time else LastTime(x, es, i - 1, windows)
  }

  /** Everything a dump contributes. */
  function Contribution(x: Input, dump: Dump, windows: seq<Window>): seq<Record>
  {
    match dump
    case Unopenable => [StatusRecord(x, x.filetime, CorruptedSource)]
    case Opened(items) =>
      var es := Entries(items);
      Passing(x, es, 0, EndsCorrupted(items), windows)
      + (if EndsCorrupted(items) then [StatusRecord(x, LastTime(x, es, |es|, windows), CorruptedRecord)]
         else if es == [] then [StatusRecord(x, x.filetime, EmptySource)]
         else if forall e :: e in es ==> !Passes(windows, e) then [StatusRecord(x, x.filetime, FilteredSource)]
         else [])
  }

  /** r is reading a dump whose entries are es; it has read k of them, v of which passed. */
  ghost predicate AtEntry(r: Reader, x: Input, es: seq<Entry>, k: nat, corrupted: bool, windows: seq<Window>)
  {
    && r.input == x && r.dump.Opened? && k <= |es|
    && Entries(r.dump.items) == es[k..] && EndsCorrupted(r.dump.items) == corrupted
    && r.successful == k && r.valid <= k && (r.valid == 0 <==> forall i :: 0 <= i < k ==> !Passes(windows, es[i]))
    && r.recordTime == LastTime(x, es, k, windows)
  }

  /** Where the next read stops: at the first entry from k on that passes, or after the last. */
  function Stop(es: seq<Entry>, k: nat, windows: seq<Window>): (n: nat)
    requires k <= |es|
    ensures k <= n <= |es|
    ensures forall i :: k <= i < n ==> !Passes(windows, es[i])
    ensures n < |es| ==> Passes(windows, es[n])
    decreases |es| - k
  {
    if k == |es| || Passes(windows, es[k]) then k else Stop(es, k + 1, windows)
  }

  lemma {:induction false} SkipTime(x: Input, es: seq<Entry>, k: nat, n: nat, windows: seq<Window>)
    requires k <= n <= |es| && forall i :: k <= i < n ==> !Passes(windows, es[i])
    ensures LastTime(x, es, n, windows) == LastTime(x, es, k, windows)
  {
    if k < n {
      SkipTime(x, es, k, n - 1, windows);
    }
  }

  lemma {:induction false} SkipPassing(x: Input, es: seq<Entry>, k: nat, n: nat, corrupted: bool, windows: seq<Window>)
    requires k <= n <= |es| && forall i :: k <= i < n ==> !Passes(windows, es[i])
    ensures Passing(x, es, k, corrupted, windows) == Passing(x, es, n, corrupted, windows)
    decreases n - k
  {
    if k < n {
      SkipPassing(x, es, k + 1, n, corrupted, windows);
    }
  }

  /** r' is r after one read_new_data, in terms of the dump's entries. */
  ghost predicate ReadResult(r: Reader, r': Reader, x: Input, es: seq<Entry>, k: nat, corrupted: bool,
      windows: seq<Window>)
    requires k <= |es|
  {
    var n := Stop(es, k, windows);
    if n < |es| then
      && AtEntry(r', x, es, n + 1, corrupted, windows) && r'.status == ValidEntry
      && r'.entry == Some(es[n]) && r'.valid == r.valid + 1
    else
      && r'.input == x && r'.entry == None && r'.recordTime == r.recordTime
      && r'.successful == |es| && r'.valid == r.valid
      && r'.status == if corrupted then CorruptedDump else if |es| == 0 then EmptyDump
                      else if r.valid == 0 then FilteredDump else EndOfDump
  }

  /** The next unread item is an entry: it is entry k. */
  lemma NextIsEntry(r: Reader, x: Input, es: seq<Entry>, k: nat, corrupted: bool, windows: seq<Window>)
    requires AtEntry(r, x, es, k, corrupted, windows) && r.dump.items != [] && r.dump.items[0].Read?
    ensures k < |es| && es[k] == r.dump.items[0].entry
    ensures Entries(r.dump.items[1..]) == es[k + 1..] && EndsCorrupted(r.dump.items[1..]) == corrupted
  {
    var items := r.dump.items;
    assert items == [items[0]] + items[1..];
    assert es[k..] == [items[0].entry] + Entries(items[1..]);
    assert es[k..][0] == es[k] && es[k..][1..] == es[k + 1..];
  }

  lemma Accepted(r: Reader, x: Input, es: seq<Entry>, k: nat, corrupted: bool, windows: seq<Window>)
    requires AtEntry(r, x, es, k, corrupted, windows) && r.status == ValidEntry
    requires r.dump.items != [] && r.dump.items[0].Read? && Passes(windows, r.dump.items[0].entry)
    ensures ReadResult(r, ReadNewData(r, windows), x, es, k, corrupted, windows)
  {
    NextIsEntry(r, x, es, k, corrupted, windows);
  }

  lemma NoMore(r: Reader, x: Input, es: seq<Entry>, k: nat, corrupted: bool, windows: seq<Window>)
    requires AtEntry(r, x, es, k, corrupted, windows) && r.status == ValidEntry
    requires r.dump.items == [] || r.dump.items[0].Corrupted?
    ensures ReadResult(r, ReadNewData(r, windows), x, es, k, corrupted, windows)
  {
    assert es[k..] == [];
    assert r.dump.items != [] ==> r.dump.items[0] in r.dump.items;
  }

  /** A blank read, or an entry that does not pass, changes nothing that counts. */
  lemma Skipped(r: Reader, x: Input, es: seq<Entry>, k: nat, corrupted: bool, windows: seq<Window>)
    returns (r': Reader, k': nat)
    requires AtEntry(r, x, es, k, corrupted, windows) && r.status == ValidEntry
    requires r.dump.items != []
      && (r.dump.items[0].Blank? || (r.dump.items[0].Read? && !Passes(windows, r.dump.items[0].entry)))
    ensures AtEntry(r', x, es, k', corrupted, windows) && r'.status == ValidEntry && k <= k' <= |es|
    ensures ReadNewData(r, windows) == ReadNewData(r', windows) && Remaining(r'.dump) < Remaining(r.dump)
    ensures Stop(es, k', windows) == Stop(es, k, windows) && r'.valid == r.valid && r'.recordTime == r.recordTime
  {
    var rest := r.(dump := Opened(r.dump.items[1..]), entry := None);
    if r.dump.items[0].Blank? {
      assert r.dump.items == [Blank] + r.dump.items[1..];
      r', k' := rest, k;
    } else {
      NextIsEntry(r, x, es, k, corrupted, windows);
      r', k' := rest.(successful := r.successful + 1), k + 1;
    }
  }

  lemma {:induction false} ReadStops(r: Reader, x: Input, es: seq<Entry>, k: nat, corrupted: bool, windows: seq<Window>)
    requires AtEntry(r, x, es, k, corrupted, windows) && r.status == ValidEntry
    ensures ReadResult(r, ReadNewData(r, windows), x, es, k, corrupted, windows)
    decreases Remaining(r.dump)
  {
    if r.dump.items == [] || r.dump.items[0].Corrupted? {
      NoMore(r, x, es, k, corrupted, windows);
    } else if r.dump.items[0].Read? && Passes(windows, r.dump.items[0].entry) {
      Accepted(r, x, es, k, corrupted, windows);
    } else {
      var r', k' := Skipped(r, x, es, k, corrupted, windows);
      ReadStops(r', x, es, k', corrupted, windows);
    }
  }

  /** What follows the valid records of a dump with at least one. */
  function Tail(x: Input, es: seq<Entry>, corrupted: bool, windows: seq<Window>): seq<Record>
  {
    if corrupted then [StatusRecord(x, LastTime(x, es, |es|, windows), CorruptedRecord)] else []
  }

  /** A reader that has just accepted entry k - 1. */
  ghost predicate HoldsEntry(r: Reader, x: Input, es: seq<Entry>, k: nat, corrupted: bool, windows: seq<Window>)
  {
    && AtEntry(r, x, es, k, corrupted, windows) && r.status == ValidEntry && k > 0
    && r.entry == Some(es[k - 1]) && Passes(windows, es[k - 1]) && r.valid > 0
  }

  /** Its record carries the entry, with the position mark the dump itself gives it. */
  lemma RecordIsEntry(r: Reader, x: Input, es: seq<Entry>, k: nat, corrupted: bool, windows: seq<Window>)
    requires HoldsEntry(r, x, es, k, corrupted, windows)
    ensures RecordOf(r, windows)
      == Record(x, es[k - 1].time, Some(es[k - 1]), PositionOf(es, k - 1, corrupted), ValidRecord)
    ensures Advance(r, windows) == None <==> Stop(es, k, windows) == |es| && !corrupted
  {
    ReadStops(r.(entry := None), x, es, k, corrupted, windows);
  }

  /** A reader that is done gives its status record and nothing more. */
  lemma AloneStatus(r: Reader, windows: seq<Window>)
    requires r.status != ValidEntry && r.entry == None
    ensures Alone(r, windows) == [StatusRecord(r.input, r.recordTime, StatusOf(r.status))]
  {
  }

  lemma PassingFrom(x: Input, es: seq<Entry>, k: nat, n: nat, corrupted: bool, windows: seq<Window>)
    requires 0 < k <= n <= |es| && Passes(windows, es[k - 1]) && forall i :: k <= i < n ==> !Passes(windows, es[i])
    ensures Passing(x, es, k - 1, corrupted, windows)
      == [Record(x, es[k - 1].time, Some(es[k - 1]), PositionOf(es, k - 1, corrupted), ValidRecord)]
         + Passing(x, es, n, corrupted, windows)
  {
    SkipPassing(x, es, k, n, corrupted, windows);
  }

  lemma AloneUnfolded(r: Reader, windows: seq<Window>)
    ensures Alone(r, windows) ==
      [RecordOf(r, windows)] + if Advance(r, windows).Some? then Alone(Advance(r, windows).value, windows) else []
  {
  }

  /** Advancing gives a reader holding the next entry that passes, or one with a corrupted dump,
      or none. */
  lemma AdvanceHolds(r: Reader, x: Input, es: seq<Entry>, k: nat, corrupted: bool, windows: seq<Window>)
    requires HoldsEntry(r, x, es, k, corrupted, windows)
    ensures var n, next := Stop(es, k, windows), Advance(r, windows);
      if n < |es| then next.Some? && HoldsEntry(next.value, x, es, n + 1, corrupted, windows)
      else if corrupted then
        next.Some? && next.value.status == CorruptedDump && next.value.entry == None
        && next.value.input == x && next.value.recordTime == LastTime(x, es, |es|, windows)
      else next == None
  {
    ReadStops(r.(entry := None), x, es, k, corrupted, windows);
    SkipTime(x, es, k, Stop(es, k, windows), windows);
  }

  /** The record of the entry held, then whatever the advanced reader gives. */
  lemma AloneSplits(r: Reader, x: Input, es: seq<Entry>, k: nat, corrupted: bool, windows: seq<Window>,
      rest: seq<Record>)
    requires HoldsEntry(r, x, es, k, corrupted, windows)
    requires rest == (if Advance(r, windows).Some? then Alone(Advance(r, windows).value, windows) else [])
    requires rest == Passing(x, es, Stop(es, k, windows), corrupted, windows) + Tail(x, es, corrupted, windows)
    ensures Alone(r, windows) == Passing(x, es, k - 1, corrupted, windows) + Tail(x, es, corrupted, windows)
  {
    RecordIsEntry(r, x, es, k, corrupted, windows);
    PassingFrom(x, es, k, Stop(es, k, windows), corrupted, windows);
    AloneUnfolded(r, windows);
    Assoc([RecordOf(r, windows)], Passing(x, es, Stop(es, k, windows), corrupted, windows),
      Tail(x, es, corrupted, windows));
  }

  lemma {:induction false} AloneFromEntry(r: Reader, x: Input, es: seq<Entry>, k: nat, corrupted: bool,
      windows: seq<Window>)
    requires HoldsEntry(r, x, es, k, corrupted, windows)
    ensures Alone(r, windows) == Passing(x, es, k - 1, corrupted, windows) + Tail(x, es, corrupted, windows)
    decreases |es| - k
  {
    AdvanceHolds(r, x, es, k, corrupted, windows);
    var n, next := Stop(es, k, windows), Advance(r, windows);
    if n < |es| {
      AloneFromEntry(next.value, x, es, n + 1, corrupted, windows);
      AloneSplits(r, x, es, k, corrupted, windows, Alone(next.value, windows));
    } else {
      AloneLast(r, x, es, k, corrupted, windows);
    }
  }

  /** Nothing more passes: a status record follows exactly when the dump is corrupted. */
  lemma AloneLast(r: Reader, x: Input, es: seq<Entry>, k: nat, corrupted: bool, windows: seq<Window>)
    requires HoldsEntry(r, x, es, k, corrupted, windows) && Stop(es, k, windows) == |es|
    ensures Alone(r, windows) == Passing(x, es, k - 1, corrupted, windows) + Tail(x, es, corrupted, windows)
  {
    AdvanceHolds(r, x, es, k, corrupted, windows);
    var next := Advance(r, windows);
    if corrupted {
      AloneStatus(next.value, windows);
      AloneSplits(r, x, es, k, corrupted, windows, Alone(next.value, windows));
    } else {
      AloneSplits(r, x, es, k, corrupted, windows, []);
    }
  }

  /** The first read found an entry that passes. */
  lemma FirstPasses(r: Reader, x: Input, es: seq<Entry>, n: nat, corrupted: bool, windows: seq<Window>)
    requires n < |es| && HoldsEntry(r, x, es, n + 1, corrupted, windows) && Stop(es, 0, windows) == n
    ensures Alone(r, windows) == Passing(x, es, 0, corrupted, windows) + Tail(x, es, corrupted, windows)
    ensures es != [] && !(forall e :: e in es ==> !Passes(windows, e))
  {
    SkipPassing(x, es, 0, n, corrupted, windows);
    AloneFromEntry(r, x, es, n + 1, corrupted, windows);
    assert es[n] in es;
  }

  /** The first read found none. */
  lemma NothingPasses(r: Reader, x: Input, es: seq<Entry>, corrupted: bool, windows: seq<Window>)
    requires Stop(es, 0, windows) == |es| && r.input == x && r.entry == None && r.recordTime == x.filetime
    requires r.status == if corrupted then CorruptedDump else if |es| == 0 then EmptyDump else FilteredDump
    ensures Passing(x, es, 0, corrupted, windows) == [] && (forall e :: e in es ==> !Passes(windows, e))
    ensures LastTime(x, es, |es|, windows) == x.filetime
    ensures Alone(r, windows) == [StatusRecord(x, x.filetime, StatusOf(r.status))]
  {
    SkipPassing(x, es, 0, |es|, corrupted, windows);
    SkipTime(x, es, 0, |es|, windows);
    AloneStatus(r, windows);
    NonePass(es, windows);
  }

  /** A reader gives exactly what its dump contributes: its time-filtered entries in order,
      each with its exact position mark, and one status record exactly when the dump cannot be
      opened, is corrupted, or has no entry that passes. */
  lemma AloneIsContribution(x: Input, dump: Dump, windows: seq<Window>)
    ensures Alone(ReadNewData(Create(x, dump), windows), windows) == Contribution(x, dump, windows)
    ensures ReadNewData(Create(x, dump), windows).status != EndOfDump
  {
    if dump.Unopenable? {
      AloneStatus(ReadNewData(Create(x, dump), windows), windows);
    } else {
      OpenedContribution(x, dump, windows);
    }
  }

  lemma OpenedContribution(x: Input, dump: Dump, windows: seq<Window>)
    requires dump.Opened?
    ensures Alone(ReadNewData(Create(x, dump), windows), windows) == Contribution(x, dump, windows)
    ensures ReadNewData(Create(x, dump), windows).status != EndOfDump
  {
    var r := ReadNewData(Create(x, dump), windows);
    var es, corrupted := Entries(dump.items), EndsCorrupted(dump.items);
    ReadStops(Create(x, dump), x, es, 0, corrupted, windows);
    if Stop(es, 0, windows) < |es| {
      FirstPasses(r, x, es, Stop(es, 0, windows), corrupted, windows);
      SomePass(x, dump, windows);
    } else {
      NothingPasses(r, x, es, corrupted, windows);
      NoPass(x, dump, windows, r.status);
    }
  }

  lemma SomePass(x: Input, dump: Dump, windows: seq<Window>)
    requires dump.Opened? && exists e :: e in Entries(dump.items) && Passes(windows, e)
    ensures var es, corrupted := Entries(dump.items), EndsCorrupted(dump.items);
      Contribution(x, dump, windows) == Passing(x, es, 0, corrupted, windows) + Tail(x, es, corrupted, windows)
  {
  }

  lemma NoPass(x: Input, dump: Dump, windows: seq<Window>, status: Status)
    requires dump.Opened? && forall e :: e in Entries(dump.items) ==> !Passes(windows, e)
    requires var es, corrupted := Entries(dump.items), EndsCorrupted(dump.items);
      && Passing(x, es, 0, corrupted, windows) == [] && LastTime(x, es, |es|, windows) == x.filetime
      && status == if corrupted then CorruptedDump else if es == [] then EmptyDump else FilteredDump
    ensures Contribution(x, dump, windows) == [StatusRecord(x, x.filetime, StatusOf(status))]
  {
  }

  lemma NonePass(es: seq<Entry>, windows: seq<Window>)
    requires forall i :: 0 <= i < |es| ==> !Passes(windows, es[i])
    ensures forall e :: e in es ==> !Passes(windows, e)
  {
  }

  lemma {:induction false} EndComesLast(x: Input, es: seq<Entry>, i: nat, corrupted: bool, windows: seq<Window>)
    requires i <= |es|
    ensures var p := Passing(x, es, i, corrupted, windows);
      && (forall j :: 0 <= j < |p| && p[j].position == DumpEnd ==> j + 1 == |p| && !corrupted)
      && (p != [] ==> exists e :: e in es && Passes(windows, e))
    decreases |es| - i
  {
    if i < |es| {
      EndComesLast(x, es, i + 1, corrupted, windows);
      assert es[i] in es;
      if i + 1 == |es| {
        assert Passing(x, es, i + 1, corrupted, windows) == [];
      }
    }
  }

  /** A dump has at most one END mark, on its last record, and every status record carries it. */
  lemma OneEndPerDump(x: Input, dump: Dump, windows: seq<Window>)
    ensures var c := Contribution(x, dump, windows);
      && (forall j :: 0 <= j < |c| && c[j].position == DumpEnd ==> j + 1 == |c|)
      && (forall j :: 0 <= j < |c| && c[j].status != ValidRecord ==> c[j].position == DumpEnd)
  {
    if dump.Opened? {
      EndComesLast(x, Entries(dump.items), 0, EndsCorrupted(dump.items), windows);
      AllValid(x, Entries(dump.items), 0, EndsCorrupted(dump.items), windows);
    }
  }

  lemma {:induction false} AllValid(x: Input, es: seq<Entry>, i: nat, corrupted: bool, windows: seq<Window>)
    requires i <= |es|
    ensures forall r :: r in Passing(x, es, i, corrupted, windows) ==> r.status == ValidRecord
    decreases |es| - i
  {
    if i < |es| {
      AllValid(x, es, i + 1, corrupted, windows);
    }
  }
}
