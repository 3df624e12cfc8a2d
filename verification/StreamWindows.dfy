/** Which entries of the dumps a run returns: those whose times lie in a window, windows taken with
    both their ends. */
module StreamWindows {
  import opened Sequences
  import opened Wrappers
  import opened Inputs
  import opened Readers
  import opened Merging
  import opened DumpRecords
  import opened Stream
  import opened StreamThinning
  import opened Bgpstream

  /** The entries of a dump that are read before its first corruption and lie in a window; a window
      whose end is 0 has none, and without windows there is no filtering. */
  ghost function Admitted(items: seq<Item>, windows: seq<Window>): seq<Entry>
  {
    if items == [] || items[0].Corrupted? then []
    else
      var rest := Admitted(items[1..], windows);
      if items[0].Blank? then rest
      else
        var e := items[0].entry;
        if windows == [] || exists w :: w in windows && w.begin <= e.time && (w.end == 0 || e.time <= w.end)
        then [e] + rest else rest
  }

  /** The entries that valid records carry. */
  function ValidEntries(recs: seq<Record>): seq<Entry>
  {
    if recs == [] then []
    else if recs[0].status == ValidRecord && recs[0].entry.Some? then [recs[0].entry.value] + ValidEntries(recs[1..])
    else ValidEntries(recs[1..])
  }

  lemma PassesMeans(windows: seq<Window>, e: Entry)
    ensures Passes(windows, e) <==>
      windows == [] || exists w :: w in windows && w.begin <= e.time && (w.end == 0 || e.time <= w.end)
  {
    if w :| w in windows && w.begin <= e.time && (w.end == 0 || e.time <= w.end) {
      var i :| 0 <= i < |windows| && windows[i] == w;
      assert Admits(windows[i], e);
    }
  }

  lemma {:induction false} ValidEntriesConcat(a: seq<Record>, b: seq<Record>)
    ensures ValidEntries(a + b) == ValidEntries(a) + ValidEntries(b)
  {
    if a == [] {
      assert a + b == b;
    } else {
      ValidEntriesConcat(a[1..], b);
      assert (a + b)[1..] == a[1..] + b;
    }
  }

  lemma {:induction false} PassingEntries(x: Input, items: seq<Item>, es: seq<Entry>, i: nat, corrupted: bool,
      windows: seq<Window>)
    requires i <= |es| && es[i..] == Entries(items)
    ensures ValidEntries(Passing(x, es, i, corrupted, windows)) == Admitted(items, windows)
    decreases |items|
  {
    if items == [] || items[0].Corrupted? {
    } else if items[0].Read? {
      assert es[i..] == [items[0].entry] + Entries(items[1..]);
      assert es[i..][0] == es[i] && es[i..][1..] == es[i + 1..];
      PassesMeans(windows, es[i]);
      PassingEntries(x, items[1..], es, i + 1, corrupted, windows);
      PassingStep(x, es, i, corrupted, windows);
    } else {
      PassingEntries(x, items[1..], es, i, corrupted, windows);
    }
  }

  lemma PassingStep(x: Input, es: seq<Entry>, i: nat, corrupted: bool, windows: seq<Window>)
    requires i < |es|
    ensures ValidEntries(Passing(x, es, i, corrupted, windows)) ==
      (if Passes(windows, es[i]) then [es[i]] else []) + ValidEntries(Passing(x, es, i + 1, corrupted, windows))
  {
    var rest := Passing(x, es, i + 1, corrupted, windows);
    if Passes(windows, es[i]) {
      var rec := Record(x, es[i].time, Some(es[i]), PositionOf(es, i, corrupted), ValidRecord);
      assert ([rec] + rest)[1..] == rest;
    } else {
      assert [] + rest == rest;
    }
  }

  lemma ContributedEntries(x: Input, dump: Dump, windows: seq<Window>)
    ensures ValidEntries(Contribution(x, dump, windows))
      == if dump.Opened? then Admitted(dump.items, windows) else []
  {
    if dump.Opened? {
      var es := Entries(dump.items);
      var passing := Passing(x, es, 0, EndsCorrupted(dump.items), windows);
      assert es[0..] == es;
      PassingEntries(x, dump.items, es, 0, EndsCorrupted(dump.items), windows);
      var status := Contribution(x, dump, windows)[|passing|..];
      assert Contribution(x, dump, windows) == passing + status;
      assert status == [] || (|status| == 1 && status[0].status != ValidRecord && status[1..] == []);
      ValidEntriesConcat(passing, status);
    }
  }

  /** Over a whole run, the valid records of a dump the run takes carry exactly the entries in the
      windows, once each and in the dump's order. */
  lemma RunAdmits(q: seq<Input>, s: Settings, seen: Seen, x: Input)
    requires Ordered(q) && Progressing(q)
    ensures ValidEntries(From(Run(q, s, seen).0, x)) ==
      if x in Taken(q, s, seen) && s.dumps(x).Opened? then Admitted(s.dumps(x).items, s.windows) else []
  {
    RunConserves(q, s, seen, x);
    ContributedEntries(x, s.dumps(x), s.windows);
  }

  // ---------- record by record ----------

  lemma {:induction false} ValidHasEntry(recs: seq<Record>, rec: Record)
    requires rec in recs && rec.status == ValidRecord && rec.entry.Some?
    ensures rec.entry.value in ValidEntries(recs)
  {
    if recs[0] != rec {
      ValidHasEntry(recs[1..], rec);
    }
  }

  lemma {:induction false} EntryHasRecord(recs: seq<Record>, e: Entry)
    requires e in ValidEntries(recs)
    ensures exists rec :: rec in recs && rec.status == ValidRecord && rec.entry == Some(e)
  {
    if recs[0].status == ValidRecord && recs[0].entry == Some(e) {
      assert recs[0] in recs;
    } else {
      EntryHasRecord(recs[1..], e);
    }
  }

  lemma {:induction false} AdmittedInWindow(items: seq<Item>, windows: seq<Window>, e: Entry)
    requires e in Admitted(items, windows) && windows != []
    ensures exists w :: w in windows && w.begin <= e.time && (w.end == 0 || e.time <= w.end)
    ensures Read(e) in items
  {
    if items[0] != Read(e) {
      AdmittedInWindow(items[1..], windows, e);
    } else if !exists w :: w in windows && w.begin <= e.time && (w.end == 0 || e.time <= w.end) {
      AdmittedInWindow(items[1..], windows, e);
    }
  }

  lemma {:induction false} WindowAdmits(items: seq<Item>, windows: seq<Window>, n: nat, w: Window)
    requires n < |items| && items[n].Read? && forall i :: 0 <= i < n ==> !items[i].Corrupted?
    requires w in windows && w.begin <= items[n].entry.time && (w.end == 0 || items[n].entry.time <= w.end)
    ensures items[n].entry in Admitted(items, windows)
  {
    if n > 0 {
      WindowAdmits(items[1..], windows, n - 1, w);
    }
  }

  /** A record of a run with its dump's contribution. */
  lemma RunRecord(q: seq<Input>, s: Settings, seen: Seen, rec: Record)
    requires Ordered(q) && Progressing(q) && rec in Run(q, s, seen).0
    ensures rec in From(Run(q, s, seen).0, rec.input)
    ensures rec in Contribution(rec.input, s.dumps(rec.input), s.windows)
  {
    FromHolds(Run(q, s, seen).0, rec);
    RunConserves(q, s, seen, rec.input);
  }

  lemma {:induction false} PassingHasTimes(x: Input, es: seq<Entry>, i: nat, corrupted: bool, windows: seq<Window>)
    requires i <= |es|
    ensures forall rec :: rec in Passing(x, es, i, corrupted, windows) ==>
      rec.entry.Some? && rec.time == rec.entry.value.time
    decreases |es| - i
  {
    if i < |es| {
      PassingHasTimes(x, es, i + 1, corrupted, windows);
    }
  }

  lemma ValidHasTime(x: Input, dump: Dump, windows: seq<Window>, rec: Record)
    requires rec in Contribution(x, dump, windows) && rec.status == ValidRecord
    ensures dump.Opened? && rec.entry.Some? && rec.time == rec.entry.value.time
  {
    if dump.Opened? {
      PassingHasTimes(x, Entries(dump.items), 0, EndsCorrupted(dump.items), windows);
    }
  }

  /** Every valid record lies in a window, both ends included, and carries an entry of its dump. */
  lemma RunInWindows(q: seq<Input>, s: Settings, seen: Seen, rec: Record)
    requires Ordered(q) && Progressing(q) && s.windows != []
    requires rec in Run(q, s, seen).0 && rec.status == ValidRecord
    ensures exists w :: w in s.windows && w.begin <= rec.time && (w.end == 0 || rec.time <= w.end)
    ensures rec.entry.Some? && rec.time == rec.entry.value.time
    ensures s.dumps(rec.input).Opened? && Read(rec.entry.value) in s.dumps(rec.input).items
  {
    var x := rec.input;
    RunRecord(q, s, seen, rec);
    ValidHasTime(x, s.dumps(x), s.windows, rec);
    RunAdmits(q, s, seen, x);
    ValidHasEntry(From(Run(q, s, seen).0, x), rec);
    AdmittedInWindow(s.dumps(x).items, s.windows, rec.entry.value);
  }

  /** And every entry in a window, of a dump that is taken, opens, and is not corrupted before it, is
      returned. */
  lemma RunReturns(q: seq<Input>, s: Settings, seen: Seen, x: Input, n: nat, w: Window)
    requires Ordered(q) && Progressing(q) && x in Taken(q, s, seen) && s.dumps(x).Opened?
    requires var items := s.dumps(x).items;
      n < |items| && items[n].Read? && forall i :: 0 <= i < n ==> !items[i].Corrupted?
    requires var t := s.dumps(x).items[n].entry.time;
      w in s.windows && w.begin <= t && (w.end == 0 || t <= w.end)
    ensures var e := s.dumps(x).items[n].entry;
      exists rec :: rec in From(Run(q, s, seen).0, x) && rec.status == ValidRecord && rec.entry == Some(e)
    ensures forall rec :: rec in From(Run(q, s, seen).0, x) ==> rec in Run(q, s, seen).0 && rec.input == x
  {
    var recs := Run(q, s, seen).0;
    RunAdmits(q, s, seen, x);
    WindowAdmits(s.dumps(x).items, s.windows, n, w);
    EntryHasRecord(From(recs, x), s.dumps(x).items[n].entry);
    forall rec | rec in From(recs, x)
      ensures rec in recs && rec.input == x
    {
      FromOrigin(recs, x, rec);
    }
  }

  /** So does every valid record that calls come to, over any number of answers. */
  lemma {:induction false} EventsInWindows(answers: seq<Answer>, blocking: bool, s: Settings, seen: Seen, rec: Record)
    requires AllWork(answers) && s.windows != []
    requires Rec(rec) in Events(answers, blocking, s, seen) && rec.status == ValidRecord
    ensures exists w :: w in s.windows && w.begin <= rec.time && (w.end == 0 || rec.time <= w.end)
  {
    if answers[0].SourceError? || answers[0].inputs == [] {
      EventsInWindows(answers[1..], blocking, s, seen, rec);
    } else {
      var q := PushAll([], answers[0].inputs);
      assert answers[0] in answers;
      Queued(answers[0].inputs);
      var (recs, after) := Run(q, s, seen);
      if rec in recs {
        RunInWindows(q, s, seen, rec);
      } else {
        assert Rec(rec) !in Recs(recs);
        EventsInWindows(answers[1..], blocking, s, after, rec);
      }
    }
  }
}
