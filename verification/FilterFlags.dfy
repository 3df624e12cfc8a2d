/** A list of prefix filters with their match flags: what adding them one by one stores, what a
    search then answers, and when that is what the given flags ask for. Nothing here looks at a
    tree's shape; FilterTree says that the trees the inserts build answer the same. */
module FilterFlags {
  import opened Prefixes
  import opened TrieListing

  /** Stored prefixes and their match flags. */
  type Flags = map<Key, nat>

  /** Some stored prefix lies on either side of k. */
  ghost predicate Split(keys: set<Key>, k: Key)
  {
    exists a, b :: a in keys && b in keys && k + [false] <= a && k + [true] <= b
  }

  ghost predicate AllWellFormed(fs: seq<Prefix>)
  {
    forall p :: p in fs ==> WellFormed(p)
  }

  /** What adding one filter stores: nothing if its prefix is there; its own flag if filters lie on
      both sides of it; and otherwise the flag that allows any match. */
  ghost function AddFlag(flags: Flags, p: Prefix): Flags
    requires WellFormed(p)
  {
    var k := KeyOf(p);
    if k in flags then flags else flags[k := if Split(flags.Keys, k) then p.allowed else MATCH_ANY]
  }

  /** The flags stored after adding fs in order. */
  ghost function Kept(fs: seq<Prefix>): Flags
    requires AllWellFormed(fs)
  {
    if fs == [] then map[] else AddFlag(Kept(fs[..|fs| - 1]), fs[|fs| - 1])
  }

  /** The flags given, for each prefix by the first filter that names it. */
  ghost function Given(fs: seq<Prefix>): Flags
    requires AllWellFormed(fs)
  {
    if fs == [] then map[]
    else
      var given, p := Given(fs[..|fs| - 1]), fs[|fs| - 1];
      if KeyOf(p) in given then given else given[KeyOf(p) := p.allowed]
  }

  // ---------- what a search answers ----------

  predicate AllowsMore(flag: nat)
  {
    flag == MATCH_ANY || flag == MATCH_MORE
  }

  predicate AllowsLess(flag: nat)
  {
    flag == MATCH_ANY || flag == MATCH_LESS
  }

  ghost function Containing(keys: set<Key>, k: Key): set<Key>
  {
    set a | a in keys && a <= k && a != k
  }

  /** The stored prefixes inside k that come before b in address order. */
  ghost function Earlier(keys: set<Key>, k: Key, b: Key): set<Key>
  {
    set c | c in keys && k <= c && c != k && KeyLess(c, b)
  }

  ghost predicate LessHit(flags: Flags, k: Key)
  {
    exists a :: a in flags && a <= k && a != k && AllowsMore(flags[a])
  }

  /** b lies inside k, allows less specifics, and has at least `skipped` others before it. */
  ghost predicate HitsAt(flags: Flags, k: Key, skipped: nat, b: Key)
  {
    b in flags && k <= b && b != k && AllowsLess(flags[b]) && skipped <= |Earlier(flags.Keys, k, b)|
  }

  ghost predicate MoreHit(flags: Flags, k: Key, skipped: nat)
  {
    exists b :: HitsAt(flags, k, skipped, b)
  }

  /** The code's answer from the flags stored. */
  ghost predicate Passes(flags: Flags, k: Key)
  {
    k in flags || LessHit(flags, k) || MoreHit(flags, k, |Containing(flags.Keys, k)|)
  }

  /** What the flags ask for. */
  ghost predicate Wanted(flags: Flags, k: Key)
  {
    k in flags || LessHit(flags, k) || MoreHit(flags, k, 0)
  }

  /** A flag of a containing prefix that lets k pass: 0 (any) or 2 (more specifics). */
  ghost predicate LetBelow(flags: Flags, k: Key, a: Key)
  {
    a in flags && a <= k && a != k && (flags[a] == 0 || flags[a] == 2)
  }

  /** One of a prefix inside k: 0 (any) or 3 (less specifics). */
  ghost predicate LetAbove(flags: Flags, k: Key, b: Key)
  {
    b in flags && k <= b && b != k && (flags[b] == 0 || flags[b] == 3)
  }

  /** At least as many stored prefixes inside k come before b as there are that contain k. */
  ghost predicate LookedAt(flags: Flags, k: Key, b: Key)
  {
    |Containing(flags.Keys, k)| <= |Earlier(flags.Keys, k, b)|
  }

  /** What is asked for and what is answered, in the flags' numbers. */
  lemma AnswersMean(flags: Flags, k: Key)
    ensures Wanted(flags, k) <==>
      k in flags || (exists a :: LetBelow(flags, k, a)) || (exists b :: LetAbove(flags, k, b))
    ensures Passes(flags, k) <==>
      k in flags || (exists a :: LetBelow(flags, k, a)) || (exists b :: LetAbove(flags, k, b) && LookedAt(flags, k, b))
  {
    if a :| LetBelow(flags, k, a) {
      assert LessHit(flags, k);
    }
    if b :| LetAbove(flags, k, b) {
      assert HitsAt(flags, k, 0, b);
    }
    forall b | LetAbove(flags, k, b) && LookedAt(flags, k, b)
      ensures HitsAt(flags, k, |Containing(flags.Keys, k)|, b)
    {
    }
    if MoreHit(flags, k, |Containing(flags.Keys, k)|) {
      var b :| HitsAt(flags, k, |Containing(flags.Keys, k)|, b);
      assert LetAbove(flags, k, b);
    }
    if MoreHit(flags, k, 0) {
      var b :| HitsAt(flags, k, 0, b);
      assert LetAbove(flags, k, b);
    }
    if LessHit(flags, k) {
      var a :| a in flags && a <= k && a != k && AllowsMore(flags[a]);
      assert LetBelow(flags, k, a);
    }
  }

  // ---------- the flags kept against the flags given ----------

  /** Every prefix is stored; its flag is the given one or the one that allows any match. */
  lemma {:induction false} KeptOrAny(fs: seq<Prefix>)
    requires AllWellFormed(fs)
    ensures Kept(fs).Keys == Given(fs).Keys
    ensures forall a :: a in Kept(fs) ==> Kept(fs)[a] == Given(fs)[a] || Kept(fs)[a] == MATCH_ANY
    ensures forall a :: a in Kept(fs) <==> exists p :: p in fs && KeyOf(p) == a
  {
    if fs != [] {
      var init, last := fs[..|fs| - 1], fs[|fs| - 1];
      assert fs == init + [last];
      KeptOrAny(init);
      forall a
        ensures a in Kept(fs) <==> exists p :: p in fs && KeyOf(p) == a
      {
        if a == KeyOf(last) {
          assert last in fs;
        }
      }
    }
  }

  /** The flag of a's filter was not stored. */
  ghost predicate Lost(fs: seq<Prefix>, a: Key)
    requires AllWellFormed(fs)
  {
    a in Kept(fs) && a in Given(fs) && Kept(fs)[a] != Given(fs)[a]
  }

  /** Filters never ask for more than the kept flags allow, position aside. */
  lemma WantedIsKept(fs: seq<Prefix>, k: Key)
    requires AllWellFormed(fs) && Wanted(Given(fs), k)
    ensures Wanted(Kept(fs), k)
    ensures LessHit(Given(fs), k) ==> LessHit(Kept(fs), k)
  {
    KeptOrAny(fs);
    if MoreHit(Given(fs), k, 0) {
      var b :| HitsAt(Given(fs), k, 0, b);
      assert HitsAt(Kept(fs), k, 0, b);
    }
  }

  /** A prefix the filters ask for is missed exactly when filters contain it, all of them stored with
      flags that do not allow more specifics, and the filters inside it that allow less specifics
      all come among as many in address order as there are filters that contain it. */
  lemma MissedExactly(fs: seq<Prefix>, k: Key)
    requires AllWellFormed(fs)
    ensures Wanted(Given(fs), k) && !Passes(Kept(fs), k) <==>
      var kept := Kept(fs);
      && k !in kept && !LessHit(kept, k) && MoreHit(Given(fs), k, 0)
      && forall b :: HitsAt(kept, k, 0, b) ==> |Earlier(kept.Keys, k, b)| < |Containing(kept.Keys, k)|
  {
    KeptOrAny(fs);
    var kept := Kept(fs);
    if Wanted(Given(fs), k) {
      WantedIsKept(fs, k);
    }
    forall b
      ensures HitsAt(kept, k, |Containing(kept.Keys, k)|, b)
        <==> HitsAt(kept, k, 0, b) && |Earlier(kept.Keys, k, b)| >= |Containing(kept.Keys, k)|
    {
    }
  }

  /** A prefix the filters do not ask for passes exactly when a filter whose flag was lost contains
      it, or one inside it that is not skipped lost its flag. */
  lemma PassedExactly(fs: seq<Prefix>, k: Key)
    requires AllWellFormed(fs) && !Wanted(Given(fs), k)
    ensures Passes(Kept(fs), k) <==>
      var kept := Kept(fs);
      || (exists a :: Lost(fs, a) && a <= k && a != k)
      || (exists b :: Lost(fs, b) && HitsAt(kept, k, |Containing(kept.Keys, k)|, b))
  {
    KeptOrAny(fs);
    var kept, given := Kept(fs), Given(fs);
    var skipped := |Containing(kept.Keys, k)|;
    forall a | a in kept && a <= k && a != k
      ensures AllowsMore(kept[a]) <==> Lost(fs, a)
    {
      assert !AllowsMore(given[a]);
    }
    forall b | HitsAt(kept, k, skipped, b)
      ensures Lost(fs, b)
    {
      assert !HitsAt(given, k, 0, b);
    }
    if MoreHit(kept, k, skipped) {
      var b :| HitsAt(kept, k, skipped, b);
    }
  }

  // ---------- when no flag is kept ----------

  /** No filter is added between two that lie on either side of it. */
  ghost predicate NeverSplit(fs: seq<Prefix>)
    requires AllWellFormed(fs)
  {
    forall i :: 0 <= i < |fs| ==> AllWellFormed(fs[..i]) && !Split(Kept(fs[..i]).Keys, KeyOf(fs[i]))
  }

  predicate Comparable(a: Key, k: Key)
  {
    a <= k || k <= a
  }

  lemma {:induction false} AllAny(fs: seq<Prefix>)
    requires AllWellFormed(fs) && NeverSplit(fs)
    ensures forall a :: a in Kept(fs) ==> Kept(fs)[a] == MATCH_ANY
  {
    if fs != [] {
      var init := fs[..|fs| - 1];
      forall i | 0 <= i < |init|
        ensures AllWellFormed(init[..i]) && !Split(Kept(init[..i]).Keys, KeyOf(init[i]))
      {
        assert init[..i] == fs[..i];
      }
      AllAny(init);
      assert AllWellFormed(fs[..|fs| - 1]) && !Split(Kept(init).Keys, KeyOf(fs[|fs| - 1]));
    }
  }

  /** Then the given flags have no effect: a prefix passes exactly when it contains, equals or is
      contained in some filter's. */
  lemma FlagsIgnored(fs: seq<Prefix>, k: Key)
    requires AllWellFormed(fs) && NeverSplit(fs)
    ensures Passes(Kept(fs), k) <==> exists p :: p in fs && Comparable(KeyOf(p), k)
  {
    AllAny(fs);
    KeptOrAny(fs);
    var kept := Kept(fs);
    if p :| p in fs && Comparable(KeyOf(p), k) {
      var a := KeyOf(p);
      assert a in kept && kept[a] == MATCH_ANY;
      if !LessHit(kept, k) {
        assert Containing(kept.Keys, k) == {};
        assert a == k || HitsAt(kept, k, 0, a);
      }
    }
    if Passes(kept, k) {
      var a :| a in kept && Comparable(a, k);
    }
  }
}
