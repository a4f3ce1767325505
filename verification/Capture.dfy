/** Saving the open windows, and finding them again. */
module Capture {
  import opened Types
  import opened Text
  import Assignment
  import opened Matching
  import opened MatchingTheorems

  /** How many of the first n windows run an executable with this lower-cased path. */
  function CountExe(tx: Locale, windows: seq<Live>, n: nat, key: string): nat
    requires n <= |windows|
  {
    if n == 0 then 0
    else CountExe(tx, windows, n - 1, key) + if ToLower(tx, windows[n - 1].exe) == key then 1 else 0
  }

  function EntryFor(tx: Locale, windows: seq<Live>, i: nat): WindowEntry
    requires i < |windows|
  {
    var w := windows[i];
    WindowEntry(w.exe, w.cls, w.title, CountExe(tx, windows, i, ToLower(tx, w.exe)), w.rect, w.screen, w.state,
      w.topmost, true)
  }

  /** The saved form of a list of eligible windows. */
  function Entries(tx: Locale, windows: seq<Live>): (r: seq<WindowEntry>)
    ensures |r| == |windows| && forall i :: 0 <= i < |r| ==> r[i] == EntryFor(tx, windows, i)
  {
    seq(|windows|, i requires 0 <= i < |windows| => EntryFor(tx, windows, i))
  }

  lemma {:induction false} CountExePrefix(tx: Locale, windows: seq<Live>, more: seq<Live>, n: nat, key: string)
    requires n <= |windows|
    ensures CountExe(tx, windows + more, n, key) == CountExe(tx, windows, n, key)
  {
    hide ToLower;
    if n > 0 {
      CountExePrefix(tx, windows, more, n - 1, key);
    }
  }

  lemma EntriesSnoc(tx: Locale, windows: seq<Live>, w: Live)
    ensures Entries(tx, windows + [w]) == Entries(tx, windows) + [EntryFor(tx, windows + [w], |windows|)]
  {
    hide ToLower, CountExe;
    forall i | 0 <= i < |windows| ensures EntryFor(tx, windows + [w], i) == EntryFor(tx, windows, i) {
      CountExePrefix(tx, windows, [w], i, ToLower(tx, windows[i].exe));
    }
  }

  /** The ordinals counted so far are those of the windows saved so far. */
  ghost predicate Counted(tx: Locale, ordinals: map<string, nat>, windows: seq<Live>) {
    forall key :: (if key in ordinals then ordinals[key] else 0) == CountExe(tx, windows, |windows|, key)
  }

  lemma CountedSnoc(tx: Locale, ordinals: map<string, nat>, windows: seq<Live>, w: Live, n: nat)
    requires Counted(tx, ordinals, windows)
    requires n == CountExe(tx, windows, |windows|, ToLower(tx, w.exe))
    ensures Counted(tx, ordinals[ToLower(tx, w.exe) := n + 1], windows + [w])
    ensures CountExe(tx, windows + [w], |windows|, ToLower(tx, w.exe)) == n
  {
    hide ToLower, CountExe;
    var key := ToLower(tx, w.exe);
    CountExePrefix(tx, windows, [w], |windows|, key);
    forall other ensures CountExe(tx, windows + [w], |windows| + 1, other)
                         == CountExe(tx, windows, |windows|, other) + if other == key then 1 else 0
    {
      CountExePrefix(tx, windows, [w], |windows|, other);
      CountExeStep(tx, windows + [w], |windows|, other);
    }
  }

  lemma CountExeStep(tx: Locale, windows: seq<Live>, n: nat, key: string)
    requires n < |windows|
    ensures CountExe(tx, windows, n + 1, key) 
         == CountExe(tx, windows, n, key) + if ToLower(tx, windows[n].exe) == key then 1 else 0
  {}

  method Capture(tx: Locale, live: seq<Live>) returns (out: seq<WindowEntry>)
    ensures out == Entries(tx, Eligibles(live))
  {
    hide Eligible, CountExe, ToLower, EntryFor;
    var ordinals: map<string, nat> := map[];
    out := [];
    ghost var saved := [];
    NothingCounted(tx);
    for i := 0 to |live|
      invariant saved == Eligibles(live[..i]) && out == Entries(tx, saved)
      invariant Counted(tx, ordinals, saved)
    {
      assert live[..i + 1][..i] == live[..i];
      var w := live[i];
      if !Eligible(w) {
        continue;
      }
      var key := ToLower(tx, w.exe);
      var n := if key in ordinals then ordinals[key] else 0;
      var entry := WindowEntry(w.exe, w.cls, w.title, n, w.rect, w.screen, w.state, w.topmost, true);
      CountedSnoc(tx, ordinals, saved, w, n);
      EntriesSnoc(tx, saved, w);
      LastEntry(tx, saved, w, entry);
      out := out + [entry];
      ordinals := ordinals[key := n + 1];
      saved := saved + [w];
    }
    assert live[..|live|] == live;
  }

  lemma NothingCounted(tx: Locale)
    ensures Counted(tx, map[], [])
  {}

  lemma LastEntry(tx: Locale, windows: seq<Live>, w: Live, entry: WindowEntry)
    requires entry.ordinal == CountExe(tx, windows + [w], |windows|, ToLower(tx, w.exe))
    requires entry == WindowEntry(w.exe, w.cls, w.title, entry.ordinal, w.rect, w.screen, w.state, w.topmost, true)
    ensures EntryFor(tx, windows + [w], |windows|) == entry
  {
    hide ToLower, CountExe;
  }

  /** The windows of one executable are numbered 0, 1, 2, ... in enumeration order. */
  lemma {:induction false} OrdinalsCountUp(tx: Locale, windows: seq<Live>, i: nat, n: nat)
    requires i < n <= |windows|
    ensures Entries(tx, windows)[i].ordinal < CountExe(tx, windows, n, ToLower(tx, windows[i].exe))
    ensures n < |windows| && ToLower(tx, windows[n].exe) == ToLower(tx, windows[i].exe) ==>
              Entries(tx, windows)[i].ordinal < Entries(tx, windows)[n].ordinal
    decreases n
  {
    hide ToLower;
    if n > i + 1 {
      OrdinalsCountUp(tx, windows, i, n - 1);
    }
  }

  ghost function SameExeBefore(tx: Locale, windows: seq<Live>, n: nat, exe: string): set<nat>
    requires n <= |windows|
  {
    set k: nat | k < n && ToLower(tx, windows[k].exe) == ToLower(tx, exe)
  }

  lemma {:induction false} CountExeIs(tx: Locale, windows: seq<Live>, n: nat, exe: string)
    requires n <= |windows|
    ensures CountExe(tx, windows, n, ToLower(tx, exe)) == |SameExeBefore(tx, windows, n, exe)|
  {
    hide ToLower;
    if n == 0 {
      assert SameExeBefore(tx, windows, 0, exe) == {};
    } else {
      var k: nat := n - 1;
      CountExeIs(tx, windows, k, exe);
      assert SameExeBefore(tx, windows, n, exe)
        == SameExeBefore(tx, windows, k, exe) + if ToLower(tx, windows[k].exe) == ToLower(tx, exe) then {k} else {};
    }
  }

  /** A saved entry records its window field by field, is ticked, and counts the earlier windows of its executable. */
  lemma EntryRecords(tx: Locale, windows: seq<Live>, k: nat)
    requires k < |windows|
    ensures var e, w := Entries(tx, windows)[k], windows[k];
      && e.exe == w.exe && e.cls == w.cls && e.title == w.title && e.rect == w.rect && e.screen == w.screen
      && e.state == w.state && e.topmost == w.topmost && e.ticked
      && e.ordinal == |SameExeBefore(tx, windows, k, w.exe)|
  {
    hide CountExe, ToLower;
    CountExeIs(tx, windows, k, windows[k].exe);
  }

  // ---- matching what was captured ----

  lemma CaptureKeepsKeys(tx: Locale, windows: seq<Live>)
    ensures ExactKeys(tx, Entries(tx, windows)) == WindowExactKeys(tx, windows)
  {
    hide Fold, CountExe;
  }

  /** The exact-title pass alone finds a window for every captured entry. */
  lemma FirstPassFindsAll(tx: Locale, captured: seq<Live>, windows: seq<Live>)
    requires multiset(WindowExactKeys(tx, captured)) <= multiset(WindowExactKeys(tx, windows))
    ensures var entries := Entries(tx, captured);
      forall i: nat :: i < |entries| ==> i in AfterExact(tx, entries, windows)
  {
    hide *;
    var entries := Entries(tx, captured);
    CaptureKeepsKeys(tx, captured);
    ExactPassIsMaximal(tx, entries, windows);
    Assignment.InclusionPairsAll(ExactKeys(tx, entries), WindowExactKeys(tx, windows),
      AfterExact(tx, entries, windows));
  }

  /** If the windows open now include those captured, as a multiset of executable and title, then nothing is missing and
      every window is found by its exact title; order and extra windows do not matter. */
  lemma CapturedWindowsAreFound(tx: Locale, captured: seq<Live>, now: seq<Live>)
    requires multiset(WindowExactKeys(tx, Eligibles(captured))) <= multiset(WindowExactKeys(tx, Eligibles(now)))
    ensures var plan := PlanOf(tx, Entries(tx, Eligibles(captured)), now);
      && plan.missing == []
      && (forall x :: x in plan.matches ==> x.live.title == x.entry.title)
      && |plan.matches| == |Entries(tx, Eligibles(captured))|
  {
    hide Assign, AfterExact, IsAssignment, Eligibles, Entries, MatchesOf, MissingOf, UnmatchedOf, ExactPart;
    var entries, windows := Entries(tx, Eligibles(captured)), Eligibles(now);
    FirstPassFindsAll(tx, Eligibles(captured), windows);
    ExactPairsSurvive(tx, entries, windows);
    PairsInRange(tx, entries, windows, Assign(tx, entries, windows));
    AllPresent(entries, Assign(tx, entries, windows), |entries|);
    AllExact(entries, windows, Assign(tx, entries, windows), |entries|);
  }

  lemma {:induction false} AllPresent(entries: seq<WindowEntry>, m: map<nat, nat>, n: nat)
    requires n <= |entries| && forall i: nat :: i < |entries| ==> i in m
    ensures MissingOf(entries, m, n) == []
  {
    if n > 0 {
      AllPresent(entries, m, n - 1);
    }
  }

  lemma {:induction false} AllExact(entries: seq<WindowEntry>, windows: seq<Live>, m: map<nat, nat>, n: nat)
    requires n <= |entries|
    requires forall i :: i in m ==> i < |entries| && m[i] < |windows|
    requires forall i: nat :: i < |entries| ==> i in m && i in ExactPart(entries, windows, m)
    ensures |MatchesOf(entries, windows, m, n)| == n
    ensures forall x :: x in MatchesOf(entries, windows, m, n) ==> x.live.title == x.entry.title
  {
    hide ExactPart;
    if n > 0 {
      AllExact(entries, windows, m, n - 1);
      LastMatch(entries, windows, m, n);
    }
  }

  lemma LastMatch(entries: seq<WindowEntry>, windows: seq<Live>, m: map<nat, nat>, n: nat)
    requires 0 < n <= |entries|
    requires forall i :: i in m ==> i < |entries| && m[i] < |windows|
    requires n - 1 in m && n - 1 in ExactPart(entries, windows, m)
    ensures MatchesOf(entries, windows, m, n)
      == MatchesOf(entries, windows, m, n - 1) + [Match(n - 1, entries[n - 1], windows[m[n - 1]])]
    ensures entries[n - 1].title == windows[m[n - 1]].title
  {}

  ghost function Identity(n: nat): (r: map<nat, nat>)
    ensures forall i: nat :: i in r <==> i < n
    ensures forall i :: i in r ==> r[i] == i
  {
    if n == 0 then map[] else Identity(n - 1)[n - 1 := n - 1]
  }

  lemma IdentityStep(tx: Locale, windows: seq<Live>, i: nat)
    requires i < |windows|
    ensures Step(tx, Exact, Entries(tx, windows), windows, Identity(i), i) == Identity(i + 1)
  {
    hide Fold, CountExe;
    var e := Entries(tx, windows)[i];
    var taken := Identity(i).Values;
    forall j: nat ensures j in taken <==> j < i {
      if j < i {
        assert Identity(i)[j] == j;
      }
    }
    PickIsBest(tx, Exact, e, windows, taken, |windows|);
    assert Open(tx, Exact, e, windows, taken, i);
  }

  lemma {:induction false} IdentityRun(tx: Locale, windows: seq<Live>, n: nat)
    requires n <= |windows|
    ensures Run(tx, Exact, Entries(tx, windows), windows, map[], n) == Identity(n)
  {
    hide Step, EntryFor;
    if n > 0 {
      IdentityRun(tx, windows, n - 1);
      IdentityStep(tx, windows, n - 1);
    }
  }

  /** Matching a capture against the very windows it was taken from gives entry i the i-th eligible window and leaves no
      window over. */
  lemma CaptureIsFixed(tx: Locale, live: seq<Live>)
    ensures var entries := Entries(tx, Eligibles(live));
      && Assign(tx, entries, Eligibles(live)) == Identity(|entries|)
      && PlanOf(tx, entries, live).missing == [] && PlanOf(tx, entries, live).unmatched == []
  {
    hide Run, Eligibles, EntryFor, IsAssignment, Identity, MissingOf, MatchesOf, UnmatchedOf;
    var windows := Eligibles(live);
    var entries := Entries(tx, windows);
    IdentityRun(tx, windows, |windows|);
    AssignIsPairing(tx, entries, windows);
    var m := Assign(tx, entries, windows);
    PairsInRange(tx, entries, windows, m);
    assert m == Identity(|entries|);
    forall j: nat | j < |windows| ensures j in m.Values {
      assert m[j] == j;
    }
    NoneLeft(entries, windows, m, |windows|);
  }

  lemma {:induction false} NoneLeft(entries: seq<WindowEntry>, windows: seq<Live>, m: map<nat, nat>, n: nat)
    requires n <= |windows| == |entries|
    requires forall i: nat :: i < n ==> i in m && i in m.Values
    ensures MissingOf(entries, m, n) == [] && UnmatchedOf(windows, m.Values, n) == []
  {
    if n > 0 {
      NoneLeft(entries, windows, m, n - 1);
    }
  }
}
