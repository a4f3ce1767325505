/** What the three greedy passes achieve together. */
module MatchingTheorems {
  import opened Types
  import opened Text
  import Assignment
  import opened Matching

  // ---- optimality ----

  ghost function ExactKeys(tx: Locale, entries: seq<WindowEntry>): (r: seq<(string, string)>)
    ensures |r| == |entries| && forall i :: 0 <= i < |r| ==> r[i] == (Fold(tx, entries[i].exe), entries[i].title)
  {
    seq(|entries|, i requires 0 <= i < |entries| => (Fold(tx, entries[i].exe), entries[i].title))
  }

  ghost function WindowExactKeys(tx: Locale, windows: seq<Live>): (r: seq<(string, string)>)
    ensures |r| == |windows| && forall j :: 0 <= j < |r| ==> r[j] == (Fold(tx, windows[j].exe), windows[j].title)
  {
    seq(|windows|, j requires 0 <= j < |windows| => (Fold(tx, windows[j].exe), windows[j].title))
  }

  /** The pairs of m whose titles are equal. */
  ghost function ExactPart(entries: seq<WindowEntry>, windows: seq<Live>, m: map<nat, nat>): map<nat, nat>
    requires forall i :: i in m ==> i < |entries| && m[i] < |windows|
  {
    map i | i in m && entries[i].title == windows[m[i]].title :: m[i]
  }

  lemma ExactPartIsPairing(tx: Locale, entries: seq<WindowEntry>, windows: seq<Live>, m: map<nat, nat>)
    requires IsAssignment(tx, entries, windows, m)
    ensures Assignment.Pairing(ExactKeys(tx, entries), WindowExactKeys(tx, windows), ExactPart(entries, windows, m))
  {
    hide Fold;
  }

  ghost predicate TitlesAgree(tx: Locale, entries: seq<WindowEntry>, windows: seq<Live>, m: map<nat, nat>) {
    IsAssignment(tx, entries, windows, m) && forall i :: i in m ==> windows[m[i]].title == entries[i].title
  }

  lemma ExactStepPairsTitles(tx: Locale, entries: seq<WindowEntry>, windows: seq<Live>, m: map<nat, nat>, i: nat)
    requires i < |entries| && TitlesAgree(tx, entries, windows, m)
    ensures TitlesAgree(tx, entries, windows, Step(tx, Exact, entries, windows, m, i))
  {
    hide Step, Open, Fold;
    StepFacts(tx, Exact, entries, windows, m, i);
    var m' := Step(tx, Exact, entries, windows, m, i);
    if i in m' && i !in m {
      ExactOpenTitle(tx, entries[i], windows, m.Values, m'[i]);
    }
  }

  lemma {:induction false} ExactPassPairsTitles(tx: Locale, entries: seq<WindowEntry>, windows: seq<Live>, n: nat)
    requires n <= |entries|
    ensures TitlesAgree(tx, entries, windows, Run(tx, Exact, entries, windows, map[], n))
  {
    if n > 0 {
      ExactPassPairsTitles(tx, entries, windows, n - 1);
      ExactStepPairsTitles(tx, entries, windows, Run(tx, Exact, entries, windows, map[], n - 1), n - 1);
    }
  }

  lemma ExactOpenTitle(tx: Locale, e: WindowEntry, windows: seq<Live>, taken: set<nat>, j: nat)
    requires Open(tx, Exact, e, windows, taken, j)
    ensures j < |windows| && windows[j].title == e.title
  {}

  lemma SameKeyIsOpen(tx: Locale, e: WindowEntry, windows: seq<Live>, taken: set<nat>, j: nat)
    requires j < |windows| && j !in taken && Fold(tx, e.exe) == Fold(tx, windows[j].exe)
    ensures Open(tx, Ordinal, e, windows, taken, j)
    ensures e.title == windows[j].title ==> Open(tx, Exact, e, windows, taken, j)
  {}

  /** After pass 1 no entry and free window of the same executable and title remain. */
  lemma ExactPassIsMaximal(tx: Locale, entries: seq<WindowEntry>, windows: seq<Live>)
    ensures Assignment.Pairing(ExactKeys(tx, entries), WindowExactKeys(tx, windows), AfterExact(tx, entries, windows))
    ensures Assignment.Maximal(ExactKeys(tx, entries), WindowExactKeys(tx, windows), AfterExact(tx, entries, windows))
  {
    hide Run, Open, Fold;
    var m := AfterExact(tx, entries, windows);
    ExactPassPairsTitles(tx, entries, windows, |entries|);
    ExactPartIsPairing(tx, entries, windows, m);
    assert ExactPart(entries, windows, m) == m;
    RunFacts(tx, Exact, entries, windows, map[], |entries|);
    forall i: nat, j: nat | i < |entries| && j < |windows|
      && ExactKeys(tx, entries)[i] == WindowExactKeys(tx, windows)[j]
      ensures i in m || j in m.Values
    {
      if j !in m.Values {
        SameKeyIsOpen(tx, entries[i], windows, m.Values, j);
      }
    }
  }

  /** After pass 3 no entry and free window of the same executable remain. */
  lemma FinalIsMaximal(tx: Locale, entries: seq<WindowEntry>, windows: seq<Live>)
    ensures Assignment.Maximal(ExeKeys(tx, entries), WindowExeKeys(tx, windows), Assign(tx, entries, windows))
  {
    hide Run, AfterSimilar;
    var m := Assign(tx, entries, windows);
    AssignIsPairing(tx, entries, windows);
    RunFacts(tx, Ordinal, entries, windows, AfterSimilar(tx, entries, windows), |entries|);
    forall i: nat, j: nat | i < |entries| && j < |windows| && ExeKeys(tx, entries)[i] == WindowExeKeys(tx, windows)[j]
      ensures i in m || j in m.Values
    {
      assert !Open(tx, Ordinal, entries[i], windows, m.Values, j) || i in m;
    }
  }

  /** Greedy matching is optimal twice over: no injective same-executable assignment has more pairs, and none has
      more exact-title pairs. */
  lemma MatchingIsOptimal(tx: Locale, entries: seq<WindowEntry>, windows: seq<Live>, other: map<nat, nat>)
    requires IsAssignment(tx, entries, windows, other)
    ensures var m := Assign(tx, entries, windows);
      && IsAssignment(tx, entries, windows, m)
      && |other| <= |m|
      && |ExactPart(entries, windows, other)| <= |ExactPart(entries, windows, m)|
  {
    hide Run, AfterSimilar, AfterExact, Assignment.Maximal, Assign, ExactPart;
    var first, m := AfterExact(tx, entries, windows), Assign(tx, entries, windows);
    AssignIsPairing(tx, entries, windows);
    FinalIsMaximal(tx, entries, windows);
    Assignment.MaximalIsMaximum(ExeKeys(tx, entries), WindowExeKeys(tx, windows), m, other);
    ExactPassIsMaximal(tx, entries, windows);
    ExactPartIsPairing(tx, entries, windows, other);
    Assignment.MaximalIsMaximum(ExactKeys(tx, entries), WindowExactKeys(tx, windows), first,
      ExactPart(entries, windows, other));
    ExactPairsSurvive(tx, entries, windows);
    Assignment.SubsetSize(first.Keys, ExactPart(entries, windows, m).Keys);
  }

  /** Pairs found by title are never undone by the later passes. */
  lemma ExactPairsSurvive(tx: Locale, entries: seq<WindowEntry>, windows: seq<Live>)
    ensures var first, m := AfterExact(tx, entries, windows), Assign(tx, entries, windows);
      && IsAssignment(tx, entries, windows, m) && Extends(first, m)
      && first.Keys <= ExactPart(entries, windows, m).Keys
  {
    hide Run;
    AssignIsPairing(tx, entries, windows);
    ExactPassPairsTitles(tx, entries, windows, |entries|);
  }
}
