/** Pass 2, in terms of edit distances: a similar title is one that differs by at most two edits in five characters,
    and the relatively closest one wins. */
module MatchingSimilar {
  import opened Types
  import opened Text
  import Titles
  import Levenshtein
  import opened Matching
  import MatchingLocality

  function EntryTitle(tx: Locale, e: WindowEntry): string {
    Titles.Normalized(tx, e.title, e.exe)
  }

  function WindowTitle(tx: Locale, w: Live): string {
    Titles.Normalized(tx, w.title, w.exe)
  }

  /** Edits needed per character of the longer normalized title. */
  function Share(tx: Locale, e: WindowEntry, w: Live): real {
    var d, longest := Levenshtein.Distance(EntryTitle(tx, e), WindowTitle(tx, w)),
      Levenshtein.Longest(EntryTitle(tx, e), WindowTitle(tx, w));
    if longest == 0 then 0.0 else d as real / longest as real
  }

  /** w runs the entry's executable, and at most two edits in five characters of the longer normalized title separate
      the two. */
  predicate Near(tx: Locale, e: WindowEntry, w: Live) {
    && Fold(tx, w.exe) == Fold(tx, e.exe)
    && 5 * Levenshtein.Distance(EntryTitle(tx, e), WindowTitle(tx, w))
       <= 2 * Levenshtein.Longest(EntryTitle(tx, e), WindowTitle(tx, w))
  }

  lemma SimilarityIsShare(a: string, b: string)
    ensures Levenshtein.Similarity(a, b) == 1.0 -
      if Levenshtein.Longest(a, b) == 0 then 0.0
      else Levenshtein.Distance(a, b) as real / Levenshtein.Longest(a, b) as real
  {
    hide Levenshtein.Dist;
    Levenshtein.Metric(a, b, b);
    Levenshtein.DistBounds(a, b, |a|, |b|);
    if Levenshtein.Longest(a, b) > 0 {
      Levenshtein.Fraction(Levenshtein.Distance(a, b), Levenshtein.Longest(a, b));
    }
  }

  /** A free window is acceptable to pass 2 exactly when it is near. */
  lemma AcceptedIffNear(tx: Locale, e: WindowEntry, windows: seq<Live>, taken: set<nat>, j: nat)
    ensures Open(tx, Similar, e, windows, taken, j) <==> j < |windows| && j !in taken && Near(tx, e, windows[j])
  {
    hide Levenshtein.Similarity, Titles.Normalized, Levenshtein.Distance, Levenshtein.Longest, Fold;
    if j < |windows| {
      Levenshtein.SimilarityIsNormalized(EntryTitle(tx, e), WindowTitle(tx, windows[j]));
    }
  }

  lemma ScoreIsShare(tx: Locale, e: WindowEntry, w: Live)
    ensures Score(tx, Similar, e, w) == 1.0 - Share(tx, e, w)
  {
    hide Levenshtein.Similarity, Titles.Normalized, Levenshtein.Distance, Levenshtein.Longest;
    SimilarityIsShare(EntryTitle(tx, e), WindowTitle(tx, w));
  }

  /** j is near and free, no near free window needs fewer edits per character, and none before j needs as few. */
  ghost predicate IsNearestTitle(tx: Locale, e: WindowEntry, windows: seq<Live>, taken: set<nat>, j: nat) {
    && j < |windows| && j !in taken && Near(tx, e, windows[j])
    && forall k: nat :: k < |windows| && k !in taken && Near(tx, e, windows[k]) ==>
         Share(tx, e, windows[j]) < Share(tx, e, windows[k])
         || (Share(tx, e, windows[j]) == Share(tx, e, windows[k]) && j <= k)
  }

  lemma BestIsNearestTitle(tx: Locale, e: WindowEntry, windows: seq<Live>, taken: set<nat>, j: nat)
    requires IsBest(tx, Similar, e, windows, taken, |windows|, j)
    ensures IsNearestTitle(tx, e, windows, taken, j)
  {
    hide Open, Score, Near, Share;
    AcceptedIffNear(tx, e, windows, taken, j);
    ScoreIsShare(tx, e, windows[j]);
    forall k: nat | k < |windows| && k !in taken && Near(tx, e, windows[k])
      ensures Share(tx, e, windows[j]) < Share(tx, e, windows[k])
        || (Share(tx, e, windows[j]) == Share(tx, e, windows[k]) && j <= k)
    {
      AcceptedIffNear(tx, e, windows, taken, k);
      ScoreIsShare(tx, e, windows[k]);
    }
  }

  /** The windows taken when entry i has its turn in pass 2. */
  ghost function TakenBefore(tx: Locale, entries: seq<WindowEntry>, windows: seq<Live>, i: nat): set<nat>
    requires i < |entries|
  {
    Run(tx, Similar, entries, windows, AfterExact(tx, entries, windows), i).Values
  }

  /** An entry that pass 1 left unpaired is paired by pass 2 exactly when some near window is free at its turn, and then
      with the first of the relatively closest ones. */
  lemma SimilarTakesNearest(tx: Locale, entries: seq<WindowEntry>, windows: seq<Live>, i: nat)
    requires i < |entries| && i !in AfterExact(tx, entries, windows)
    ensures var taken, m := TakenBefore(tx, entries, windows, i), AfterSimilar(tx, entries, windows);
      && (i in m <==> exists j: nat :: j < |windows| && j !in taken && Near(tx, entries[i], windows[j]))
      && (i in m ==> IsNearestTitle(tx, entries[i], windows, taken, m[i]))
  {
    hide Step, IsAssignment, IsBest, AfterExact, Exhausted, Near, IsNearestTitle;
    var start := AfterExact(tx, entries, windows);
    var before := Run(tx, Similar, entries, windows, start, i);
    var after := Run(tx, Similar, entries, windows, start, i + 1);
    AssignIsPairing(tx, entries, windows);
    RunFacts(tx, Similar, entries, windows, start, i);
    StepFacts(tx, Similar, entries, windows, before, i);
    MatchingLocality.RunExtends(tx, Similar, entries, windows, start, i + 1, |entries|);
    if i in after {
      BestIsNearestTitle(tx, entries[i], windows, before.Values, after[i]);
      NearestIsFree(tx, entries[i], windows, before.Values, after[i]);
    } else {
      MatchingLocality.LaterStepsSkip(tx, Similar, entries, windows, start, i, |entries|);
      forall j: nat ensures !(j < |windows| && j !in before.Values && Near(tx, entries[i], windows[j])) {
        AcceptedIffNear(tx, entries[i], windows, before.Values, j);
      }
    }
  }

  lemma NearestIsFree(tx: Locale, e: WindowEntry, windows: seq<Live>, taken: set<nat>, j: nat)
    requires IsNearestTitle(tx, e, windows, taken, j)
    ensures j < |windows| && j !in taken && Near(tx, e, windows[j])
  {}

  /** And so it stands in the plan. */
  lemma SimilarIsPlanned(tx: Locale, entries: seq<WindowEntry>, live: seq<Live>, i: nat)
    requires i < |entries| && i !in AfterExact(tx, entries, Eligibles(live))
    requires exists j: nat :: j < |Eligibles(live)| && j !in TakenBefore(tx, entries, Eligibles(live), i)
                              && Near(tx, entries[i], Eligibles(live)[j])
    ensures exists j: nat ::
      && IsNearestTitle(tx, entries[i], Eligibles(live), TakenBefore(tx, entries, Eligibles(live), i), j)
      && Match(i, entries[i], Eligibles(live)[j]) in PlanOf(tx, entries, live).matches
  {
    hide Run, IsAssignment, IsNearestTitle, Near, AfterExact, AfterSimilar, Eligibles;
    var windows := Eligibles(live);
    SimilarTakesNearest(tx, entries, windows, i);
    AssignIsPairing(tx, entries, windows);
    var m := Assign(tx, entries, windows);
    NearestIsFree(tx, entries[i], windows, TakenBefore(tx, entries, windows, i), m[i]);
    MatchListed(entries, windows, m, i, |entries|);
  }
}
