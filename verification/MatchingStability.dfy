/** Pairings survive everyday title churn and do not depend on the checkboxes. */
module MatchingStability {
  import opened Types
  import opened Text
  import Titles
  import Levenshtein
  import Assignment
  import opened Matching
  import opened MatchingRanks

  predicate SameNormalTitle(tx: Locale, e: WindowEntry, w: Live) {
    Titles.Normalized(tx, e.title, e.exe) == Titles.Normalized(tx, w.title, w.exe)
  }

  /** own[i] is the one window of entry i's executable whose title still normalizes to the saved one. */
  ghost predicate OwnWindows(tx: Locale, entries: seq<WindowEntry>, windows: seq<Live>, own: map<nat, nat>) {
    && (forall i: nat :: i < |entries| <==> i in own)
    && (forall i :: i in own ==> own[i] < |windows|)
    && Assignment.Injective(own)
    && (forall i: nat, j: nat :: i < |entries| && j < |windows| ==>
         (EqualFold(tx, windows[j].exe, entries[i].exe) && SameNormalTitle(tx, entries[i], windows[j])
         <==> own[i] == j))
  }

  /** Pass 1, which compares titles as they are, finds no window but the entry's own. */
  ghost predicate ExactTitlesAreOwn(tx: Locale, entries: seq<WindowEntry>, windows: seq<Live>, own: map<nat, nat>)
    requires forall i: nat :: i < |entries| ==> i in own
  {
    forall i: nat, j: nat :: i < |entries| && SameRank(tx, entries, windows, i, j) ==> own[i] == j
  }

  /** A window scored as an equal title is the entry's own. */
  lemma OnlyOwnScoresOne(tx: Locale, entries: seq<WindowEntry>, windows: seq<Live>, own: map<nat, nat>, i: nat,
                         taken: set<nat>, j: nat)
    requires OwnWindows(tx, entries, windows, own) && i < |entries|
    requires Open(tx, Similar, entries[i], windows, taken, j) && Score(tx, Similar, entries[i], windows[j]) >= 1.0
    ensures own[i] == j
  {
    hide Levenshtein.Similarity, EqualFold;
    var e, w := entries[i], windows[j];
    Levenshtein.SimilarityIsNormalized(Titles.Normalized(tx, e.title, e.exe), Titles.Normalized(tx, w.title, w.exe));
    assert SameNormalTitle(tx, e, w);
  }

  lemma OwnIsOpen(tx: Locale, entries: seq<WindowEntry>, windows: seq<Live>, own: map<nat, nat>, m: map<nat, nat>,
                  i: nat)
    requires OwnWindows(tx, entries, windows, own) && i < |entries|
    requires Extends(m, own) && i !in m
    ensures Open(tx, Similar, entries[i], windows, m.Values, own[i])
    ensures Score(tx, Similar, entries[i], windows[own[i]]) == 1.0
  {
    hide EqualFold, Titles.Normalized;
    var e, w := entries[i], windows[own[i]];
    assert EqualFold(tx, w.exe, e.exe) && SameNormalTitle(tx, e, w);
  }

  /** The first n entries are paired. */
  ghost predicate Covered(m: map<nat, nat>, n: nat) {
    forall i: nat :: i < n ==> i in m
  }

  lemma StepKeepsOwn(tx: Locale, entries: seq<WindowEntry>, windows: seq<Live>, own: map<nat, nat>, m: map<nat, nat>,
                     i: nat)
    requires OwnWindows(tx, entries, windows, own) && i < |entries|
    requires IsAssignment(tx, entries, windows, m) && Extends(m, own) && Covered(m, i)
    ensures var m' := Step(tx, Similar, entries, windows, m, i);
      Extends(m', own) && Covered(m', i + 1)
  {
    hide Step, Open, Score, OwnWindows, IsAssignment;
    StepFacts(tx, Similar, entries, windows, m, i);
    OwnInRange(tx, entries, windows, own);
    var m' := Step(tx, Similar, entries, windows, m, i);
    if i !in m {
      OwnIsOpen(tx, entries, windows, own, m, i);
      if i in m' {
        OnlyOwnScoresOne(tx, entries, windows, own, i, m.Values, m'[i]);
      }
    }
  }

  lemma OwnInRange(tx: Locale, entries: seq<WindowEntry>, windows: seq<Live>, own: map<nat, nat>)
    requires OwnWindows(tx, entries, windows, own)
    ensures forall i: nat :: i < |entries| <==> i in own
    ensures forall i :: i in own ==> own[i] < |windows|
  {}

  lemma {:induction false} RunKeepsOwn(tx: Locale, entries: seq<WindowEntry>, windows: seq<Live>, own: map<nat, nat>,
                                       m: map<nat, nat>, n: nat)
    requires OwnWindows(tx, entries, windows, own) && n <= |entries|
    requires IsAssignment(tx, entries, windows, m) && Extends(m, own)
    ensures var m' := Run(tx, Similar, entries, windows, m, n);
      Extends(m', own) && Covered(m', n)
  {
    hide Step, OwnWindows, IsAssignment, Extends;
    if n > 0 {
      var before := Run(tx, Similar, entries, windows, m, n - 1);
      RunKeepsOwn(tx, entries, windows, own, m, n - 1);
      RunFacts(tx, Similar, entries, windows, m, n - 1);
      StepKeepsOwn(tx, entries, windows, own, before, n - 1);
    }
  }

  /** Title churn that normalization absorbs never swaps windows, whatever the enumeration order and whichever titles
      changed: every entry gets its own window back, exactly when pass 1 finds no other window by its raw title. */
  lemma ChurnNeverSwapsWindows(tx: Locale, entries: seq<WindowEntry>, windows: seq<Live>, own: map<nat, nat>)
    requires OwnWindows(tx, entries, windows, own)
    ensures forall i: nat :: i < |entries| ==> i in own
    ensures Assign(tx, entries, windows) == own <==> ExactTitlesAreOwn(tx, entries, windows, own)
  {
    hide Run, OwnWindows, IsAssignment, SameRank, AfterExact;
    OwnInRange(tx, entries, windows, own);
    AssignIsPairing(tx, entries, windows);
    PairsInRange(tx, entries, windows, AfterExact(tx, entries, windows));
    PairsInRange(tx, entries, windows, Assign(tx, entries, windows));
    forall i: nat, j: nat | i < |entries|
      ensures i in AfterExact(tx, entries, windows) && AfterExact(tx, entries, windows)[i] == j
         <==> SameRank(tx, entries, windows, i, j)
    {
      ExactPassPairsByRank(tx, entries, windows, i, j);
    }
    if ExactTitlesAreOwn(tx, entries, windows, own) {
      forall i | i in AfterExact(tx, entries, windows)
        ensures i in own && own[i] == AfterExact(tx, entries, windows)[i] {
        assert SameRank(tx, entries, windows, i, AfterExact(tx, entries, windows)[i]);
      }
      RunKeepsOwn(tx, entries, windows, own, AfterExact(tx, entries, windows), |entries|);
    }
  }

  /** In particular when executables that are equal under folding give the application name that normalization
      strips. */
  lemma SameNamesNeverSwap(tx: Locale, entries: seq<WindowEntry>, windows: seq<Live>, own: map<nat, nat>)
    requires OwnWindows(tx, entries, windows, own)
    requires forall i: nat, j: nat ::
      i < |entries| && j < |windows| && EqualFold(tx, windows[j].exe, entries[i].exe) ==>
        Titles.AppName(tx, entries[i].exe) == Titles.AppName(tx, windows[j].exe)
    ensures Assign(tx, entries, windows) == own
  {
    hide Assign, Rank;
    ChurnNeverSwapsWindows(tx, entries, windows, own);
    forall i: nat, j: nat | i < |entries| && SameRank(tx, entries, windows, i, j) ensures own[i] == j {
      assert EqualFold(tx, windows[j].exe, entries[i].exe) && SameNormalTitle(tx, entries[i], windows[j]);
    }
  }

  /** A runtime that folds the long s onto s, as Unicode does, but does not lower-case it to s. */
  ghost predicate FoldsLongS(tx: Locale) {
    && tx.fold('s') == tx.fold('\U{17F}') && tx.baseName("s") == "s" && tx.baseName("\U{17F}") == "\U{17F}"
    && forall c :: c in "a -s\U{17F}" ==> tx.lower(c) == c
  }

  function Saved(exe: string, title: string): WindowEntry {
    WindowEntry(exe, "", title, 0, Rect(0, 0, 1, 1), Rect(0, 0, 0, 0), "normal", false, true)
  }

  function Shown(exe: string, title: string): Live {
    Live(0, title, "", exe, Rect(0, 0, 1, 1), Rect(0, 0, 1, 1), "normal", false, true, false, false, false)
  }

  /** The only hyphen of "a - s" that separates. */
  lemma SeparatorOf(sep: string)
    requires sep in Titles.SEPARATORS
    ensures LastIndex("a - s", sep) == if sep == " - " then 1 else -1
    ensures LastIndex("a", sep) == -1
  {
    hide LastIndex;
    var s, r := "a - s", LastIndex("a - s", sep);
    assert r >= 0 ==> s[r..r + 3][1] == s[r + 1] == sep[1] && s[r..r + 3][0] == s[r];
    assert sep == " - " ==> OccursAt(s, sep, 1);
  }

  lemma NothingTrimmed(s: string)
    requires s != "" && !IsSpace(s[0]) && !IsSpace(s[|s| - 1])
    ensures TrimSpace(s) == s
  {}

  /** How a title of lower-case letters normalizes, given where its last hyphen separates. */
  lemma NormalizedIs(tx: Locale, s: string, exe: string, i: int)
    requires forall sep :: sep in Titles.SEPARATORS ==> LastIndex(s, sep) == if sep == " - " then i else -1
    requires s != "" && !Titles.IsMarker(s[0]) && (i > 0 ==> i + 3 <= |s|)
    ensures var kept := if i > 0 && ToLower(tx, TrimSpace(s[i + 3..])) == Titles.AppName(tx, exe) then s[..i] else s;
      Titles.Normalized(tx, s, exe) == ToLower(tx, TrimSpace(kept))
  {
    hide LastIndex, TrimSpace, ToLower, Titles.StripApp;
    var seps := Titles.SEPARATORS;
    assert seps[0] in seps && seps[0][1] != '-' && seps[1] in seps && seps[1][1] != '-' && seps[2] in seps;
    if i > 0 {
      Titles.StripAppByDecider(tx, s, Titles.AppName(tx, exe), seps, 2);
    } else {
      Titles.NothingDecides(tx, s, Titles.AppName(tx, exe), seps);
    }
  }

  lemma StripsOwnName(tx: Locale)
    requires FoldsLongS(tx)
    ensures Titles.Normalized(tx, "a - s", "s") == "a" == Titles.Normalized(tx, "a", "s")
    ensures Titles.Normalized(tx, "a - s", "\U{17F}") == "a - s"
  {
    hide LastIndex, TrimSpace, Titles.Normalized, ToLower;
    forall sep | sep in Titles.SEPARATORS
      ensures LastIndex("a - s", sep) == if sep == " - " then 1 else -1
      ensures LastIndex("a", sep) == -1
    {
      SeparatorOf(sep);
    }
    NormalizedIs(tx, "a - s", "s", 1);
    NormalizedIs(tx, "a - s", "\U{17F}", 1);
    NormalizedIs(tx, "a", "s", -1);
    assert "a - s"[1 + 3..] == "s" && "a - s"[..1] == "a";
    NothingTrimmed("s");
    NothingTrimmed("a");
    NothingTrimmed("a - s");
    NothingLowered(tx);
  }

  lemma NothingLowered(tx: Locale)
    requires FoldsLongS(tx)
    ensures ToLower(tx, "s") == "s" && ToLower(tx, "\U{17F}") == "\U{17F}" && ToLower(tx, "a") == "a"
    ensures ToLower(tx, "a - s") == "a - s"
  {}

  /** Without such agreement pass 1 can take another window: here the one whose raw title is the saved one belongs to an
      executable that is only equal under folding, and whose title normalizes to something else. */
  lemma FoldedNamesSwap(tx: Locale)
    requires FoldsLongS(tx)
    ensures var entries := [Saved("s", "a - s")];
      var windows := [Shown("\U{17F}", "a - s"), Shown("s", "a")];
      OwnWindows(tx, entries, windows, map[0 := 1]) && Assign(tx, entries, windows) != map[0 := 1]
  {
    hide Assign, Titles.Normalized;
    var entries := [Saved("s", "a - s")];
    var windows := [Shown("\U{17F}", "a - s"), Shown("s", "a")];
    var own: map<nat, nat> := map[0 := 1];
    StripsOwnName(tx);
    assert Fold(tx, "s") == Fold(tx, "\U{17F}");
    assert "a"[0..] != "a - s";
    ChurnNeverSwapsWindows(tx, entries, windows, own);
    assert SameRank(tx, entries, windows, 0, 0);
  }

  // ---- checkboxes ----

  /** Equal in everything the matcher looks at. */
  predicate SameTargets(entries: seq<WindowEntry>, entries': seq<WindowEntry>) {
    |entries| == |entries'| &&
    forall i :: 0 <= i < |entries| ==> entries[i].exe == entries'[i].exe && entries[i].title == entries'[i].title
  }

  lemma {:induction false} PickIgnoresTicks(tx: Locale, p: Pass, e: WindowEntry, e': WindowEntry, windows: seq<Live>,
                                            taken: set<nat>, n: nat)
    requires n <= |windows| && e.exe == e'.exe && e.title == e'.title
    ensures Pick(tx, p, e, windows, taken, n) == Pick(tx, p, e', windows, taken, n)
  {
    hide EqualFold, Levenshtein.Similarity, Titles.Normalized;
    if n > 0 {
      PickIgnoresTicks(tx, p, e, e', windows, taken, n - 1);
    }
  }

  lemma {:induction false} RunIgnoresTicks(tx: Locale, p: Pass, entries: seq<WindowEntry>, entries': seq<WindowEntry>,
                                           windows: seq<Live>, m: map<nat, nat>, n: nat)
    requires SameTargets(entries, entries') && n <= |entries|
    ensures Run(tx, p, entries, windows, m, n) == Run(tx, p, entries', windows, m, n)
  {
    hide Pick;
    if n > 0 {
      RunIgnoresTicks(tx, p, entries, entries', windows, m, n - 1);
      var before := Run(tx, p, entries, windows, m, n - 1);
      PickIgnoresTicks(tx, p, entries[n - 1], entries'[n - 1], windows, before.Values, |windows|);
    }
  }

  /** Flipping any checkboxes (or anything else but executable and title) leaves the pairing as it was. */
  lemma TicksDoNotMatter(tx: Locale, entries: seq<WindowEntry>, entries': seq<WindowEntry>, windows: seq<Live>)
    requires SameTargets(entries, entries')
    ensures Assign(tx, entries, windows) == Assign(tx, entries', windows)
  {
    hide Run;
    RunIgnoresTicks(tx, Exact, entries, entries', windows, map[], |entries|);
    RunIgnoresTicks(tx, Similar, entries, entries', windows, AfterExact(tx, entries, windows), |entries|);
    RunIgnoresTicks(tx, Ordinal, entries, entries', windows, AfterSimilar(tx, entries, windows), |entries|);
  }
}
