/** Pairing saved entries with open windows: the three greedy passes over everything still
    unmatched (exact title, similar title, ordinal), as a specification and as the in-place program. */
module Matching {
  import opened Types
  import opened Text
  import Titles
  import Levenshtein
  import Assignment

  // ---- eligibility and capture ----

  const SHELL_CLASSES: set<string> := {"Progman", "WorkerW", "Shell_TrayWnd", "Button"}

  predicate Eligible(w: Live) {
    && w.visible && !w.cloaked && !w.tool && !w.own
    && TrimSpace(w.title) != "" && w.exe != "" && w.cls !in SHELL_CLASSES
    && w.rect.w > 0 && w.rect.h > 0
  }

  /** The eligible windows, in enumeration order. */
  function Eligibles(live: seq<Live>): (r: seq<Live>)
    ensures forall w :: w in r <==> w in live && Eligible(w)
  {
    if live == [] then []
    else
      var n := |live| - 1;
      Eligibles(live[..n]) + if Eligible(live[n]) then [live[n]] else []
  }

  /** Filtering keeps the order: it acts window by window. */
  lemma {:induction false} EligiblesConcat(a: seq<Live>, b: seq<Live>)
    ensures Eligibles(a + b) == Eligibles(a) + Eligibles(b)
    decreases |b|
  {
    hide Eligible;
    if b == [] {
      assert a + b == a;
    } else {
      var n := |b| - 1;
      assert (a + b)[..|a + b| - 1] == a + b[..n] && (a + b)[|a + b| - 1] == b[n];
      EligiblesConcat(a, b[..n]);
      EligiblesSnoc(a + b);
      EligiblesSnoc(b);
      hide Eligibles;
      assert Eligibles(a) + Eligibles(b[..n]) + (if Eligible(b[n]) then [b[n]] else [])
        == Eligibles(a) + (Eligibles(b[..n]) + if Eligible(b[n]) then [b[n]] else []);
    }
  }

  lemma {:induction false} EligiblesSnoc(live: seq<Live>)
    requires live != []
    ensures var n := |live| - 1;
      Eligibles(live) == Eligibles(live[..n]) + if Eligible(live[n]) then [live[n]] else []
  {}

  lemma EligiblesOfOne(w: Live)
    ensures Eligibles([w]) == if Eligible(w) then [w] else []
  {
    hide Eligible;
    assert [w][..0] == [];
  }

  method FilterEligible(live: seq<Live>) returns (r: seq<Live>)
    ensures r == Eligibles(live)
  {
    hide Eligible;
    r := [];
    for i := 0 to |live|
      invariant r == Eligibles(live[..i])
    {
      assert live[..i + 1][..i] == live[..i];
      if Eligible(live[i]) {
        r := r + [live[i]];
      }
    }
    assert live[..|live|] == live;
  }

  // ---- the specification of the passes ----

  datatype Pass = Exact | Similar | Ordinal

  const THRESHOLD := 0.6

  function Score(tx: Locale, p: Pass, e: WindowEntry, w: Live): real {
    if p.Similar? then
      Levenshtein.Similarity(Titles.Normalized(tx, e.title, e.exe), Titles.Normalized(tx, w.title, w.exe))
    else 0.0
  }

  /** Whether pass p would give window w to entry e. */
  predicate Accepts(tx: Locale, p: Pass, e: WindowEntry, w: Live) {
    EqualFold(tx, w.exe, e.exe) &&
    match p
    case Exact => w.title == e.title
    case Similar => Score(tx, p, e, w) >= THRESHOLD
    case Ordinal => true
  }

  predicate Open(tx: Locale, p: Pass, e: WindowEntry, windows: seq<Live>, taken: set<nat>, j: nat) {
    j < |windows| && j !in taken && Accepts(tx, p, e, windows[j])
  }

  /** The first of the best free windows among the first n that pass p accepts for e. */
  function Pick(tx: Locale, p: Pass, e: WindowEntry, windows: seq<Live>, taken: set<nat>, n: nat): (r: Option<nat>)
    requires n <= |windows|
    ensures r.Some? ==> r.value < n
  {
    if n == 0 then None
    else
      var best := Pick(tx, p, e, windows, taken, n - 1);
      if Open(tx, p, e, windows, taken, n - 1)
         && (best.None? || Score(tx, p, e, windows[n - 1]) > Score(tx, p, e, windows[best.value]))
      then Some(n - 1)
      else best
  }

  /** j is open, no open window among the first n scores higher, and none before j scores as high. */
  ghost predicate IsBest(tx: Locale, p: Pass, e: WindowEntry, windows: seq<Live>, taken: set<nat>, n: nat, j: nat)
    requires n <= |windows|
  {
    && j < n && Open(tx, p, e, windows, taken, j)
    && forall k: nat :: k < n && Open(tx, p, e, windows, taken, k) ==>
         Score(tx, p, e, windows[k]) < Score(tx, p, e, windows[j])
         || (Score(tx, p, e, windows[k]) == Score(tx, p, e, windows[j]) && j <= k)
  }

  lemma {:induction false} PickIsBest(tx: Locale, p: Pass, e: WindowEntry, windows: seq<Live>, taken: set<nat>, n: nat)
    requires n <= |windows|
    ensures match Pick(tx, p, e, windows, taken, n)
            case None => forall j: nat :: j < n ==> !Open(tx, p, e, windows, taken, j)
            case Some(j) => IsBest(tx, p, e, windows, taken, n, j)
  {
    hide Open, Score;
    if n > 0 {
      PickIsBest(tx, p, e, windows, taken, n - 1);
    }
  }

  /** The assignment after pass p has looked at entry i. */
  function Step(tx: Locale, p: Pass, entries: seq<WindowEntry>, windows: seq<Live>, m: map<nat, nat>,
                i: nat): map<nat, nat>
    requires i < |entries|
  {
    if i in m then m
    else match Pick(tx, p, entries[i], windows, m.Values, |windows|)
      case None => m
      case Some(j) => m[i := j]
  }

  /** The assignment after pass p has looked at the first n entries. */
  function Run(tx: Locale, p: Pass, entries: seq<WindowEntry>, windows: seq<Live>, m: map<nat, nat>,
               n: nat): map<nat, nat>
    requires n <= |entries|
  {
    if n == 0 then m
    else Step(tx, p, entries, windows, Run(tx, p, entries, windows, m, n - 1), n - 1)
  }

  function AfterExact(tx: Locale, entries: seq<WindowEntry>, windows: seq<Live>): map<nat, nat> {
    Run(tx, Exact, entries, windows, map[], |entries|)
  }

  function AfterSimilar(tx: Locale, entries: seq<WindowEntry>, windows: seq<Live>): map<nat, nat> {
    Run(tx, Similar, entries, windows, AfterExact(tx, entries, windows), |entries|)
  }

  /** Which eligible window (by index) each entry (by index) is paired with. */
  function Assign(tx: Locale, entries: seq<WindowEntry>, windows: seq<Live>): map<nat, nat> {
    Run(tx, Ordinal, entries, windows, AfterSimilar(tx, entries, windows), |entries|)
  }

  // ---- the plan ----

  datatype Match = Match(index: nat, entry: WindowEntry, live: Live)
  datatype Plan = Plan(matches: seq<Match>, missing: seq<WindowEntry>, unmatched: seq<Live>)

  function MatchesOf(entries: seq<WindowEntry>, windows: seq<Live>, m: map<nat, nat>, n: nat): seq<Match>
    requires n <= |entries| && forall i :: i in m ==> m[i] < |windows|
  {
    if n == 0 then []
    else MatchesOf(entries, windows, m, n - 1)
         + if n - 1 in m then [Match(n - 1, entries[n - 1], windows[m[n - 1]])] else []
  }

  function MissingOf(entries: seq<WindowEntry>, m: map<nat, nat>, n: nat): seq<WindowEntry>
    requires n <= |entries|
  {
    if n == 0 then []
    else MissingOf(entries, m, n - 1) + if n - 1 in m then [] else [entries[n - 1]]
  }

  function UnmatchedOf(windows: seq<Live>, taken: set<nat>, n: nat): seq<Live>
    requires n <= |windows|
  {
    if n == 0 then []
    else UnmatchedOf(windows, taken, n - 1) + if n - 1 in taken then [] else [windows[n - 1]]
  }

  function PlanOf(tx: Locale, entries: seq<WindowEntry>, live: seq<Live>): Plan {
    var windows := Eligibles(live);
    var m := Assign(tx, entries, windows);
    AssignIsPairing(tx, entries, windows);
    Plan(MatchesOf(entries, windows, m, |entries|), MissingOf(entries, m, |entries|),
         UnmatchedOf(windows, m.Values, |windows|))
  }

  /** The plan lists each pair of the assignment once, and counts every entry as matched or missing. */
  lemma {:induction false} MatchesAreSound(entries: seq<WindowEntry>, windows: seq<Live>, m: map<nat, nat>, n: nat)
    requires n <= |entries| && forall i :: i in m ==> m[i] < |windows|
    ensures forall x :: x in MatchesOf(entries, windows, m, n) ==>
      x.index < n && x.index in m && x.entry == entries[x.index] && x.live == windows[m[x.index]]
    ensures |MatchesOf(entries, windows, m, n)| + |MissingOf(entries, m, n)| == n
  {
    if n > 0 {
      MatchesAreSound(entries, windows, m, n - 1);
    }
  }

  lemma {:induction false} MatchListed(entries: seq<WindowEntry>, windows: seq<Live>, m: map<nat, nat>, i: nat, n: nat)
    requires i < n <= |entries| && i in m && forall i :: i in m ==> m[i] < |windows|
    ensures Match(i, entries[i], windows[m[i]]) in MatchesOf(entries, windows, m, n)
    decreases n
  {
    if i < n - 1 {
      MatchListed(entries, windows, m, i, n - 1);
    }
  }

  // ---- every pass keeps a pairing, only adds to it, and leaves no acceptable window behind ----

  ghost function ExeKeys(tx: Locale, entries: seq<WindowEntry>): (r: seq<string>)
    ensures |r| == |entries| && forall i :: 0 <= i < |r| ==> r[i] == Fold(tx, entries[i].exe)
  {
    seq(|entries|, i requires 0 <= i < |entries| => Fold(tx, entries[i].exe))
  }

  ghost function WindowExeKeys(tx: Locale, windows: seq<Live>): (r: seq<string>)
    ensures |r| == |windows| && forall j :: 0 <= j < |r| ==> r[j] == Fold(tx, windows[j].exe)
  {
    seq(|windows|, j requires 0 <= j < |windows| => Fold(tx, windows[j].exe))
  }

  /** m is an injective same-executable assignment of entries to windows. */
  ghost predicate IsAssignment(tx: Locale, entries: seq<WindowEntry>, windows: seq<Live>, m: map<nat, nat>) {
    Assignment.Pairing(ExeKeys(tx, entries), WindowExeKeys(tx, windows), m)
  }

  lemma PairsInRange(tx: Locale, entries: seq<WindowEntry>, windows: seq<Live>, m: map<nat, nat>)
    requires IsAssignment(tx, entries, windows, m)
    ensures forall i :: i in m ==> i < |entries| && m[i] < |windows|
  {}

  ghost predicate Extends(m: map<nat, nat>, m': map<nat, nat>) {
    forall i :: i in m ==> i in m' && m'[i] == m[i]
  }

  lemma StepFacts(tx: Locale, p: Pass, entries: seq<WindowEntry>, windows: seq<Live>, m: map<nat, nat>, i: nat)
    requires i < |entries|
    requires IsAssignment(tx, entries, windows, m)
    ensures var m' := Step(tx, p, entries, windows, m, i);
      && IsAssignment(tx, entries, windows, m') && Extends(m, m') && m.Values <= m'.Values
      && (forall k :: k in m' ==> k in m || k == i)
      && (i in m' || forall j: nat :: j < |windows| ==> !Open(tx, p, entries[i], windows, m.Values, j))
      && (i in m' && i !in m ==> IsBest(tx, p, entries[i], windows, m.Values, |windows|, m'[i]))
  {
    hide Pick, IsBest, Open, Fold, Assignment.Pairing;
    PickIsBest(tx, p, entries[i], windows, m.Values, |windows|);
    var r := Pick(tx, p, entries[i], windows, m.Values, |windows|);
    if i !in m && r.Some? {
      BestIsOpen(tx, p, entries[i], windows, m.Values, |windows|, r.value);
      Assignment.AddPair(ExeKeys(tx, entries), WindowExeKeys(tx, windows), m, i, r.value);
    }
  }

  lemma BestIsOpen(tx: Locale, p: Pass, e: WindowEntry, windows: seq<Live>, taken: set<nat>, n: nat, j: nat)
    requires n <= |windows| && IsBest(tx, p, e, windows, taken, n, j)
    ensures j < |windows| && j !in taken && Fold(tx, windows[j].exe) == Fold(tx, e.exe)
  {}

  lemma {:induction false} RunFacts(tx: Locale, p: Pass, entries: seq<WindowEntry>, windows: seq<Live>,
                                    m: map<nat, nat>, n: nat)
    requires n <= |entries|
    requires IsAssignment(tx, entries, windows, m)
    ensures var m' := Run(tx, p, entries, windows, m, n);
      && IsAssignment(tx, entries, windows, m') && Extends(m, m') && m.Values <= m'.Values
      && (forall k :: k in m' ==> k in m || k < n)
      && Exhausted(tx, p, entries, windows, m', n)
  {
    hide Step, Accepts, IsAssignment, Exhausted;
    if n == 0 {
      NothingToExhaust(tx, p, entries, windows, m);
    } else {
      var before := Run(tx, p, entries, windows, m, n - 1);
      RunFacts(tx, p, entries, windows, m, n - 1);
      StepFacts(tx, p, entries, windows, before, n - 1);
      StepExhausts(tx, p, entries, windows, before, n - 1);
    }
  }

  /** Pass p would give none of the free windows to any of the first n entries that is still unpaired. */
  ghost predicate Exhausted(tx: Locale, p: Pass, entries: seq<WindowEntry>, windows: seq<Live>, m: map<nat, nat>,
                            n: nat)
    requires n <= |entries|
  {
    forall i: nat, j: nat :: i < n && i !in m ==> !Open(tx, p, entries[i], windows, m.Values, j)
  }

  lemma NothingToExhaust(tx: Locale, p: Pass, entries: seq<WindowEntry>, windows: seq<Live>, m: map<nat, nat>)
    ensures Exhausted(tx, p, entries, windows, m, 0)
  {}

  lemma StepExhausts(tx: Locale, p: Pass, entries: seq<WindowEntry>, windows: seq<Live>, m: map<nat, nat>, i: nat)
    requires i < |entries| && IsAssignment(tx, entries, windows, m)
    requires Exhausted(tx, p, entries, windows, m, i)
    ensures Exhausted(tx, p, entries, windows, Step(tx, p, entries, windows, m, i), i + 1)
  {
    StepFacts(tx, p, entries, windows, m, i);
    hide Step, Open, IsAssignment, IsBest;
    var m' := Step(tx, p, entries, windows, m, i);
    forall k: nat, j: nat | k < i + 1 && k !in m' ensures !Open(tx, p, entries[k], windows, m'.Values, j) {
      OpenShrinks(tx, p, entries[k], windows, m.Values, m'.Values, j);
      OpenInRange(tx, p, entries[k], windows, m.Values, j);
    }
  }

  /** A window that is open stays open when fewer are taken. */
  lemma OpenShrinks(tx: Locale, p: Pass, e: WindowEntry, windows: seq<Live>, taken: set<nat>, taken': set<nat>, j: nat)
    requires taken <= taken'
    ensures Open(tx, p, e, windows, taken', j) ==> Open(tx, p, e, windows, taken, j)
  {
    hide Accepts;
  }

  lemma OpenInRange(tx: Locale, p: Pass, e: WindowEntry, windows: seq<Live>, taken: set<nat>, j: nat)
    ensures Open(tx, p, e, windows, taken, j) ==> j < |windows|
  {
    hide Accepts;
  }

  lemma AssignIsPairing(tx: Locale, entries: seq<WindowEntry>, windows: seq<Live>)
    ensures IsAssignment(tx, entries, windows, AfterExact(tx, entries, windows))
    ensures IsAssignment(tx, entries, windows, AfterSimilar(tx, entries, windows))
    ensures IsAssignment(tx, entries, windows, Assign(tx, entries, windows))
    ensures Extends(AfterExact(tx, entries, windows), AfterSimilar(tx, entries, windows))
    ensures Extends(AfterSimilar(tx, entries, windows), Assign(tx, entries, windows))
    ensures forall i :: i in Assign(tx, entries, windows) ==> Assign(tx, entries, windows)[i] < |windows|
  {
    hide Run;
    RunFacts(tx, Exact, entries, windows, map[], |entries|);
    RunFacts(tx, Similar, entries, windows, AfterExact(tx, entries, windows), |entries|);
    RunFacts(tx, Ordinal, entries, windows, AfterSimilar(tx, entries, windows), |entries|);
  }
}
