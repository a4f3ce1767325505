/** The matcher as the program runs it: `taken` and `matched` are updated in place by each pass. */
module Matcher {
  import opened Types
  import opened Text
  import Titles
  import Levenshtein
  import opened Matching

  ghost predicate Agrees(taken: seq<bool>, used: set<nat>) {
    forall j: nat :: j < |taken| ==> (taken[j] <==> j in used)
  }

  predicate SameExe(tx: Locale, e: WindowEntry, w: Live) {
    EqualFold(tx, w.exe, e.exe)
  }

  /** Scores of the two ordinal-like passes never beat each other, so the first hit stays the pick. */
  lemma {:induction false} FirstHitStays(tx: Locale, p: Pass, e: WindowEntry, windows: seq<Live>, used: set<nat>,
                                         j: nat, n: nat)
    requires !p.Similar? && j < n <= |windows|
    requires Pick(tx, p, e, windows, used, j).None? && Open(tx, p, e, windows, used, j)
    ensures Pick(tx, p, e, windows, used, n) == Some(j)
    decreases n
  {
    hide Open;
    if n > j + 1 {
      FirstHitStays(tx, p, e, windows, used, j, n - 1);
    }
  }

  /** Passes 1 and 3: the first free window the pass accepts. */
  method PickFirst(tx: Locale, p: Pass, e: WindowEntry, windows: seq<Live>, taken: array<bool>, ghost used: set<nat>)
    returns (r: Option<nat>)
    requires !p.Similar? && taken.Length == |windows| && Agrees(taken[..], used)
    ensures r == Pick(tx, p, e, windows, used, |windows|)
  {
    hide EqualFold;
    for j := 0 to |windows|
      invariant Pick(tx, p, e, windows, used, j).None?
    {
      assert taken[j] == taken[..][j];
      if !taken[j] && SameExe(tx, e, windows[j]) && (p.Ordinal? || windows[j].title == e.title) {
        FirstHitStays(tx, p, e, windows, used, j, |windows|);
        return Some(j);
      }
    }
    return None;
  }

  /** Pass 2: the best similar title above the threshold; ties go to the first window. */
  method PickSimilar(tx: Locale, e: WindowEntry, windows: seq<Live>, taken: array<bool>, ghost used: set<nat>)
    returns (best: Option<nat>)
    requires taken.Length == |windows| && Agrees(taken[..], used)
    ensures best == Pick(tx, Similar, e, windows, used, |windows|)
  {
    hide EqualFold, Levenshtein.Similarity, Titles.Normalized;
    var bestScore := -1.0;
    best := None;
    var want := Titles.NormalizeTitle(tx, e.title, e.exe);
    for j := 0 to |windows|
      invariant best == Pick(tx, Similar, e, windows, used, j)
      invariant bestScore == if best.Some? then Score(tx, Similar, e, windows[best.value]) else -1.0
    {
      assert taken[j] == taken[..][j];
      if taken[j] || !SameExe(tx, e, windows[j]) {
        continue;
      }
      var title := Titles.NormalizeTitle(tx, windows[j].title, windows[j].exe);
      var score := Levenshtein.ComputeSimilarity(want, title);
      if score >= THRESHOLD && score > bestScore {
        best, bestScore := Some(j), score;
      }
    }
  }

  /** The two slices represent the assignment m. */
  ghost predicate Represents(tx: Locale, entries: seq<WindowEntry>, windows: seq<Live>,
                             taken: seq<bool>, matched: seq<Option<Match>>, m: map<nat, nat>)
  {
    && |taken| == |windows| && |matched| == |entries| && IsAssignment(tx, entries, windows, m)
    && Agrees(taken, m.Values)
    && forall i: nat :: i < |entries| ==>
         matched[i] == if i in m then Some(Match(i, entries[i], windows[m[i]])) else None
  }

  lemma RepresentsUpdate(tx: Locale, p: Pass, entries: seq<WindowEntry>, windows: seq<Live>,
                         taken: seq<bool>, matched: seq<Option<Match>>, m: map<nat, nat>, i: nat, j: nat)
    requires Represents(tx, entries, windows, taken, matched, m)
    requires i < |entries| && i !in m && Pick(tx, p, entries[i], windows, m.Values, |windows|) == Some(j)
    ensures Represents(tx, entries, windows, taken[j := true], matched[i := Some(Match(i, entries[i], windows[j]))],
                       Step(tx, p, entries, windows, m, i))
  {
    hide Pick, IsBest, Open, IsAssignment;
    StepFacts(tx, p, entries, windows, m, i);
    var m' := m[i := j];
    assert m'.Values == m.Values + {j} by {
      assert m'[i] == j;
      assert forall k :: k in m ==> m'[k] == m[k];
    }
  }

  method RunPass(tx: Locale, p: Pass, entries: seq<WindowEntry>, windows: seq<Live>,
                 taken: array<bool>, matched: array<Option<Match>>, ghost m: map<nat, nat>)
    requires Represents(tx, entries, windows, taken[..], matched[..], m)
    modifies taken, matched
    ensures Represents(tx, entries, windows, taken[..], matched[..], Run(tx, p, entries, windows, m, |entries|))
  {
    hide Pick, IsAssignment;
    ghost var now := m;
    for i := 0 to |entries|
      invariant now == Run(tx, p, entries, windows, m, i)
      invariant Represents(tx, entries, windows, taken[..], matched[..], now)
    {
      assert matched[i] == matched[..][i];
      if matched[i].Some? {
        continue;
      }
      var r: Option<nat>;
      if p.Similar? {
        r := PickSimilar(tx, entries[i], windows, taken, now.Values);
      } else {
        r := PickFirst(tx, p, entries[i], windows, taken, now.Values);
      }
      if r.Some? {
        RepresentsUpdate(tx, p, entries, windows, taken[..], matched[..], now, i, r.value);
        taken[r.value] := true;
        matched[i] := Some(Match(i, entries[i], windows[r.value]));
        now := Step(tx, p, entries, windows, now, i);
      }
    }
  }

  method MatchEntries(tx: Locale, entries: seq<WindowEntry>, live: seq<Live>) returns (plan: Plan)
    ensures plan == PlanOf(tx, entries, live)
  {
    var windows := FilterEligible(live);
    var taken := new bool[|windows|](_ => false);
    var matched := new Option<Match>[|entries|](_ => None);
    ghost var m: map<nat, nat> := map[];
    RunPass(tx, Exact, entries, windows, taken, matched, m);
    RunPass(tx, Similar, entries, windows, taken, matched, AfterExact(tx, entries, windows));
    RunPass(tx, Ordinal, entries, windows, taken, matched, AfterSimilar(tx, entries, windows));
    m := Assign(tx, entries, windows);
    plan := CollectPlan(tx, entries, windows, taken, matched, m);
  }

  method CollectPlan(tx: Locale, entries: seq<WindowEntry>, windows: seq<Live>,
                     taken: array<bool>, matched: array<Option<Match>>, ghost m: map<nat, nat>) returns (plan: Plan)
    requires Represents(tx, entries, windows, taken[..], matched[..], m)
    ensures forall i :: i in m ==> m[i] < |windows|
    ensures plan == Plan(MatchesOf(entries, windows, m, |entries|), MissingOf(entries, m, |entries|),
                         UnmatchedOf(windows, m.Values, |windows|))
  {
    hide IsAssignment, ExeKeys, WindowExeKeys;
    PairsInRange(tx, entries, windows, m);
    var matches, missing, unmatched := [], [], [];
    for i := 0 to |entries|
      invariant matches == MatchesOf(entries, windows, m, i) && missing == MissingOf(entries, m, i)
    {
      assert matched[i] == matched[..][i];
      if matched[i].None? {
        missing := missing + [entries[i]];
      } else {
        matches := matches + [matched[i].value];
      }
    }
    for j := 0 to |windows|
      invariant unmatched == UnmatchedOf(windows, m.Values, j)
    {
      assert taken[j] == taken[..][j];
      if !taken[j] {
        unmatched := unmatched + [windows[j]];
      }
    }
    plan := Plan(matches, missing, unmatched);
  }
}
