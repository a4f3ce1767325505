/** Matching works executable by executable: entries and windows of other executables make no difference. */
module MatchingLocality {
  import opened Types
  import opened Text
  import opened Matching

  /** The positions of key k, in increasing order. */
  ghost function IndicesOf(keys: seq<string>, k: string): (ix: seq<nat>)
    ensures Lists(ix, keys, k)
  {
    if keys == [] then []
    else
      var n := |keys| - 1;
      IndicesOf(keys[..n], k) + if keys[n] == k then [n] else []
  }

  ghost predicate Lists(ix: seq<nat>, keys: seq<string>, k: string) {
    && (forall x, y :: 0 <= x < y < |ix| ==> ix[x] < ix[y])
    && (forall x :: 0 <= x < |ix| ==> ix[x] < |keys| && keys[ix[x]] == k)
    && (forall i: nat :: i < |keys| && keys[i] == k ==> i in ix)
  }

  ghost function Sub<T>(s: seq<T>, ix: seq<nat>): (r: seq<T>)
    requires forall x :: 0 <= x < |ix| ==> ix[x] < |s|
    ensures |r| == |ix| && forall x :: 0 <= x < |ix| ==> r[x] == s[ix[x]]
  {
    seq(|ix|, x requires 0 <= x < |ix| => s[ix[x]])
  }

  /** ei and wi list the entries and windows of one executable, k. */
  ghost predicate Scope(tx: Locale, entries: seq<WindowEntry>, windows: seq<Live>, k: string, ei: seq<nat>,
                        wi: seq<nat>) {
    Lists(ei, ExeKeys(tx, entries), k) && Lists(wi, WindowExeKeys(tx, windows), k)
  }

  /** small, an assignment between the listed entries and windows, is big restricted to them and renumbered. */
  ghost predicate Restricts(big: map<nat, nat>, small: map<nat, nat>, ei: seq<nat>, wi: seq<nat>) {
    && (forall x :: x in small ==> x < |ei| && small[x] < |wi|)
    && (forall x: nat :: x < |ei| ==> (x in small <==> ei[x] in big))
    && (forall x :: x in small ==> big[ei[x]] == wi[small[x]])
  }

  /** A listed window is taken in the small run exactly when it is taken in the big one. */
  lemma SameTaken(tx: Locale, entries: seq<WindowEntry>, windows: seq<Live>, k: string, ei: seq<nat>, wi: seq<nat>,
                  big: map<nat, nat>, small: map<nat, nat>, y: nat)
    requires Scope(tx, entries, windows, k, ei, wi) && IsAssignment(tx, entries, windows, big)
    requires Restricts(big, small, ei, wi) && y < |wi|
    ensures y in small.Values <==> wi[y] in big.Values
  {
    hide Fold;
    if wi[y] in big.Values {
      var i :| i in big && big[i] == wi[y];
      assert ExeKeys(tx, entries)[i] == WindowExeKeys(tx, windows)[wi[y]] == k;
      var x :| 0 <= x < |ei| && ei[x] == i;
      assert x in small && wi[small[x]] == wi[y];
      assert small[x] == y;
    }
  }

  lemma BestIsUnique(tx: Locale, p: Pass, e: WindowEntry, windows: seq<Live>, taken: set<nat>, j: nat, j': nat)
    requires IsBest(tx, p, e, windows, taken, |windows|, j) && IsBest(tx, p, e, windows, taken, |windows|, j')
    ensures j == j'
  {
    hide Open, Score;
  }

  lemma OpenIsLocal(tx: Locale, p: Pass, entries: seq<WindowEntry>, windows: seq<Live>, k: string, ei: seq<nat>,
                    wi: seq<nat>, e: WindowEntry, taken: set<nat>, taken': set<nat>)
    requires Scope(tx, entries, windows, k, ei, wi) && Fold(tx, e.exe) == k
    requires forall y: nat :: y < |wi| ==> (y in taken' <==> wi[y] in taken)
    ensures forall y: nat :: y < |wi| ==>
      (Open(tx, p, e, Sub(windows, wi), taken', y) <==> Open(tx, p, e, windows, taken, wi[y]))
    ensures forall j: nat :: Open(tx, p, e, windows, taken, j) ==> j in wi
  {
    hide Fold, Score;
  }

  /** A pick among all windows is the renumbered pick among the executable's own windows. */
  lemma PickIsLocal(tx: Locale, p: Pass, entries: seq<WindowEntry>, windows: seq<Live>, k: string, ei: seq<nat>,
                    wi: seq<nat>, e: WindowEntry, taken: set<nat>, taken': set<nat>)
    requires Scope(tx, entries, windows, k, ei, wi) && Fold(tx, e.exe) == k
    requires forall y: nat :: y < |wi| ==> (y in taken' <==> wi[y] in taken)
    ensures match Pick(tx, p, e, Sub(windows, wi), taken', |wi|)
      case None => Pick(tx, p, e, windows, taken, |windows|).None?
      case Some(y) => y < |wi| && Pick(tx, p, e, windows, taken, |windows|) == Some(wi[y])
  {
    hide Pick, Open, Score, Fold, ExeKeys, WindowExeKeys;
    var few := Sub(windows, wi);
    PickIsBest(tx, p, e, windows, taken, |windows|);
    PickIsBest(tx, p, e, few, taken', |wi|);
    OpenIsLocal(tx, p, entries, windows, k, ei, wi, e, taken, taken');
    var best, best' := Pick(tx, p, e, windows, taken, |windows|), Pick(tx, p, e, few, taken', |wi|);
    if best.Some? {
      var y: nat :| y < |wi| && wi[y] == best.value;
      assert Open(tx, p, e, few, taken', y);
      BestTransfers(tx, p, e, windows, wi, taken, taken', best'.value);
      BestIsUnique(tx, p, e, windows, taken, best.value, wi[best'.value]);
    }
  }

  lemma BestTransfers(tx: Locale, p: Pass, e: WindowEntry, windows: seq<Live>, wi: seq<nat>, taken: set<nat>,
                      taken': set<nat>, y: nat)
    requires forall x, x' :: 0 <= x < x' < |wi| ==> wi[x] < wi[x']
    requires forall x :: 0 <= x < |wi| ==> wi[x] < |windows|
    requires forall x: nat :: x < |wi| ==>
      (Open(tx, p, e, Sub(windows, wi), taken', x) <==> Open(tx, p, e, windows, taken, wi[x]))
    requires forall j: nat :: Open(tx, p, e, windows, taken, j) ==> j in wi
    requires y < |wi| && IsBest(tx, p, e, Sub(windows, wi), taken', |wi|, y)
    ensures IsBest(tx, p, e, windows, taken, |windows|, wi[y])
  {
    hide Open, Score;
    forall j: nat | j < |windows| && Open(tx, p, e, windows, taken, j)
      ensures || Score(tx, p, e, windows[j]) < Score(tx, p, e, windows[wi[y]])
              || (Score(tx, p, e, windows[j]) == Score(tx, p, e, windows[wi[y]]) && wi[y] <= j)
    {
      var x: nat :| x < |wi| && wi[x] == j;
      assert Open(tx, p, e, Sub(windows, wi), taken', x);
    }
  }

  /** One step on an entry of the executable. */
  lemma StepIsLocal(tx: Locale, p: Pass, entries: seq<WindowEntry>, windows: seq<Live>, k: string, ei: seq<nat>,
                    wi: seq<nat>, big: map<nat, nat>, small: map<nat, nat>, x: nat)
    requires Scope(tx, entries, windows, k, ei, wi) && x < |ei|
    requires IsAssignment(tx, entries, windows, big) && Restricts(big, small, ei, wi)
    ensures Restricts(Step(tx, p, entries, windows, big, ei[x]),
      Step(tx, p, Sub(entries, ei), Sub(windows, wi), small, x), ei, wi)
  {
    hide Pick, Fold, IsAssignment, Restricts;
    InScope(tx, entries, windows, k, ei, wi, big, small);
    forall y: nat | y < |wi| ensures y in small.Values <==> wi[y] in big.Values {
      SameTaken(tx, entries, windows, k, ei, wi, big, small, y);
    }
    PickIsLocal(tx, p, entries, windows, k, ei, wi, entries[ei[x]], big.Values, small.Values);
    var best := Pick(tx, p, entries[ei[x]], Sub(windows, wi), small.Values, |wi|);
    if x !in small && best.Some? {
      RestrictsUpdate(big, small, ei, wi, x, best.value);
    }
  }

  lemma InScope(tx: Locale, entries: seq<WindowEntry>, windows: seq<Live>, k: string, ei: seq<nat>, wi: seq<nat>,
                big: map<nat, nat>, small: map<nat, nat>)
    requires Scope(tx, entries, windows, k, ei, wi) && Restricts(big, small, ei, wi)
    ensures forall x :: 0 <= x < |ei| ==> ei[x] < |entries| && Fold(tx, entries[ei[x]].exe) == k
    ensures forall x: nat :: x < |ei| ==> (x in small <==> ei[x] in big)
  {
    hide Fold;
  }

  lemma RestrictsUpdate(big: map<nat, nat>, small: map<nat, nat>, ei: seq<nat>, wi: seq<nat>, x: nat, y: nat)
    requires Restricts(big, small, ei, wi) && x < |ei| && y < |wi| && x !in small
    requires forall x, y :: 0 <= x < y < |ei| ==> ei[x] < ei[y]
    ensures Restricts(big[ei[x] := wi[y]], small[x := y], ei, wi)
  {}

  /** One step on an entry of another executable. */
  lemma StepElsewhere(tx: Locale, p: Pass, entries: seq<WindowEntry>, windows: seq<Live>, ei: seq<nat>, wi: seq<nat>,
                      big: map<nat, nat>, small: map<nat, nat>, i: nat)
    requires i < |entries| && i !in ei && Restricts(big, small, ei, wi)
    ensures Restricts(Step(tx, p, entries, windows, big, i), small, ei, wi)
  {
    hide Pick;
  }

  lemma {:induction false} RunIsLocal(tx: Locale, p: Pass, entries: seq<WindowEntry>, windows: seq<Live>, k: string,
                                      ei: seq<nat>, wi: seq<nat>, big: map<nat, nat>, small: map<nat, nat>, n: nat,
                                      x: nat)
    requires Scope(tx, entries, windows, k, ei, wi) && n <= |entries| && x <= |ei|
    requires forall y :: 0 <= y < |ei| ==> (y < x <==> ei[y] < n)
    requires IsAssignment(tx, entries, windows, big) && Restricts(big, small, ei, wi)
    ensures Restricts(Run(tx, p, entries, windows, big, n), Run(tx, p, Sub(entries, ei), Sub(windows, wi), small, x),
      ei, wi)
    decreases n
  {
    hide Step, Restricts, IsAssignment, ExeKeys, WindowExeKeys, Sub;
    if n == 0 {
      assert x == 0;
    } else {
      RunFacts(tx, p, entries, windows, big, n - 1);
      var before := Run(tx, p, entries, windows, big, n - 1);
      if x > 0 && ei[x - 1] == n - 1 {
        RunIsLocal(tx, p, entries, windows, k, ei, wi, big, small, n - 1, x - 1);
        StepIsLocal(tx, p, entries, windows, k, ei, wi, before,
          Run(tx, p, Sub(entries, ei), Sub(windows, wi), small, x - 1), x - 1);
      } else {
        RunIsLocal(tx, p, entries, windows, k, ei, wi, big, small, n - 1, x);
        StepElsewhere(tx, p, entries, windows, ei, wi, before, Run(tx, p, Sub(entries, ei), Sub(windows, wi), small, x),
          n - 1);
      }
    }
  }

  /** Locality: removing every entry and window of every other executable changes nothing but the numbering. */
  lemma MatchingIsLocal(tx: Locale, entries: seq<WindowEntry>, windows: seq<Live>, k: string)
    ensures var ei, wi := IndicesOf(ExeKeys(tx, entries), k), IndicesOf(WindowExeKeys(tx, windows), k);
      Restricts(Assign(tx, entries, windows), Assign(tx, Sub(entries, ei), Sub(windows, wi)), ei, wi)
  {
    hide Run, Restricts, ExeKeys, WindowExeKeys, Sub;
    var ei, wi := IndicesOf(ExeKeys(tx, entries), k), IndicesOf(WindowExeKeys(tx, windows), k);
    var few, small := Sub(entries, ei), Sub(windows, wi);
    NothingRestricts(ei, wi);
    AssignIsPairing(tx, entries, windows);
    RunIsLocal(tx, Exact, entries, windows, k, ei, wi, map[], map[], |entries|, |ei|);
    RunIsLocal(tx, Similar, entries, windows, k, ei, wi, AfterExact(tx, entries, windows), AfterExact(tx, few, small),
      |entries|, |ei|);
    RunIsLocal(tx, Ordinal, entries, windows, k, ei, wi, AfterSimilar(tx, entries, windows),
      AfterSimilar(tx, few, small), |entries|, |ei|);
  }

  lemma NothingRestricts(ei: seq<nat>, wi: seq<nat>)
    ensures Restricts(map[], map[], ei, wi)
  {}

  // ---- the ordinal pass ----

  lemma {:induction false} RunExtends(tx: Locale, p: Pass, entries: seq<WindowEntry>, windows: seq<Live>,
                                      m: map<nat, nat>, n: nat, n': nat)
    requires n <= n' <= |entries| && IsAssignment(tx, entries, windows, m)
    ensures var before, after := Run(tx, p, entries, windows, m, n), Run(tx, p, entries, windows, m, n');
      Extends(before, after) && before.Values <= after.Values
    decreases n'
  {
    hide Step, IsAssignment;
    if n < n' {
      RunExtends(tx, p, entries, windows, m, n, n' - 1);
      RunFacts(tx, p, entries, windows, m, n' - 1);
      StepFacts(tx, p, entries, windows, Run(tx, p, entries, windows, m, n' - 1), n' - 1);
    }
  }

  /** j is the first window of the entry's executable that is not taken. */
  ghost predicate IsFirstFree(tx: Locale, e: WindowEntry, windows: seq<Live>, taken: set<nat>, j: nat) {
    && j < |windows| && j !in taken && Fold(tx, windows[j].exe) == Fold(tx, e.exe)
    && forall k: nat :: k < j ==> k in taken || Fold(tx, windows[k].exe) != Fold(tx, e.exe)
  }

  lemma BestIsFirstFree(tx: Locale, e: WindowEntry, windows: seq<Live>, taken: set<nat>, j: nat)
    requires IsBest(tx, Ordinal, e, windows, taken, |windows|, j)
    ensures IsFirstFree(tx, e, windows, taken, j)
  {
    hide Fold;
    forall k: nat | k < j && k !in taken ensures Fold(tx, windows[k].exe) != Fold(tx, e.exe) {
      assert Open(tx, Ordinal, e, windows, taken, k) ==> j <= k;
    }
  }

  /** What the ordinal pass gave entry i was the first free window of its executable at that moment. */
  lemma OrdinalTakesFirstFree(tx: Locale, entries: seq<WindowEntry>, windows: seq<Live>, i: nat)
    requires i < |entries| && i in Assign(tx, entries, windows) && i !in AfterSimilar(tx, entries, windows)
    ensures var start := AfterSimilar(tx, entries, windows);
      var before := Run(tx, Ordinal, entries, windows, start, i);
      var after := Run(tx, Ordinal, entries, windows, start, i + 1);
      && i in after && after[i] == Assign(tx, entries, windows)[i]
      && IsFirstFree(tx, entries[i], windows, before.Values, after[i])
  {
    hide Step, IsAssignment, IsBest, IsFirstFree, AfterSimilar, Exhausted;
    var start := AfterSimilar(tx, entries, windows);
    AssignIsPairing(tx, entries, windows);
    RunFacts(tx, Ordinal, entries, windows, start, i);
    RunFacts(tx, Ordinal, entries, windows, start, i + 1);
    StepFacts(tx, Ordinal, entries, windows, Run(tx, Ordinal, entries, windows, start, i), i);
    RunExtends(tx, Ordinal, entries, windows, start, i + 1, |entries|);
    RunKeysBelow(tx, Ordinal, entries, windows, start, i);
    StaysUnpaired(tx, entries, windows, start, i);
    BestIsFirstFree(tx, entries[i], windows, Run(tx, Ordinal, entries, windows, start, i).Values,
                    Run(tx, Ordinal, entries, windows, start, i + 1)[i]);
  }

  lemma RunKeysBelow(tx: Locale, p: Pass, entries: seq<WindowEntry>, windows: seq<Live>, m: map<nat, nat>, i: nat)
    requires i < |entries| && IsAssignment(tx, entries, windows, m) && i !in m
    ensures i !in Run(tx, p, entries, windows, m, i)
  {
    hide Run, IsAssignment, Exhausted;
    RunFacts(tx, p, entries, windows, m, i);
  }

  /** An entry its own step left unpaired stays unpaired. */
  lemma {:induction false} LaterStepsSkip(tx: Locale, p: Pass, entries: seq<WindowEntry>, windows: seq<Live>,
                                          m: map<nat, nat>, i: nat, n: nat)
    requires i < n <= |entries| && IsAssignment(tx, entries, windows, m)
    requires i !in Run(tx, p, entries, windows, m, i + 1)
    ensures i !in Run(tx, p, entries, windows, m, n)
    decreases n
  {
    hide Step, IsAssignment;
    if n > i + 1 {
      LaterStepsSkip(tx, p, entries, windows, m, i, n - 1);
      RunFacts(tx, p, entries, windows, m, n - 1);
      StepFacts(tx, p, entries, windows, Run(tx, p, entries, windows, m, n - 1), n - 1);
    }
  }

  lemma StaysUnpaired(tx: Locale, entries: seq<WindowEntry>, windows: seq<Live>, start: map<nat, nat>, i: nat)
    requires i < |entries| && IsAssignment(tx, entries, windows, start)
    requires i in Run(tx, Ordinal, entries, windows, start, |entries|)
    ensures i in Run(tx, Ordinal, entries, windows, start, i + 1)
  {
    hide Run, IsAssignment;
    if i !in Run(tx, Ordinal, entries, windows, start, i + 1) {
      LaterStepsSkip(tx, Ordinal, entries, windows, start, i, |entries|);
    }
  }

  /** Entries of one executable that only the ordinal pass could place take windows in strictly increasing order. */
  lemma OrdinalsKeepOrder(tx: Locale, entries: seq<WindowEntry>, windows: seq<Live>, i: nat, i': nat)
    requires i < i' < |entries| && EqualFold(tx, entries[i].exe, entries[i'].exe)
    requires i in Assign(tx, entries, windows) && i !in AfterSimilar(tx, entries, windows)
    requires i' in Assign(tx, entries, windows) && i' !in AfterSimilar(tx, entries, windows)
    ensures Assign(tx, entries, windows)[i] < Assign(tx, entries, windows)[i']
  {
    hide Run, IsAssignment, AfterSimilar, IsFirstFree, Fold;
    var start := AfterSimilar(tx, entries, windows);
    AssignIsPairing(tx, entries, windows);
    OrdinalTakesFirstFree(tx, entries, windows, i);
    OrdinalTakesFirstFree(tx, entries, windows, i');
    RunExtends(tx, Ordinal, entries, windows, start, i, i');
    RunExtends(tx, Ordinal, entries, windows, start, i + 1, i');
    FirstFreeIncreases(tx, entries[i], entries[i'], windows,
                       Run(tx, Ordinal, entries, windows, start, i).Values,
                         Run(tx, Ordinal, entries, windows, start, i').Values,
                       Assign(tx, entries, windows)[i], Assign(tx, entries, windows)[i']);
  }

  lemma FirstFreeIncreases(tx: Locale, e: WindowEntry, e': WindowEntry, windows: seq<Live>, taken: set<nat>,
                           taken': set<nat>, j: nat, j': nat)
    requires EqualFold(tx, e.exe, e'.exe) && taken <= taken' && j in taken'
    requires IsFirstFree(tx, e, windows, taken, j) && IsFirstFree(tx, e', windows, taken', j')
    ensures j < j'
  {
    hide Fold;
  }
}
