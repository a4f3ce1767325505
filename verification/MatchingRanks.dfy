/** Pass 1, declaratively: among the windows of one executable and title, the n-th entry gets the n-th window. */
module MatchingRanks {
  import opened Types
  import opened Text
  import opened Matching
  import opened MatchingTheorems

  /** How often k occurs among the first n keys. */
  function Rank<K(==)>(keys: seq<K>, n: nat, k: K): nat
    requires n <= |keys|
  {
    if n == 0 then 0 else Rank(keys, n - 1, k) + if keys[n - 1] == k then 1 else 0
  }

  lemma {:induction false} RankGrows<K>(keys: seq<K>, i: nat, j: nat, k: K)
    requires i <= j <= |keys|
    ensures Rank(keys, i, k) <= Rank(keys, j, k)
    ensures i < j && keys[i] == k ==> Rank(keys, i, k) < Rank(keys, j, k)
    decreases j
  {
    if i < j {
      RankGrows(keys, i, j - 1, k);
    }
  }

  /** Every rank below the count belongs to some position. */
  lemma {:induction false} RankIsTaken<K>(keys: seq<K>, n: nat, k: K, rank: nat) returns (i: nat)
    requires n <= |keys| && rank < Rank(keys, n, k)
    ensures i < n && keys[i] == k && Rank(keys, i, k) == rank
  {
    if keys[n - 1] == k && rank == Rank(keys, n - 1, k) {
      i := n - 1;
    } else {
      i := RankIsTaken(keys, n - 1, k, rank);
    }
  }

  /** Entry i and window j have the same executable and title, and as many of these come before the one as before the
      other. */
  ghost predicate SameRank(tx: Locale, entries: seq<WindowEntry>, windows: seq<Live>, i: nat, j: nat) {
    var ek, wk := ExactKeys(tx, entries), WindowExactKeys(tx, windows);
    i < |entries| && j < |windows| && ek[i] == wk[j] && Rank(ek, i, ek[i]) == Rank(wk, j, ek[i])
  }

  /** The assignment pairs the first n entries by rank and nothing else. */
  ghost predicate PairsByRank(tx: Locale, entries: seq<WindowEntry>, windows: seq<Live>, m: map<nat, nat>, n: nat) {
    && (forall i :: i in m ==> i < n && SameRank(tx, entries, windows, i, m[i]))
    && (forall i: nat, j: nat :: i < n && SameRank(tx, entries, windows, i, j) ==> i in m && m[i] == j)
  }

  lemma SameRankIsUnique(tx: Locale, entries: seq<WindowEntry>, windows: seq<Live>, i: nat, j: nat, j': nat)
    requires SameRank(tx, entries, windows, i, j) && SameRank(tx, entries, windows, i, j')
    ensures j == j'
  {
    hide ExactKeys, WindowExactKeys;
    var wk := WindowExactKeys(tx, windows);
    if j < j' {
      RankGrows(wk, j, j', wk[j]);
    } else if j' < j {
      RankGrows(wk, j', j, wk[j]);
    }
  }

  /** Before entry n's turn, a window of its key is taken exactly when its rank is below the entry's. */
  lemma TakenIffLower(tx: Locale, entries: seq<WindowEntry>, windows: seq<Live>, m: map<nat, nat>, n: nat, j: nat)
    requires n < |entries| && j < |windows| && PairsByRank(tx, entries, windows, m, n)
    requires ExactKeys(tx, entries)[n] == WindowExactKeys(tx, windows)[j]
    ensures j in m.Values <==>
      Rank(WindowExactKeys(tx, windows), j, ExactKeys(tx, entries)[n])
      < Rank(ExactKeys(tx, entries), n, ExactKeys(tx, entries)[n])
  {
    hide ExactKeys, WindowExactKeys, Rank;
    var ek, wk := ExactKeys(tx, entries), WindowExactKeys(tx, windows);
    if j in m.Values {
      var i :| i in m && m[i] == j;
      assert SameRank(tx, entries, windows, i, j);
      RankGrows(ek, i, n, ek[n]);
    }
    if Rank(wk, j, ek[n]) < Rank(ek, n, ek[n]) {
      var i := RankIsTaken(ek, n, ek[n], Rank(wk, j, ek[n]));
      assert SameRank(tx, entries, windows, i, j);
    }
  }

  /** The first window of an entry's key that is not taken is the one of the same rank. */
  lemma FirstFreeHasRank(tx: Locale, entries: seq<WindowEntry>, windows: seq<Live>, m: map<nat, nat>, n: nat, j: nat)
    requires n < |entries| && PairsByRank(tx, entries, windows, m, n)
    requires IsBest(tx, Exact, entries[n], windows, m.Values, |windows|, j)
    ensures SameRank(tx, entries, windows, n, j)
  {
    hide ExactKeys, WindowExactKeys, Rank, PairsByRank, Fold;
    var ek, wk := ExactKeys(tx, entries), WindowExactKeys(tx, windows);
    TakenIffLower(tx, entries, windows, m, n, j);
    if Rank(ek, n, ek[n]) < Rank(wk, j, ek[n]) {
      var k := RankIsTaken(wk, j, ek[n], Rank(ek, n, ek[n]));
      TakenIffLower(tx, entries, windows, m, n, k);
    }
  }

  lemma SameRankIsOpen(tx: Locale, entries: seq<WindowEntry>, windows: seq<Live>, m: map<nat, nat>, n: nat, j: nat)
    requires n < |entries| && PairsByRank(tx, entries, windows, m, n) && SameRank(tx, entries, windows, n, j)
    ensures Open(tx, Exact, entries[n], windows, m.Values, j)
  {
    hide ExactKeys, WindowExactKeys, Rank, PairsByRank, Fold;
    TakenIffLower(tx, entries, windows, m, n, j);
  }

  lemma StepPairsByRank(tx: Locale, entries: seq<WindowEntry>, windows: seq<Live>, m: map<nat, nat>, n: nat)
    requires n < |entries| && PairsByRank(tx, entries, windows, m, n)
    ensures PairsByRank(tx, entries, windows, Step(tx, Exact, entries, windows, m, n), n + 1)
  {
    hide Pick, IsBest, Open, SameRank;
    PickIsBest(tx, Exact, entries[n], windows, m.Values, |windows|);
    match Pick(tx, Exact, entries[n], windows, m.Values, |windows|)
    case None =>
      forall j: nat ensures !SameRank(tx, entries, windows, n, j) {
        if SameRank(tx, entries, windows, n, j) {
          SameRankIsOpen(tx, entries, windows, m, n, j);
          OpenIsInRange(tx, Exact, entries[n], windows, m.Values, j);
        }
      }
    case Some(j) =>
      FirstFreeHasRank(tx, entries, windows, m, n, j);
      forall j': nat | SameRank(tx, entries, windows, n, j') ensures j' == j {
        SameRankIsUnique(tx, entries, windows, n, j, j');
      }
  }

  lemma OpenIsInRange(tx: Locale, p: Pass, e: WindowEntry, windows: seq<Live>, taken: set<nat>, j: nat)
    requires Open(tx, p, e, windows, taken, j)
    ensures j < |windows|
  {}

  lemma {:induction false} RunPairsByRank(tx: Locale, entries: seq<WindowEntry>, windows: seq<Live>, n: nat)
    requires n <= |entries|
    ensures PairsByRank(tx, entries, windows, Run(tx, Exact, entries, windows, map[], n), n)
  {
    hide Step, SameRank;
    if n > 0 {
      RunPairsByRank(tx, entries, windows, n - 1);
      StepPairsByRank(tx, entries, windows, Run(tx, Exact, entries, windows, map[], n - 1), n - 1);
    }
  }

  /** Pass 1 pairs entry i with window j exactly when the two have one executable, one title and one rank. */
  lemma ExactPassPairsByRank(tx: Locale, entries: seq<WindowEntry>, windows: seq<Live>, i: nat, j: nat)
    ensures i in AfterExact(tx, entries, windows) && AfterExact(tx, entries, windows)[i] == j
       <==> SameRank(tx, entries, windows, i, j)
  {
    hide Run;
    RunPairsByRank(tx, entries, windows, |entries|);
  }
}
