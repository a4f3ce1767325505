/** The edit distance behind title similarity: the two-row dynamic program, and a
    proof that it is the least number of single-character edits. */
module Levenshtein {

  /** The distance between the first i characters of a and the first j of b. */
  function Dist(a: string, b: string, i: nat, j: nat): (d: nat)
    requires i <= |a| && j <= |b|
    decreases i + j
  {
    if i == 0 then j
    else if j == 0 then i
    else Min3(Dist(a, b, i, j - 1) + 1, Dist(a, b, i - 1, j) + 1, Dist(a, b, i - 1, j - 1) + Cost(a, b, i, j))
  }

  lemma {:induction false} DistStep(a: string, b: string, i: nat, j: nat)
    requires 0 < i <= |a| && 0 < j <= |b|
    ensures Dist(a, b, i, j) ==
            Min3(Dist(a, b, i, j - 1) + 1, Dist(a, b, i - 1, j) + 1, Dist(a, b, i - 1, j - 1) + Cost(a, b, i, j))
  {}

  lemma {:induction false} DistEdge(a: string, b: string, i: nat, j: nat)
    requires i <= |a| && j <= |b|
    ensures i == 0 ==> Dist(a, b, i, j) == j
    ensures j == 0 ==> Dist(a, b, i, j) == i
  {}

  function Cost(a: string, b: string, i: nat, j: nat): nat
    requires 0 < i <= |a| && 0 < j <= |b|
  {
    if a[i - 1] == b[j - 1] then 0 else 1
  }

  function Min3(a: nat, b: nat, c: nat): nat {
    var m := if b < a then b else a;
    if c < m then c else m
  }

  function Distance(a: string, b: string): nat {
    Dist(a, b, |a|, |b|)
  }

  /** The two-row program: `prev` is the finished row i - 1, `curr` the one being filled, and the
      buffers change places after every row. */
  method Compute(a: string, b: string) returns (d: nat)
    ensures d == Distance(a, b)
  {
    hide Dist;
    var prev := new nat[|b| + 1];
    var curr := new nat[|b| + 1];
    for j := 0 to |b| + 1
      invariant forall k :: 0 <= k < j ==> prev[k] == Dist(a, b, 0, k)
    {
      DistEdge(a, b, 0, j);
      prev[j] := j;
    }
    for i := 1 to |a| + 1
      invariant prev != curr && prev.Length == curr.Length == |b| + 1
      invariant fresh(prev) && fresh(curr)
      invariant forall k :: 0 <= k <= |b| ==> prev[k] == Dist(a, b, i - 1, k)
    {
      DistEdge(a, b, i, 0);
      curr[0] := i;
      for j := 1 to |b| + 1
        invariant forall k :: 0 <= k < j ==> curr[k] == Dist(a, b, i, k)
        invariant forall k :: 0 <= k <= |b| ==> prev[k] == Dist(a, b, i - 1, k)
      {
        var cost := if a[i - 1] == b[j - 1] then 0 else 1;
        DistStep(a, b, i, j);
        curr[j] := Min3(curr[j - 1] + 1, prev[j] + 1, prev[j - 1] + cost);
      }
      prev, curr := curr, prev;
    }
    return prev[|b|];
  }

  // ---- the distance is a metric bounded by the longer string ----

  lemma {:induction false} DistBounds(a: string, b: string, i: nat, j: nat)
    requires i <= |a| && j <= |b|
    ensures i - j <= Dist(a, b, i, j) && j - i <= Dist(a, b, i, j)
    ensures Dist(a, b, i, j) <= if i < j then j else i
    decreases i + j
  {
    hide Dist;
    DistEdge(a, b, i, j);
    if i > 0 && j > 0 {
      DistStep(a, b, i, j);
      DistBounds(a, b, i, j - 1);
      DistBounds(a, b, i - 1, j);
      DistBounds(a, b, i - 1, j - 1);
    }
  }

  lemma {:induction false} DistSymmetric(a: string, b: string, i: nat, j: nat)
    requires i <= |a| && j <= |b|
    ensures Dist(a, b, i, j) == Dist(b, a, j, i)
    decreases i + j
  {
    hide Dist;
    DistEdge(a, b, i, j);
    DistEdge(b, a, j, i);
    if i > 0 && j > 0 {
      DistSymmetric(a, b, i, j - 1);
      DistSymmetric(a, b, i - 1, j);
      DistSymmetric(a, b, i - 1, j - 1);
      DistStep(a, b, i, j);
      DistStep(b, a, j, i);
    }
  }

  lemma {:induction false} DistZero(a: string, b: string, i: nat, j: nat)
    requires i <= |a| && j <= |b|
    ensures Dist(a, b, i, j) == 0 <==> a[..i] == b[..j]
    decreases i + j
  {
    hide Dist;
    DistEdge(a, b, i, j);
    if i > 0 && j > 0 {
      DistStep(a, b, i, j);
      DistZero(a, b, i - 1, j - 1);
      assert a[..i] == a[..i - 1] + [a[i - 1]];
      assert b[..j] == b[..j - 1] + [b[j - 1]];
    }
  }

  lemma {:induction false} DistTriangle(a: string, b: string, c: string, i: nat, j: nat, k: nat)
    requires i <= |a| && j <= |b| && k <= |c|
    ensures Dist(a, c, i, k) <= Dist(a, b, i, j) + Dist(b, c, j, k)
    decreases i + j + k
  {
    hide Dist;
    DistEdge(a, b, i, j);
    DistEdge(b, c, j, k);
    DistEdge(a, c, i, k);
    if i == 0 {
      DistBounds(b, c, j, k);
    } else if k == 0 {
      DistBounds(a, b, i, j);
    } else if j == 0 {
      DistBounds(a, c, i, k);
    } else {
      DistStep(a, b, i, j);
      DistStep(b, c, j, k);
      DistStep(a, c, i, k);
      DistTriangle(a, b, c, i - 1, j, k);
      DistTriangle(a, b, c, i, j, k - 1);
      DistTriangle(a, b, c, i, j - 1, k);
      DistTriangle(a, b, c, i - 1, j - 1, k - 1);
      DistTriangle(a, b, c, i, j - 1, k - 1);
      DistTriangle(a, b, c, i - 1, j - 1, k);
    }
  }

  /** Levenshtein distance is a metric on titles, never above the longer length. */
  lemma Metric(a: string, b: string, c: string)
    ensures Distance(a, b) == 0 <==> a == b
    ensures Distance(a, b) == Distance(b, a)
    ensures Distance(a, c) <= Distance(a, b) + Distance(b, c)
    ensures Distance(a, b) <= if |a| < |b| then |b| else |a|
  {
    DistZero(a, b, |a|, |b|);
    assert a[..|a|] == a && b[..|b|] == b;
    DistSymmetric(a, b, |a|, |b|);
    DistTriangle(a, b, c, |a|, |b|, |c|);
    DistBounds(a, b, |a|, |b|);
  }

  // ---- the distance is the length of a shortest edit script ----

  datatype Edit = Insert(at: nat, c: char) | Delete(at: nat) | Substitute(at: nat, c: char)

  predicate Applies(e: Edit, s: string) {
    match e
    case Insert(at, _) => at <= |s|
    case Delete(at) => at < |s|
    case Substitute(at, _) => at < |s|
  }

  function Apply(e: Edit, s: string): string
    requires Applies(e, s)
  {
    match e
    case Insert(at, c) => s[..at] + [c] + s[at..]
    case Delete(at) => s[..at] + s[at + 1..]
    case Substitute(at, c) => s[..at] + [c] + s[at + 1..]
  }

  /** A script of edits, applied left to right, turns s into t. */
  predicate Transforms(script: seq<Edit>, s: string, t: string) {
    if script == [] then s == t
    else Applies(script[0], s) && Transforms(script[1..], Apply(script[0], s), t)
  }

  // Prepending x to both strings or appending the same suffix only shifts positions; two helper facts
  // say how the distance moves along a common prefix.

  lemma {:induction false} DistPrefix(a: string, b: string, a': string, b': string, i: nat, j: nat)
    requires i <= |a| && j <= |b| && i <= |a'| && j <= |b'|
    requires a[..i] == a'[..i] && b[..j] == b'[..j]
    ensures Dist(a, b, i, j) == Dist(a', b', i, j)
    decreases i + j
  {
    hide Dist;
    DistEdge(a, b, i, j);
    DistEdge(a', b', i, j);
    if i > 0 && j > 0 {
      DistStep(a, b, i, j);
      DistStep(a', b', i, j);
      assert a[i - 1] == a[..i][i - 1] == a'[i - 1];
      assert b[j - 1] == b[..j][j - 1] == b'[j - 1];
      assert a[..i - 1] == a[..i][..i - 1] == a'[..i - 1];
      assert b[..j - 1] == b[..j][..j - 1] == b'[..j - 1];
      DistPrefix(a, b, a', b', i, j - 1);
      DistPrefix(a, b, a', b', i - 1, j);
      DistPrefix(a, b, a', b', i - 1, j - 1);
    }
  }

  /** Appending one common character, or one character on either side, changes the distance by at most the step's
      cost. */
  lemma AppendSteps(a: string, b: string, x: char, y: char)
    ensures Distance(a + [x], b) <= Distance(a, b) + 1
    ensures Distance(a, b + [y]) <= Distance(a, b) + 1
    ensures Distance(a + [x], b + [y]) <= Distance(a, b) + if x == y then 0 else 1
  {
    var a', b' := a + [x], b + [y];
    DistPrefix(a, b, a', b, |a|, |b|);
    DistPrefix(a, b, a, b', |a|, |b|);
    DistPrefix(a, b, a', b', |a|, |b|);
  }

  lemma {:induction false} CommonSuffix(a: string, b: string, t: string)
    ensures Distance(a + t, b + t) <= Distance(a, b)
    decreases |t|
  {
    if t == [] {
      assert a + t == a && b + t == b;
    } else {
      var n := |t| - 1;
      CommonSuffix(a, b, t[..n]);
      AppendSteps(a + t[..n], b + t[..n], t[n], t[n]);
      assert a + t == a + t[..n] + [t[n]] && b + t == b + t[..n] + [t[n]];
    }
  }

  lemma OneEditIsNear(e: Edit, s: string)
    requires Applies(e, s)
    ensures Distance(s, Apply(e, s)) <= 1
  {
    var p := s[..e.at];
    Metric(p, p, p);
    match e
    case Insert(at, c) =>
      AppendSteps(p, p, c, c);
      CommonSuffix(p, p + [c], s[at..]);
      assert s == p + s[at..];
    case Delete(at) =>
      AppendSteps(p, p, s[at], s[at]);
      CommonSuffix(p + [s[at]], p, s[at + 1..]);
      assert s == p + [s[at]] + s[at + 1..];
    case Substitute(at, c) =>
      AppendSteps(p, p, s[at], c);
      CommonSuffix(p + [s[at]], p + [c], s[at + 1..]);
      assert s == p + [s[at]] + s[at + 1..];
  }

  lemma {:induction false} NoScriptIsShorter(script: seq<Edit>, s: string, t: string)
    requires Transforms(script, s, t)
    ensures Distance(s, t) <= |script|
    decreases |script|
  {
    if script == [] {
      Metric(s, t, t);
    } else {
      var s' := Apply(script[0], s);
      OneEditIsNear(script[0], s);
      NoScriptIsShorter(script[1..], s', t);
      Metric(s, s', t);
    }
  }

  lemma ApplyUnderSuffix(e: Edit, s: string, u: string)
    requires Applies(e, s)
    ensures Applies(e, s + u) && Apply(e, s + u) == Apply(e, s) + u
  {
    assert (s + u)[..e.at] == s[..e.at];
    assert (s + u)[e.at..] == s[e.at..] + u;
    if !e.Insert? {
      assert (s + u)[e.at + 1..] == s[e.at + 1..] + u;
    }
  }

  /** Replays a script below a common suffix. */
  lemma {:induction false} ScriptUnderSuffix(script: seq<Edit>, s: string, t: string, u: string)
    requires Transforms(script, s, t)
    ensures Transforms(script, s + u, t + u)
    decreases |script|
  {
    if script != [] {
      ApplyUnderSuffix(script[0], s, u);
      ScriptUnderSuffix(script[1..], Apply(script[0], s), t, u);
    }
  }

  lemma {:induction false} ScriptSnoc(script: seq<Edit>, s: string, t: string, e: Edit)
    requires Transforms(script, s, t) && Applies(e, t)
    ensures Transforms(script + [e], s, Apply(e, t))
    decreases |script|
  {
    if script == [] {
      assert (script + [e])[1..] == [];
    } else {
      ScriptSnoc(script[1..], Apply(script[0], s), t, e);
      assert (script + [e])[1..] == script[1..] + [e];
    }
  }

  function Prefix(a: string, i: nat): string
    requires i <= |a|
  {
    a[..i]
  }

  lemma PrefixSnoc(a: string, i: nat)
    requires 0 < i <= |a|
    ensures Prefix(a, i) == Prefix(a, i - 1) + [a[i - 1]]
  {}

  lemma {:induction false} ShortestScript(a: string, b: string, i: nat, j: nat) returns (script: seq<Edit>)
    requires i <= |a| && j <= |b|
    ensures Transforms(script, Prefix(a, i), Prefix(b, j)) && |script| == Dist(a, b, i, j)
    decreases i + j
  {
    hide Dist, Transforms, Prefix;
    if i == 0 && j == 0 {
      DistEdge(a, b, 0, 0);
      EmptyScript(a, b);
      script := [];
    } else {
      SomeStepIsTight(a, b, i, j);
      if i > 0 && Dist(a, b, i, j) == Dist(a, b, i - 1, j) + 1 {
        var rest := ShortestScript(a, b, i - 1, j);
        PrefixSnoc(a, i);
        script := DropLast(rest, Prefix(a, i - 1), Prefix(b, j), a[i - 1]);
      } else if j > 0 && Dist(a, b, i, j) == Dist(a, b, i, j - 1) + 1 {
        var rest := ShortestScript(a, b, i, j - 1);
        PrefixSnoc(b, j);
        script := AddLast(rest, Prefix(a, i), Prefix(b, j - 1), b[j - 1]);
      } else {
        var rest := ShortestScript(a, b, i - 1, j - 1);
        PrefixSnoc(a, i);
        PrefixSnoc(b, j);
        script := ChangeLast(rest, Prefix(a, i - 1), Prefix(b, j - 1), a[i - 1], b[j - 1]);
      }
    }
  }

  lemma EmptyScript(a: string, b: string)
    ensures Transforms([], Prefix(a, 0), Prefix(b, 0))
  {}

  lemma {:induction false} SomeStepIsTight(a: string, b: string, i: nat, j: nat)
    requires i <= |a| && j <= |b| && (i > 0 || j > 0)
    ensures || (i > 0 && Dist(a, b, i, j) == Dist(a, b, i - 1, j) + 1)
            || (j > 0 && Dist(a, b, i, j) == Dist(a, b, i, j - 1) + 1)
            || (i > 0 && j > 0 && Dist(a, b, i, j) == Dist(a, b, i - 1, j - 1) + Cost(a, b, i, j))
  {}

  lemma DropLast(rest: seq<Edit>, s: string, t: string, x: char) returns (script: seq<Edit>)
    requires Transforms(rest, s, t)
    ensures Transforms(script, s + [x], t) && |script| == |rest| + 1
  {
    script := [Delete(|s|)] + rest;
    assert Apply(script[0], s + [x]) == s;
    assert script[1..] == rest;
  }

  lemma AddLast(rest: seq<Edit>, s: string, t: string, y: char) returns (script: seq<Edit>)
    requires Transforms(rest, s, t)
    ensures Transforms(script, s, t + [y]) && |script| == |rest| + 1
  {
    script := rest + [Insert(|t|, y)];
    ScriptSnoc(rest, s, t, Insert(|t|, y));
    assert Apply(Insert(|t|, y), t) == t + [y];
  }

  /** Extends a script past one more character on both sides, substituting it when they differ. */
  lemma ChangeLast(rest: seq<Edit>, s: string, t: string, x: char, y: char) returns (script: seq<Edit>)
    requires Transforms(rest, s, t)
    ensures Transforms(script, s + [x], t + [y])
    ensures |script| == |rest| + if x == y then 0 else 1
  {
    ScriptUnderSuffix(rest, s, t, [x]);
    script := rest;
    if x != y {
      var e := Substitute(|t|, y);
      ScriptSnoc(rest, s + [x], t + [x], e);
      assert Apply(e, t + [x]) == t + [y];
      script := rest + [e];
    }
  }

  /** The program's result is the least cost over all insert/delete/substitute scripts, and is attained. */
  lemma DistanceIsLeastEditCost(a: string, b: string)
    ensures exists script :: Transforms(script, a, b) && |script| == Distance(a, b)
    ensures forall script :: Transforms(script, a, b) ==> Distance(a, b) <= |script|
  {
    var script := ShortestScript(a, b, |a|, |b|);
    assert a[..|a|] == a && b[..|b|] == b;
    forall other | Transforms(other, a, b) ensures Distance(a, b) <= |other| {
      NoScriptIsShorter(other, a, b);
    }
  }

  // ---- similarity ----

  /** 1 for identical titles, 0 when exactly one is empty, otherwise one minus the distance over the longer length. */
  method ComputeSimilarity(a: string, b: string) returns (r: real)
    ensures r == Similarity(a, b)
  {
    if a == b {
      return 1.0;
    }
    if |a| == 0 || |b| == 0 {
      return 0.0;
    }
    var dist := Compute(a, b);
    var longest := |a|;
    if |b| > longest {
      longest := |b|;
    }
    return 1.0 - dist as real / longest as real;
  }

  function Similarity(a: string, b: string): real {
    if a == b then 1.0
    else if |a| == 0 || |b| == 0 then 0.0
    else 1.0 - Distance(a, b) as real / Longest(a, b) as real
  }

  function Longest(a: string, b: string): nat {
    if |b| > |a| then |b| else |a|
  }

  lemma Fraction(p: nat, q: nat)
    requires q > 0 && p <= q
    ensures 0.0 <= p as real / q as real <= 1.0
    ensures p as real / q as real == 0.0 <==> p == 0
    ensures p as real / q as real == 1.0 <==> p == q
  {
    var f := p as real / q as real;
    assert f * q as real == p as real;
  }

  lemma Threshold(p: nat, q: nat)
    requires q > 0
    ensures 1.0 - p as real / q as real >= 0.6 <==> 5 * p <= 2 * q
  {
    var f, y := p as real / q as real, q as real;
    assert f * y == p as real;
    Scale(f, 0.4, y);
    assert f <= 0.4 <==> p as real <= 0.4 * y;
    WholeThreshold(p, q);
  }

  lemma WholeThreshold(p: nat, q: nat)
    ensures p as real <= 0.4 * q as real <==> 5 * p <= 2 * q
  {
    assert (5 * p) as real == 5.0 * p as real && (2 * q) as real == 2.0 * q as real;
    assert 5 * p <= 2 * q <==> (5 * p) as real <= (2 * q) as real;
  }

  lemma Scale(f: real, g: real, y: real)
    requires y > 0.0
    ensures f <= g <==> f * y <= g * y
  {
    if f <= g {
      assert (g - f) * y >= 0.0;
    } else {
      assert (f - g) * y > 0.0;
    }
  }

  /** Similarity lies in [0, 1], is 1 exactly for equal titles, is symmetric, and clears the 0.6 threshold
      exactly when five times the distance is at most twice the longer length. */
  lemma SimilarityIsNormalized(a: string, b: string)
    ensures 0.0 <= Similarity(a, b) <= 1.0
    ensures Similarity(a, b) == 1.0 <==> a == b
    ensures Similarity(a, b) == Similarity(b, a)
    ensures Similarity(a, b) >= 0.6 <==> 5 * Distance(a, b) <= 2 * Longest(a, b)
  {
    Metric(a, b, b);
    DistBounds(a, b, |a|, |b|);
    if Longest(a, b) > 0 {
      Fraction(Distance(a, b), Longest(a, b));
      Threshold(Distance(a, b), Longest(a, b));
    }
  }
}
