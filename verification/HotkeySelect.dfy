/** Which layouts' combinations should be live, and who already uses one. */
module HotkeySelect {
  import opened Types
  import opened Text
  import opened Sequences
  import opened HotkeyText

  datatype Binding = Binding(layoutID: string, hotkey: Hotkey)
  datatype Problem = Unparseable(layoutID: string, why: ParseError) | Duplicate(layoutID: string, firstID: string)

  /** The combination a layout's stored text stands for, if any. */
  function Stored(tx: Locale, l: Layout): Option<Hotkey> {
    if l.hotkey == "" then None
    else match ParseOf(tx, l.hotkey)
      case Err(_) => None
      case Ok(h) => if IsZero(h) then None else Some(h)
  }

  /** Layout l binds hk in setup fp. */
  predicate Binds(tx: Locale, l: Layout, fp: string, hk: Hotkey) {
    l.setup.fingerprint == fp && Stored(tx, l) == Some(hk)
  }

  /** Layout i is the first of setup fp with its combination. */
  ghost predicate Wins(tx: Locale, layouts: seq<Layout>, fp: string, i: nat)
    requires i < |layouts|
  {
    && layouts[i].setup.fingerprint == fp && Stored(tx, layouts[i]).Some?
    && forall j :: 0 <= j < i ==> !Binds(tx, layouts[j], fp, Stored(tx, layouts[i]).value)
  }

  /** The bindings of the winners among the first n layouts, in store order. */
  ghost function ActiveOf(tx: Locale, layouts: seq<Layout>, fp: string, n: nat): seq<Binding>
    requires n <= |layouts|
  {
    if n == 0 then []
    else ActiveOf(tx, layouts, fp, n - 1)
         + if Wins(tx, layouts, fp, n - 1) then [Binding(layouts[n - 1].id, Stored(tx, layouts[n - 1]).value)] else []
  }

  /** What is wrong with the file, layout by layout. */
  ghost predicate IsProblem(tx: Locale, layouts: seq<Layout>, fp: string, i: nat)
    requires i < |layouts|
  {
    && layouts[i].setup.fingerprint == fp && layouts[i].hotkey != ""
    && (ParseOf(tx, layouts[i].hotkey).Err? || (Stored(tx, layouts[i]).Some? && !Wins(tx, layouts, fp, i)))
  }

  /** The first of the first n layouts to bind hk in setup fp, or n. */
  ghost function FirstBinder(tx: Locale, layouts: seq<Layout>, fp: string, hk: Hotkey, n: nat): (k: nat)
    requires n <= |layouts|
    ensures k <= n
  {
    if n == 0 then 0
    else
      var k := FirstBinder(tx, layouts, fp, hk, n - 1);
      if k == n - 1 && !Binds(tx, layouts[n - 1], fp, hk) then n else k
  }

  ghost predicate IsFirstBinder(tx: Locale, layouts: seq<Layout>, fp: string, hk: Hotkey, n: nat, k: nat)
    requires n <= |layouts|
  {
    && k <= n && (k < n ==> Binds(tx, layouts[k], fp, hk))
    && forall j :: 0 <= j < k ==> !Binds(tx, layouts[j], fp, hk)
  }

  lemma {:induction false} FirstBinderIsFirst(tx: Locale, layouts: seq<Layout>, fp: string, hk: Hotkey, n: nat)
    requires n <= |layouts|
    ensures IsFirstBinder(tx, layouts, fp, hk, n, FirstBinder(tx, layouts, fp, hk, n))
  {
    hide Binds;
    if n > 0 {
      FirstBinderIsFirst(tx, layouts, fp, hk, n - 1);
    }
  }

  /** An unparseable text is reported with its error, a repeated combination with the layout that has it. */
  ghost function ProblemOf(tx: Locale, layouts: seq<Layout>, fp: string, i: nat): Problem
    requires i < |layouts|
  {
    match ParseOf(tx, layouts[i].hotkey)
    case Err(e) => Unparseable(layouts[i].id, e)
    case Ok(hk) => Duplicate(layouts[i].id, layouts[FirstBinder(tx, layouts, fp, hk, i)].id)
  }

  ghost function ProblemsOf(tx: Locale, layouts: seq<Layout>, fp: string, n: nat): seq<Problem>
    requires n <= |layouts|
  {
    hide ParseOf, Wins;
    if n == 0 then []
    else ProblemsOf(tx, layouts, fp, n - 1)
         + if IsProblem(tx, layouts, fp, n - 1) then [ProblemOf(tx, layouts, fp, n - 1)] else []
  }

  /** seen maps exactly the combinations bound by the first n layouts of the setup to the first layout binding each. */
  ghost predicate SeenIs(tx: Locale, layouts: seq<Layout>, fp: string, seen: map<Hotkey, string>, n: nat)
    requires n <= |layouts|
  {
    forall hk ::
      var k := FirstBinder(tx, layouts, fp, hk, n);
      (hk in seen <==> k < n) && (hk in seen ==> seen[hk] == layouts[k].id)
  }

  lemma SeenExtends(tx: Locale, layouts: seq<Layout>, fp: string, seen: map<Hotkey, string>, n: nat)
    requires n < |layouts| && SeenIs(tx, layouts, fp, seen, n)
    ensures layouts[n].setup.fingerprint != fp || Stored(tx, layouts[n]).None? ==>
      SeenIs(tx, layouts, fp, seen, n + 1)
    ensures layouts[n].setup.fingerprint == fp && Stored(tx, layouts[n]).Some? ==>
      var hk := Stored(tx, layouts[n]).value;
      && (Wins(tx, layouts, fp, n) <==> hk !in seen)
      && (hk in seen ==> SeenIs(tx, layouts, fp, seen, n + 1))
      && (hk !in seen ==> SeenIs(tx, layouts, fp, seen[hk := layouts[n].id], n + 1))
      && (hk in seen ==> seen[hk] == layouts[FirstBinder(tx, layouts, fp, hk, n)].id)
  {
    hide Stored;
    if layouts[n].setup.fingerprint == fp && Stored(tx, layouts[n]).Some? {
      FirstBinderIsFirst(tx, layouts, fp, Stored(tx, layouts[n]).value, n);
    }
  }

  /** The bindings to register now: the layouts of setup fp with a parseable combination, the first one winning. */
  method Active(tx: Locale, layouts: seq<Layout>, fp: string) returns (out: seq<Binding>, problems: seq<Problem>)
    ensures out == ActiveOf(tx, layouts, fp, |layouts|)
    ensures problems == ProblemsOf(tx, layouts, fp, |layouts|)
  {
    hide ParseOf, SeenIs, Wins;
    out, problems := [], [];
    var seen: map<Hotkey, string> := map[];
    NothingSeen(tx, layouts, fp);
    for i := 0 to |layouts|
      invariant out == ActiveOf(tx, layouts, fp, i) && problems == ProblemsOf(tx, layouts, fp, i)
      invariant SeenIs(tx, layouts, fp, seen, i)
    {
      var l := layouts[i];
      SeenExtends(tx, layouts, fp, seen, i);
      WinnersBind(tx, layouts, fp, i);
      if l.setup.fingerprint != fp || l.hotkey == "" {
        continue;
      }
      var parsed := ParseOf(tx, l.hotkey);
      if parsed.Err? {
        problems := problems + [Unparseable(l.id, parsed.e)];
        continue;
      }
      var hk := parsed.h;
      if IsZero(hk) {
        continue;
      }
      if hk in seen {
        problems := problems + [Duplicate(l.id, seen[hk])];
        continue;
      }
      seen := seen[hk := l.id];
      out := out + [Binding(l.id, hk)];
    }
  }

  lemma NothingSeen(tx: Locale, layouts: seq<Layout>, fp: string)
    ensures SeenIs(tx, layouts, fp, map[], 0)
  {}

  lemma WinnersBind(tx: Locale, layouts: seq<Layout>, fp: string, i: nat)
    requires i < |layouts|
    ensures Wins(tx, layouts, fp, i) ==> layouts[i].setup.fingerprint == fp && Stored(tx, layouts[i]).Some?
  {}

  /** The other layout of setup fp that already uses hk; the layout being edited does not count. */
  method Conflict(tx: Locale, layouts: seq<Layout>, fp: string, hk: Hotkey, exceptID: string)
    returns (r: Option<Layout>)
    ensures r.None? <==> IsZero(hk) || !HasRival(tx, layouts, fp, hk, exceptID)
    ensures r.Some? ==> exists i :: 0 <= i < |layouts| && layouts[i] == r.value
                                    && Rivals(tx, layouts[i], fp, hk, exceptID)
                                    && forall j :: 0 <= j < i ==> !Rivals(tx, layouts[j], fp, hk, exceptID)
  {
    hide ParseOf;
    if IsZero(hk) {
      return None;
    }
    for i := 0 to |layouts|
      invariant forall j :: 0 <= j < i ==> !Rivals(tx, layouts[j], fp, hk, exceptID)
    {
      var l := layouts[i];
      if l.id == exceptID || l.setup.fingerprint != fp || l.hotkey == "" {
        continue;
      }
      var other := ParseOf(tx, l.hotkey);
      if other.Err? {
        continue;
      }
      if other.h == hk {
        assert Rivals(tx, layouts[i], fp, hk, exceptID);
        return Some(l);
      }
    }
    return None;
  }

  predicate Rivals(tx: Locale, l: Layout, fp: string, hk: Hotkey, exceptID: string) {
    l.id != exceptID && Binds(tx, l, fp, hk)
  }

  ghost predicate HasRival(tx: Locale, layouts: seq<Layout>, fp: string, hk: Hotkey, exceptID: string) {
    exists i :: 0 <= i < |layouts| && Rivals(tx, layouts[i], fp, hk, exceptID)
  }

  // ---- what Active selects ----

  /** No two layouts of setup fp bind one combination. */
  ghost predicate DistinctIn(tx: Locale, layouts: seq<Layout>, fp: string) {
    forall i, j ::
      0 <= i < j < |layouts| && layouts[i].setup.fingerprint == layouts[j].setup.fingerprint == fp ==>
        Stored(tx, layouts[i]).None? || Stored(tx, layouts[i]) != Stored(tx, layouts[j])
  }

  /** A binding is active exactly when it is a winner's. */
  lemma {:induction false} ActiveIffWins(tx: Locale, layouts: seq<Layout>, fp: string, n: nat, b: Binding)
    requires n <= |layouts|
    ensures b in ActiveOf(tx, layouts, fp, n) <==>
      exists i: nat :: i < n && Wins(tx, layouts, fp, i) && b == Binding(layouts[i].id, Stored(tx, layouts[i]).value)
  {
    hide Wins, Stored;
    WinnersStore(tx, layouts, fp);
    if n > 0 {
      ActiveIffWins(tx, layouts, fp, n - 1, b);
    }
  }

  lemma WinnersStore(tx: Locale, layouts: seq<Layout>, fp: string)
    ensures forall i: nat :: i < |layouts| && Wins(tx, layouts, fp, i) ==> Stored(tx, layouts[i]).Some?
  {}

  lemma FirstBinderWins(tx: Locale, layouts: seq<Layout>, fp: string, i: nat, hk: Hotkey) returns (k: nat)
    requires i < |layouts| && Binds(tx, layouts[i], fp, hk)
    ensures k <= i && Wins(tx, layouts, fp, k) && Stored(tx, layouts[k]) == Some(hk)
  {
    hide Stored;
    k := i;
    while exists j :: 0 <= j < k && Binds(tx, layouts[j], fp, hk)
      invariant k <= i && Binds(tx, layouts[k], fp, hk)
      decreases k
    {
      var j :| 0 <= j < k && Binds(tx, layouts[j], fp, hk);
      k := j;
    }
  }

  ghost predicate WinsAt(tx: Locale, layouts: seq<Layout>, fp: string, k: nat) {
    k < |layouts| && Wins(tx, layouts, fp, k)
  }

  /** The active bindings are the winners', in store order. */
  lemma {:induction false} ActiveInOrder(tx: Locale, layouts: seq<Layout>, fp: string, n: nat)
    requires n <= |layouts|
    ensures var ps := Where(n, (k: nat) => WinsAt(tx, layouts, fp, k));
      && |ActiveOf(tx, layouts, fp, n)| == |ps| && Below(ps, |layouts|)
      && forall p :: 0 <= p < |ps| ==>
           Stored(tx, layouts[ps[p]]).Some?
           && ActiveOf(tx, layouts, fp, n)[p] == Binding(layouts[ps[p]].id, Stored(tx, layouts[ps[p]]).value)
  {
    hide Wins, Stored;
    WinnersStore(tx, layouts, fp);
    if n > 0 {
      ActiveInOrder(tx, layouts, fp, n - 1);
    }
  }

  /** Every combination bound in the setup is active, once, whichever layout won it. */
  lemma ActiveCovers(tx: Locale, layouts: seq<Layout>, fp: string, i: nat, hk: Hotkey)
    requires i < |layouts| && Binds(tx, layouts[i], fp, hk)
    ensures exists b :: b in ActiveOf(tx, layouts, fp, |layouts|) && b.hotkey == hk
  {
    hide Stored, Wins, Binds, ActiveOf;
    var k := FirstBinderWins(tx, layouts, fp, i, hk);
    ActiveIffWins(tx, layouts, fp, |layouts|, Binding(layouts[k].id, hk));
  }

  ghost predicate DistinctBindings(bs: seq<Binding>) {
    forall i, j :: 0 <= i < j < |bs| ==> bs[i].hotkey != bs[j].hotkey
  }

  lemma {:induction false} ActiveIsDistinct(tx: Locale, layouts: seq<Layout>, fp: string, n: nat)
    requires n <= |layouts|
    ensures DistinctBindings(ActiveOf(tx, layouts, fp, n))
  {
    hide Stored;
    if n > 0 {
      ActiveIsDistinct(tx, layouts, fp, n - 1);
      var before := ActiveOf(tx, layouts, fp, n - 1);
      if Wins(tx, layouts, fp, n - 1) {
        forall i | 0 <= i < |before| ensures before[i].hotkey != Stored(tx, layouts[n - 1]).value {
          ActiveIffWins(tx, layouts, fp, n - 1, before[i]);
          var k: nat :| k < n - 1 && Wins(tx, layouts, fp, k)
            && before[i] == Binding(layouts[k].id, Stored(tx, layouts[k]).value);
          assert Binds(tx, layouts[k], fp, before[i].hotkey);
        }
      }
    }
  }

  /** Active drops no parseable binding as a duplicate exactly when the setup's combinations are pairwise distinct. */
  lemma NothingDroppedIffDistinct(tx: Locale, layouts: seq<Layout>, fp: string)
    ensures DistinctIn(tx, layouts, fp) <==>
      forall i: nat :: i < |layouts| && layouts[i].setup.fingerprint == fp && Stored(tx, layouts[i]).Some? ==>
        Wins(tx, layouts, fp, i)
  {
    hide Stored;
  }

  /** Layout i of setup fp is reported as p: for a text that does not parse, with the error; for a combination that an
      earlier layout of the setup has, with the first such layout. */
  ghost predicate Reports(tx: Locale, layouts: seq<Layout>, fp: string, i: nat, p: Problem) {
    && i < |layouts| && layouts[i].setup.fingerprint == fp && layouts[i].hotkey != ""
    && match p
       case Unparseable(id, why) => id == layouts[i].id && ParseOf(tx, layouts[i].hotkey) == Err(why)
       case Duplicate(id, firstID) =>
         id == layouts[i].id && Stored(tx, layouts[i]).Some?
         && exists j: nat :: j < i && IsFirstBinder(tx, layouts, fp, Stored(tx, layouts[i]).value, i, j)
                             && firstID == layouts[j].id
  }

  lemma ProblemReports(tx: Locale, layouts: seq<Layout>, fp: string, i: nat, p: Problem)
    requires i < |layouts|
    ensures Reports(tx, layouts, fp, i, p) <==> IsProblem(tx, layouts, fp, i) && p == ProblemOf(tx, layouts, fp, i)
  {
    hide IsFirstBinder, FirstBinder;
    if layouts[i].setup.fingerprint == fp && Stored(tx, layouts[i]).Some? {
      var hk := Stored(tx, layouts[i]).value;
      FirstBinderIsFirst(tx, layouts, fp, hk, i);
      WinsIffFirst(tx, layouts, fp, i);
      forall j: nat | j < i && IsFirstBinder(tx, layouts, fp, hk, i, j)
        ensures j == FirstBinder(tx, layouts, fp, hk, i) {
        FirstIsUnique(tx, layouts, fp, hk, i, j, FirstBinder(tx, layouts, fp, hk, i));
      }
    }
  }

  lemma WinsIffFirst(tx: Locale, layouts: seq<Layout>, fp: string, i: nat)
    requires i < |layouts| && layouts[i].setup.fingerprint == fp && Stored(tx, layouts[i]).Some?
    ensures Wins(tx, layouts, fp, i) <==> FirstBinder(tx, layouts, fp, Stored(tx, layouts[i]).value, i) == i
  {
    hide Stored;
    FirstBinderIsFirst(tx, layouts, fp, Stored(tx, layouts[i]).value, i);
  }

  lemma FirstIsUnique(tx: Locale, layouts: seq<Layout>, fp: string, hk: Hotkey, n: nat, j: nat, k: nat)
    requires n <= |layouts| && j < n && IsFirstBinder(tx, layouts, fp, hk, n, j)
      && IsFirstBinder(tx, layouts, fp, hk, n, k)
    ensures j == k
  {
    hide Binds;
  }

  /** The problems reported are exactly those of the setup's layouts, each once, in store order. */
  lemma {:induction false} ProblemsAreReports(tx: Locale, layouts: seq<Layout>, fp: string, n: nat, p: Problem)
    requires n <= |layouts|
    ensures p in ProblemsOf(tx, layouts, fp, n) <==> exists i: nat :: i < n && Reports(tx, layouts, fp, i, p)
  {
    hide Reports, IsProblem, ProblemOf;
    if n > 0 {
      ProblemsAreReports(tx, layouts, fp, n - 1, p);
      ProblemReports(tx, layouts, fp, n - 1, p);
    }
  }
}
