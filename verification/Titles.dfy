/** Title normalization: everyday title churn must not break matching. */
module Titles {
  import opened Text

  /** The modification markers applications put in front of titles. */
  predicate IsMarker(c: char) {
    c in " \t\U{25CF}\U{2022}*\U{25D0}\U{25CB}\U{00B7}\U{2014}-"
  }

  /** Separators before an application name: em dash, en dash and hyphen, tried in this order. */
  const SEPARATORS: seq<string> := [" \U{2014} ", " \U{2013} ", " - "]

  function AppName(tx: Locale, exe: string): string {
    ToLower(tx, tx.baseName(exe))
  }

  /** Drops the last segment of s when it names the application. Only the first separator of the list that
      occurs (not at the very start) is considered. */
  function StripApp(tx: Locale, s: string, app: string, separators: seq<string>): string {
    if separators == [] then s
    else
      var i := LastIndex(s, separators[0]);
      if i <= 0 then StripApp(tx, s, app, separators[1..])
      else if ToLower(tx, TrimSpace(s[i + |separators[0]|..])) == app then s[..i]
      else s
  }

  method ComputeStripApp(tx: Locale, s: string, app: string, separators: seq<string>) returns (r: string)
    ensures r == StripApp(tx, s, app, separators)
  {
    hide LastIndex, ToLower, TrimSpace;
    r := s;
    for k := 0 to |separators|
      invariant r == s
      invariant StripApp(tx, s, app, separators) == StripApp(tx, s, app, separators[k..])
    {
      var sep := separators[k];
      assert separators[k..][1..] == separators[k + 1..];
      var i := LastIndex(s, sep);
      if i <= 0 {
        continue;
      }
      if ToLower(tx, TrimSpace(s[i + |sep|..])) == app {
        r := s[..i];
      }
      return;
    }
  }

  function Normalized(tx: Locale, title: string, exe: string): string {
    ToLower(tx, TrimSpace(StripApp(tx, TrimLeft(title, IsMarker), AppName(tx, exe), SEPARATORS)))
  }

  method NormalizeTitle(tx: Locale, title: string, exe: string) returns (r: string)
    ensures r == Normalized(tx, title, exe)
  {
    var s := ComputeStripApp(tx, TrimLeft(title, IsMarker), AppName(tx, exe), SEPARATORS);
    r := ToLower(tx, TrimSpace(s));
  }

  /** However many markers an application puts in front of a title, it normalizes to the same string. */
  lemma MarkersAreIgnored(tx: Locale, markers: string, title: string, exe: string)
    requires forall i :: 0 <= i < |markers| ==> IsMarker(markers[i])
    ensures Normalized(tx, markers + title, exe) == Normalized(tx, title, exe)
  {
    TrimLeftPrefix(markers, title, IsMarker);
  }

  // ---- the application's own name ----

  /** Separator k is the one considered: it occurs past the start and none before it in the list does. */
  predicate Decides(s: string, separators: seq<string>, k: nat) {
    k < |separators| && LastIndex(s, separators[k]) > 0 && forall j :: 0 <= j < k ==> LastIndex(s, separators[j]) <= 0
  }

  predicate NamesApp(tx: Locale, segment: string, app: string) {
    ToLower(tx, TrimSpace(segment)) == app
  }

  lemma {:induction false} StripAppByDecider(tx: Locale, s: string, app: string, separators: seq<string>, k: nat)
    requires Decides(s, separators, k)
    ensures var i := LastIndex(s, separators[k]);
      StripApp(tx, s, app, separators) == if NamesApp(tx, s[i + |separators[k]|..], app) then s[..i] else s
    decreases |separators|
  {
    hide LastIndex, ToLower, TrimSpace;
    if k > 0 {
      StripAppByDecider(tx, s, app, separators[1..], k - 1);
    }
  }

  lemma {:induction false} NothingDecides(tx: Locale, s: string, app: string, separators: seq<string>)
    requires forall k :: 0 <= k < |separators| ==> LastIndex(s, separators[k]) <= 0
    ensures StripApp(tx, s, app, separators) == s
    decreases |separators|
  {
    hide LastIndex, ToLower, TrimSpace;
    if separators != [] {
      NothingDecides(tx, s, app, separators[1..]);
    }
  }

  /** A last segment is dropped exactly when the separator considered stands before it and it names the application. */
  lemma StrippedIff(tx: Locale, s: string, app: string)
    ensures StripApp(tx, s, app, SEPARATORS) != s <==>
      exists k: nat :: Decides(s, SEPARATORS, k)
        && NamesApp(tx, s[LastIndex(s, SEPARATORS[k]) + |SEPARATORS[k]|..], app)
  {
    hide LastIndex, ToLower, TrimSpace;
    forall k: nat | Decides(s, SEPARATORS, k)
      ensures StripApp(tx, s, app, SEPARATORS) != s <==>
        NamesApp(tx, s[LastIndex(s, SEPARATORS[k]) + |SEPARATORS[k]|..], app)
    {
      StripAppByDecider(tx, s, app, SEPARATORS, k);
      assert |SEPARATORS[k]| == 3;
    }
    if forall k: nat :: !Decides(s, SEPARATORS, k) {
      assert !Decides(s, SEPARATORS, 0) && !Decides(s, SEPARATORS, 1) && !Decides(s, SEPARATORS, 2);
      NothingDecides(tx, s, app, SEPARATORS);
    } else {
      var k: nat :| Decides(s, SEPARATORS, k);
      OnlyOneDecides(s, k);
    }
  }

  lemma OnlyOneDecides(s: string, k: nat)
    requires Decides(s, SEPARATORS, k)
    ensures forall j: nat :: Decides(s, SEPARATORS, j) ==> j == k
  {
    hide LastIndex;
  }

  /** The title an application shows: its own text, a separator and its name. */
  function WithName(t: string, k: nat, name: string): string
    requires k < |SEPARATORS|
  {
    t + SEPARATORS[k] + name
  }

  /** The name an application puts behind a title disappears, and nothing else, exactly when no separator tried earlier
      occurs past the start: a dash of another kind in the title keeps the name in place. */
  lemma OwnNameIsStrippedIff(tx: Locale, t: string, k: nat, name: string, app: string)
    requires k < |SEPARATORS| && t != "" && NamesApp(tx, name, app)
    requires LastIndex(WithName(t, k, name), SEPARATORS[k]) == |t|
    ensures StripApp(tx, WithName(t, k, name), app, SEPARATORS) == t <==>
      forall j :: 0 <= j < k ==> LastIndex(WithName(t, k, name), SEPARATORS[j]) <= 0
  {
    hide LastIndex, ToLower, TrimSpace;
    var s := WithName(t, k, name);
    assert s[..|t|] == t && s[|t| + |SEPARATORS[k]|..] == name;
    if forall j :: 0 <= j < k ==> LastIndex(s, SEPARATORS[j]) <= 0 {
      StripAppByDecider(tx, s, app, SEPARATORS, k);
    } else {
      var j := FirstDecider(s, k);
      StripAppByDecider(tx, s, app, SEPARATORS, j);
      DifferentPlaces(t, k, name, j);
    }
  }

  lemma FirstDecider(s: string, k: nat) returns (j: nat)
    requires k < |SEPARATORS| && exists j :: 0 <= j < k && LastIndex(s, SEPARATORS[j]) > 0
    ensures j < k && Decides(s, SEPARATORS, j)
  {
    hide LastIndex;
    j := if LastIndex(s, SEPARATORS[0]) > 0 then 0 else 1;
  }

  /** Separators differ in their middle character, so another one does not start where this one does. */
  lemma DifferentPlaces(t: string, k: nat, name: string, j: nat)
    requires j < k < |SEPARATORS|
    ensures LastIndex(WithName(t, k, name), SEPARATORS[j]) != |t|
  {
    hide LastIndex;
    var s, i := WithName(t, k, name), LastIndex(WithName(t, k, name), SEPARATORS[j]);
    assert s[|t| + 1] == SEPARATORS[k][1];
    assert i >= 0 ==> s[i..i + 3][1] == s[i + 1];
  }

  /** So a title that an application extends by its own name normalizes to the trimmed lower-cased title alone. */
  lemma OwnNameIsIgnored(tx: Locale, t: string, k: nat, name: string, exe: string)
    requires k < |SEPARATORS| && t != "" && !IsMarker(t[0]) && NamesApp(tx, name, AppName(tx, exe))
    requires LastIndex(WithName(t, k, name), SEPARATORS[k]) == |t|
    requires forall j :: 0 <= j < k ==> LastIndex(WithName(t, k, name), SEPARATORS[j]) <= 0
    ensures Normalized(tx, WithName(t, k, name), exe) == ToLower(tx, TrimSpace(t))
  {
    hide LastIndex, ToLower, TrimSpace, StripApp;
    OwnNameIsStrippedIff(tx, t, k, name, AppName(tx, exe));
    assert WithName(t, k, name)[0] == t[0];
  }

  /** The markers are blank, tab, black circle, bullet, asterisk, left-half circle, white circle, middle dot, em dash
      and hyphen: any run of these in front is ignored, and anything else stays. */
  lemma OnlyMarkersAreIgnored(tx: Locale, c: char, title: string, exe: string)
    ensures c in {' ', '\t', '\U{25CF}', '\U{2022}', '*', '\U{25D0}', '\U{25CB}', '\U{00B7}', '\U{2014}', '-'} ==>
      Normalized(tx, [c] + title, exe) == Normalized(tx, title, exe)
    ensures c !in {' ', '\t', '\U{25CF}', '\U{2022}', '*', '\U{25D0}', '\U{25CB}', '\U{00B7}', '\U{2014}', '-'} ==>
      TrimLeft([c] + title, IsMarker) == [c] + title
  {
    hide Normalized;
    if IsMarker(c) {
      MarkersAreIgnored(tx, [c], title, exe);
    }
  }

  /** The application's name is its file name without extension, in lower case; it disappears behind an em dash, an en
      dash or a hyphen between blanks, if no earlier one of these occurs past the start. */
  lemma NameBehindDashIsIgnored(tx: Locale, t: string, dash: string, name: string, exe: string)
    requires dash in {" \U{2014} ", " \U{2013} ", " - "} && t != "" && !IsMarker(t[0])
    requires ToLower(tx, TrimSpace(name)) == ToLower(tx, tx.baseName(exe)) && LastIndex(t + dash + name, dash) == |t|
    requires dash != " \U{2014} " ==> LastIndex(t + dash + name, " \U{2014} ") <= 0
    requires dash == " - " ==> LastIndex(t + dash + name, " \U{2013} ") <= 0
    ensures Normalized(tx, t + dash + name, exe) == ToLower(tx, TrimSpace(t))
  {
    hide LastIndex, ToLower, TrimSpace, Normalized;
    var k := if dash == SEPARATORS[0] then 0 else if dash == SEPARATORS[1] then 1 else 2;
    assert dash == SEPARATORS[k];
    OwnNameIsIgnored(tx, t, k, name, exe);
  }
}
