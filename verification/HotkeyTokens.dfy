/** Splitting a typed combination into tokens, and what the parser makes of them. */
module HotkeyTokens {
  import opened Types
  import opened Text
  import opened Sequences
  import opened HotkeyText

  predicate IsToken(t: string) {
    t != "" && forall i :: 0 <= i < |t| ==> !IsSeparator(t[i])
  }

  predicate IsRun(s: string) {
    forall i :: 0 <= i < |s| ==> IsSeparator(s[i])
  }

  /** runs[0] + tokens[0] + runs[1] + ... + tokens[n-1] + runs[n]. */
  function Spell(runs: seq<string>, tokens: seq<string>): string
    requires |runs| == |tokens| + 1
  {
    if tokens == [] then runs[0] else runs[0] + (tokens[0] + Spell(runs[1..], tokens[1..]))
  }

  lemma {:induction false} TokensSkipRun(run: string, s: string)
    requires IsRun(run)
    ensures Tokens(run + s) == Tokens(s)
  {
    if run == "" {
      assert run + s == s;
    } else {
      assert (run + s)[1..] == run[1..] + s;
      TokensSkipRun(run[1..], s);
    }
  }

  lemma {:induction false} TokenLengthIs(t: string, s: string)
    requires forall i :: 0 <= i < |t| ==> !IsSeparator(t[i])
    requires s == "" || IsSeparator(s[0])
    ensures TokenLength(t + s) == |t|
  {
    var n := TokenLength(t + s);
    assert forall k :: 0 <= k < |t| ==> (t + s)[k] == t[k];
    assert |t| < |t + s| ==> (t + s)[|t|] == s[0];
  }

  lemma TokensTake(t: string, s: string)
    requires IsToken(t) && (s == "" || IsSeparator(s[0]))
    ensures Tokens(t + s) == [t] + Tokens(s)
  {
    TokenLengthIs(t, s);
    assert (t + s)[..|t|] == t && (t + s)[|t|..] == s;
    assert (t + s)[0] == t[0];
  }

  /** Whatever separators stand between the tokens, and however many, splitting gives the tokens back. */
  lemma {:induction false} SplittingIgnoresSeparators(runs: seq<string>, tokens: seq<string>)
    requires |runs| == |tokens| + 1 && (forall k :: 0 <= k < |runs| ==> IsRun(runs[k]))
    requires forall k :: 0 < k < |tokens| ==> runs[k] != ""
    requires forall k :: 0 <= k < |tokens| ==> IsToken(tokens[k])
    ensures Tokens(Spell(runs, tokens)) == tokens
    decreases |tokens|
  {
    hide IsToken, Tokens, IsSeparator;
    if tokens == [] {
      TokensSkipRun(runs[0], "");
      assert runs[0] + "" == runs[0];
      NoTokens();
    } else {
      var rest := Spell(runs[1..], tokens[1..]);
      TokensSkipRun(runs[0], tokens[0] + rest);
      SpellStartsWithRun(runs[1..], tokens[1..]);
      TokensTake(tokens[0], rest);
      SplittingIgnoresSeparators(runs[1..], tokens[1..]);
      assert tokens == [tokens[0]] + tokens[1..];
    }
  }

  lemma NoTokens()
    ensures Tokens("") == []
  {}

  lemma SpellStartsWithRun(runs: seq<string>, tokens: seq<string>)
    requires |runs| == |tokens| + 1 && IsRun(runs[0]) && (tokens == [] || runs[0] != "")
    ensures Spell(runs, tokens) == "" || IsSeparator(Spell(runs, tokens)[0])
  {}

  // ---- the meaning of a token list ----

  datatype Meaning = Modifies(m: Modifier) | Presses(vk: nat) | Unknown

  function MeaningOf(tx: Locale, token: string): Meaning {
    var name := ToLower(tx, token);
    if ModOf(name).Some? then Modifies(ModOf(name).value)
    else if KeyOf(tx, name).Some? then Presses(KeyOf(tx, name).value)
    else Unknown
  }

  function Meanings(tx: Locale, tokens: seq<string>): (r: seq<Meaning>)
    ensures |r| == |tokens| && forall k :: 0 <= k < |r| ==> r[k] == MeaningOf(tx, tokens[k])
  {
    seq(|tokens|, k requires 0 <= k < |tokens| => MeaningOf(tx, tokens[k]))
  }

  /** The modifiers a list of meanings sets. */
  ghost function ModsIn(ms: seq<Meaning>): set<Modifier> {
    set m: Modifier | Modifies(m) in ms
  }

  /** The keys it names, in order. */
  function KeysIn(ms: seq<Meaning>): seq<nat> {
    if ms == [] then [] else (if ms[0].Presses? then [ms[0].vk] else []) + KeysIn(ms[1..])
  }

  /** The one combination a list of meanings stands for, if it stands for any. */
  ghost predicate Means(ms: seq<Meaning>, h: Hotkey) {
    && Unknown !in ms && KeysIn(ms) == [h.key] && ModsIn(ms) == h.mods && h.mods != {}
  }

  lemma ModsInCons(ms: seq<Meaning>)
    requires ms != []
    ensures ModsIn(ms) == (if ms[0].Modifies? then {ms[0].m} else {}) + ModsIn(ms[1..])
  {
    assert ms == [ms[0]] + ms[1..];
  }

  lemma {:induction false} ParseTokensMeans(tx: Locale, tokens: seq<string>, mods: set<Modifier>, key: Option<nat>,
                                            h: Hotkey)
    ensures var ms := Meanings(tx, tokens);
      ParseTokens(tx, tokens, mods, key) == Ok(h) <==>
      && Unknown !in ms && (if key.Some? then [key.value] else []) + KeysIn(ms) == [h.key]
      && mods + ModsIn(ms) == h.mods && h.mods != {}
    decreases |tokens|
  {
    hide ModOf, KeyOf, ToLower, ModsIn;
    var ms := Meanings(tx, tokens);
    if tokens == [] {
      NoModsIn();
      assert ms == [] && mods + {} == mods;
      var keys := if key.Some? then [key.value] else [];
      assert keys + KeysIn(ms) == keys;
      assert keys == [h.key] <==> key.Some? && keys[0] == h.key;
    } else {
      assert ms[1..] == Meanings(tx, tokens[1..]) && ms == [ms[0]] + ms[1..];
      ModsInCons(ms);
      match ms[0]
      case Unknown =>
      case Modifies(m) =>
        ParseTokensMeans(tx, tokens[1..], mods + {m}, key, h);
        assert mods + {m} + ModsIn(ms[1..]) == mods + ({m} + ModsIn(ms[1..]));
      case Presses(vk) =>
        ParseTokensMeans(tx, tokens[1..], mods, Some(vk), h);
        assert [vk] + KeysIn(ms[1..]) == KeysIn(ms);
    }
  }

  lemma NoModsIn()
    ensures ModsIn([]) == {}
  {}

  /** Parsing, declaratively: a non-blank string is a hotkey exactly when every token is known, exactly one is a key and
      some modifier is among them; the result is that key with the modifiers that occur. */
  lemma ParseMeans(tx: Locale, s: string, h: Hotkey)
    requires TrimSpace(s) != ""
    ensures ParseOf(tx, s) == Ok(h) <==> Means(Meanings(tx, Tokens(s)), h)
  {
    hide ParseTokens, Tokens, TrimSpace, MeaningOf, ModsIn;
    ParseTokensMeans(tx, Tokens(s), {}, None, h);
    assert {} + ModsIn(Meanings(tx, Tokens(s))) == ModsIn(Meanings(tx, Tokens(s)));
    assert [] + KeysIn(Meanings(tx, Tokens(s))) == KeysIn(Meanings(tx, Tokens(s)));
  }

  // ---- what spelling does not change ----

  ghost predicate SameResult(a: Parsed, b: Parsed) {
    (a.Ok? <==> b.Ok?) && (a.Ok? ==> a == b)
  }

  lemma {:induction false} KeysInCount(ms: seq<Meaning>, vk: nat)
    ensures multiset(KeysIn(ms))[vk] == multiset(ms)[Presses(vk)]
  {
    if ms != [] {
      KeysInCount(ms[1..], vk);
      assert ms == [ms[0]] + ms[1..];
    }
  }

  /** Two lists with the same modifiers, the same keys as a multiset and no unknown token (or one each). */
  ghost predicate SameMeaning(ms: seq<Meaning>, ns: seq<Meaning>) {
    && (forall m :: Modifies(m) in ms <==> Modifies(m) in ns)
    && (forall vk :: multiset(ms)[Presses(vk)] == multiset(ns)[Presses(vk)])
    && (Unknown in ms <==> Unknown in ns)
  }

  lemma SameMeaningSameKeys(ms: seq<Meaning>, ns: seq<Meaning>, vk: nat)
    requires SameMeaning(ms, ns) && KeysIn(ms) == [vk]
    ensures KeysIn(ns) == [vk]
  {
    hide KeysIn;
    forall v: nat ensures multiset(KeysIn(ms))[v] == multiset(KeysIn(ns))[v] {
      KeysInCount(ms, v);
      KeysInCount(ns, v);
    }
    assert multiset(KeysIn(ns)) == multiset([vk]);
    assert |KeysIn(ns)| == |multiset(KeysIn(ns))| == 1;
    assert KeysIn(ns)[0] in multiset(KeysIn(ns));
  }

  lemma SameMeaningTransfers(ms: seq<Meaning>, ns: seq<Meaning>, h: Hotkey)
    requires SameMeaning(ms, ns) && Means(ms, h)
    ensures Means(ns, h)
  {
    SameMeaningSameKeys(ms, ns, h.key);
    assert ModsIn(ns) == ModsIn(ms);
  }

  /** Success and result depend only on which modifiers, keys and unknown names occur: not on token order, repeated
      modifiers, letter case, the alias chosen or the separators. */
  lemma ParsingDependsOnMeaning(tx: Locale, s: string, t: string)
    requires TrimSpace(s) != "" && TrimSpace(t) != ""
    requires SameMeaning(Meanings(tx, Tokens(s)), Meanings(tx, Tokens(t)))
    ensures SameResult(ParseOf(tx, s), ParseOf(tx, t))
  {
    hide ParseOf, Tokens, TrimSpace, MeaningOf, Means;
    var ms, ns := Meanings(tx, Tokens(s)), Meanings(tx, Tokens(t));
    assert SameMeaning(ns, ms);
    if ParseOf(tx, s).Ok? {
      var h := ParseOf(tx, s).h;
      ParseMeans(tx, s, h);
      SameMeaningTransfers(ms, ns, h);
      ParseMeans(tx, t, h);
    }
    if ParseOf(tx, t).Ok? {
      var h := ParseOf(tx, t).h;
      ParseMeans(tx, t, h);
      SameMeaningTransfers(ns, ms, h);
      ParseMeans(tx, s, h);
    }
  }

  /** Reordering tokens. */
  lemma ReorderingKeepsMeaning(ms: seq<Meaning>, ns: seq<Meaning>)
    requires multiset(ms) == multiset(ns)
    ensures SameMeaning(ms, ns)
  {
    forall x ensures x in ms <==> x in ns {
      assert x in ms <==> x in multiset(ms);
      assert x in ns <==> x in multiset(ns);
    }
  }

  /** Repeating a modifier that is already there. */
  lemma RepeatingKeepsMeaning(ms: seq<Meaning>, m: Modifier)
    requires Modifies(m) in ms
    ensures SameMeaning(ms, ms + [Modifies(m)])
  {}

  /** Two spellings of one name: the same up to case, or two names of one modifier or key. */
  predicate SameName(tx: Locale, t: string, u: string) {
    ToLower(tx, t) == ToLower(tx, u) || (MeaningOf(tx, t) == MeaningOf(tx, u) && !MeaningOf(tx, t).Unknown?)
  }

  /** u is t in another order, in other case or with other names, or with one of its modifiers repeated. */
  ghost predicate Respelled(tx: Locale, t: seq<string>, u: seq<string>) {
    || multiset(t) == multiset(u)
    || (|t| == |u| && forall k :: 0 <= k < |t| ==> SameName(tx, t[k], u[k]))
    || (exists k :: 0 <= k < |t| && MeaningOf(tx, t[k]).Modifies? && u == t + [t[k]])
  }

  /** A chain of such changes, each of them made or undone. */
  ghost predicate Respellings(tx: Locale, chain: seq<seq<string>>) {
    forall k :: 0 <= k < |chain| - 1 ==> Respelled(tx, chain[k], chain[k + 1]) || Respelled(tx, chain[k + 1], chain[k])
  }

  lemma RespelledMeansSame(tx: Locale, t: seq<string>, u: seq<string>)
    requires Respelled(tx, t, u)
    ensures SameMeaning(Meanings(tx, t), Meanings(tx, u))
  {
    hide MeaningOf, ToLower;
    if multiset(t) == multiset(u) {
      var meaning := (name: string) => MeaningOf(tx, name);
      MapPermutes(meaning, t, u);
      assert Meanings(tx, t) == Map(meaning, t) && Meanings(tx, u) == Map(meaning, u);
      ReorderingKeepsMeaning(Meanings(tx, t), Meanings(tx, u));
    } else if |t| == |u| && forall k :: 0 <= k < |t| ==> SameName(tx, t[k], u[k]) {
      forall k | 0 <= k < |t| ensures MeaningOf(tx, t[k]) == MeaningOf(tx, u[k]) {
        SameNameMeansSame(tx, t[k], u[k]);
      }
      assert Meanings(tx, t) == Meanings(tx, u);
    } else {
      var k :| 0 <= k < |t| && MeaningOf(tx, t[k]).Modifies? && u == t + [t[k]];
      var ms := Meanings(tx, t);
      assert Meanings(tx, u) == ms + [ms[k]];
      RepeatingKeepsMeaning(ms, ms[k].m);
    }
  }

  lemma SameNameMeansSame(tx: Locale, t: string, u: string)
    requires SameName(tx, t, u)
    ensures MeaningOf(tx, t) == MeaningOf(tx, u)
  {
    hide ToLower, ModOf, KeyOf;
  }

  lemma {:induction false} RespellingsMeanSame(tx: Locale, chain: seq<seq<string>>)
    requires chain != [] && Respellings(tx, chain)
    ensures SameMeaning(Meanings(tx, chain[0]), Meanings(tx, chain[|chain| - 1]))
    decreases |chain|
  {
    hide MeaningOf, Respelled;
    var n := |chain| - 1;
    if n > 0 {
      RespellingsMeanSame(tx, chain[..n]);
      if Respelled(tx, chain[n - 1], chain[n]) {
        RespelledMeansSame(tx, chain[n - 1], chain[n]);
      } else {
        RespelledMeansSame(tx, chain[n], chain[n - 1]);
      }
    }
  }

  /** runs and tokens alternate into a text that splits into these tokens. */
  predicate SplitsInto(runs: seq<string>, tokens: seq<string>) {
    && |runs| == |tokens| + 1 && (forall k :: 0 <= k < |runs| ==> IsRun(runs[k]))
    && (forall k :: 0 < k < |tokens| ==> runs[k] != "") && (forall k :: 0 <= k < |tokens| ==> IsToken(tokens[k]))
  }

  /** Two texts whose tokens agree up to order, repeated modifiers, case and names parse alike, whatever separates them:
      always, unless one of them is blank and the other is not. */
  lemma SpellingDoesNotMatter(tx: Locale, chain: seq<seq<string>>, runs: seq<string>, runs': seq<string>)
    requires chain != [] && Respellings(tx, chain)
    requires SplitsInto(runs, chain[0]) && SplitsInto(runs', chain[|chain| - 1])
    ensures var s, t := Spell(runs, chain[0]), Spell(runs', chain[|chain| - 1]);
      SameResult(ParseOf(tx, s), ParseOf(tx, t)) <==> (TrimSpace(s) == "" <==> TrimSpace(t) == "")
  {
    hide Respellings, IsRun, IsToken, Spell, TrimSpace, MeaningOf, SameMeaning, ParseTokens, Tokens;
    var s, t := Spell(runs, chain[0]), Spell(runs', chain[|chain| - 1]);
    SplittingIgnoresSeparators(runs, chain[0]);
    SplittingIgnoresSeparators(runs', chain[|chain| - 1]);
    RespellingsMeanSame(tx, chain);
    if TrimSpace(s) != "" && TrimSpace(t) != "" {
      ParsingDependsOnMeaning(tx, s, t);
    } else if TrimSpace(s) != "" {
      ParseMeans(tx, s, NONE);
    } else if TrimSpace(t) != "" {
      ParseMeans(tx, t, NONE);
    }
  }

  /** Every whitespace-only string means "no hotkey"; separators other than blanks do not. */
  lemma BlankIsNoHotkey(tx: Locale, s: string)
    requires forall i :: 0 <= i < |s| ==> IsSpace(s[i])
    ensures ParseOf(tx, s) == Ok(NONE)
  {
    BlankIffAllSpace(s);
  }
}
