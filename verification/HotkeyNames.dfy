/** The names and separators a user may type, how combinations are shown, and why texts are rejected. */
module HotkeyNames {
  import opened Types
  import opened Text
  import Decimal
  import opened HotkeyText
  import opened HotkeyTokens
  import opened HotkeyRoundTrip
  import HotkeyCapture

  // ---- separators ----

  /** Blank, plus and hyphen separate, and nothing else does. */
  lemma OthersDoNotSeparate(s: string)
    requires s != "" && forall i :: 0 <= i < |s| ==> s[i] != '+' && s[i] != '-' && s[i] != ' '
    ensures Tokens(s) == [s]
  {
    TokensTake(s, "");
    assert s + "" == s;
  }

  // ---- names ----

  /** Every name of a modifier. */
  predicate NamesModifier(name: string, m: Modifier) {
    match m
    case Ctrl => name == "ctrl" || name == "control" || name == "strg" || name == "steuerung"
    case Alt => name == "alt"
    case Shift => name == "shift" || name == "umschalt"
    case Win => name == "win" || name == "windows"
  }

  /** The further names of keys, beside the printed ones. */
  predicate NamesKey(name: string, vk: nat) {
    || (name == "auf" && vk == 0x26) || (name == "ab" && vk == 0x28)
    || ((name == "bildauf" || name == "bildhoch") && vk == 0x21)
    || ((name == "bildab" || name == "bildrunter") && vk == 0x22)
    || (name == "einfuegen" && vk == 0x2D)
    || ((name == "entfernen" || name == "del") && vk == 0x2E)
    || (name == "tabulator" && vk == 0x09) || (name == "return" && vk == 0x0D)
  }

  lemma ModifierNamesMean(name: string, m: Modifier)
    ensures ModOf(name) == Some(m) <==> NamesModifier(name, m)
  {}

  /** The named key that has this alias. */
  function OwnerOfAlias(name: string): nat {
    if name == "auf" then 1 else if name == "ab" then 3
    else if name == "bildauf" || name == "bildhoch" then 6
    else if name == "bildab" || name == "bildrunter" then 7
    else if name == "einfuegen" then 8 else if name == "entfernen" || name == "del" then 9
    else if name == "tabulator" then 12 else 13
  }

  lemma AliasIsListed(name: string, vk: nat)
    requires NamesKey(name, vk)
    ensures var i := OwnerOfAlias(name);
      i < NAMED_COUNT && NamedKeyAt(i).vk == vk && name in NamedKeyAt(i).aliases
  {}

  lemma AliasIsSpelling(tx: Locale, name: string, i: nat)
    requires i < NAMED_COUNT && name in NamedKeyAt(i).aliases
    ensures name in SpellingsOf(tx, NamedKeyAt(i))
  {
    hide ToLower, NamedKeyAt;
    var k := NamedKeyAt(i);
    var j :| 0 <= j < |k.aliases| && k.aliases[j] == name;
    assert SpellingsOf(tx, k)[2 + j] == name;
  }

  lemma KeyNamesMean(tx: Locale, name: string, vk: nat)
    requires LowersNames(tx) && NamesKey(name, vk)
    ensures KeyOf(tx, name) == Some(vk) && ModOf(name).None?
  {
    hide LowersNames, NamedKeyAt, NamedByName, SpellingsOf, FunctionKey, ModOf, Owner, NamesKey, OwnerOfAlias;
    var i := OwnerOfAlias(name);
    AliasIsListed(name, vk);
    AliasIsSpelling(tx, name, i);
    LookupFinds(tx, name, i, NAMED_COUNT);
    SpellingsOwned(tx, i, name);
    if ModOf(name).Some? {
      ModifiersOwned(name);
    }
  }

  predicate AllLower(s: string) {
    s != "" && forall i :: 0 <= i < |s| ==> 'a' <= s[i] <= 'z'
  }

  lemma NamesAreLower(name: string, m: Modifier, vk: nat)
    requires NamesModifier(name, m) || NamesKey(name, vk)
    ensures AllLower(name)
  {}

  /** Whatever the case of its letters, a name of a modifier sets it, and a further name of a key presses it. */
  lemma TypedNameMeans(tx: Locale, typed: string, name: string, m: Modifier, vk: nat)
    requires LowersNames(tx) && ToLower(tx, typed) == name
    ensures NamesModifier(name, m) ==> MeaningOf(tx, typed) == Modifies(m)
    ensures NamesKey(name, vk) ==> MeaningOf(tx, typed) == Presses(vk)
  {
    hide LowersNames, ToLower, KeyOf, ModOf, NamesModifier, NamesKey;
    ModifierNamesMean(name, m);
    if NamesKey(name, vk) {
      KeyNamesMean(tx, name, vk);
    }
  }

  lemma LowerIsToken(s: string)
    requires AllLower(s)
    ensures IsToken(s) && !IsSpace(s[0])
  {}

  lemma LowerStays(tx: Locale, s: string)
    requires LowersNames(tx) && AllLower(s)
    ensures ToLower(tx, s) == s
  {
    LowerIs(tx, s, s);
  }

  lemma LowerSplits(t: string, sep: string, u: string)
    requires AllLower(t) && AllLower(u) && (sep == "+" || sep == "-" || sep == " ")
    ensures Tokens(t + sep + u) == [t, u] && TrimSpace(t + sep + u) != ""
  {
    hide TrimSpace, IsToken;
    LowerIsToken(t);
    LowerIsToken(u);
    var runs := ["", sep, ""];
    assert runs[1..] == [sep, ""] && runs[1..][1..] == [""] && [t, u][1..] == [u] && [t, u][1..][1..] == [];
    assert Spell([""], []) == "" && Spell([sep, ""], [u]) == sep + u;
    assert Spell(runs, [t, u]) == "" + (t + (sep + u)) == t + sep + u;
    SplittingIgnoresSeparators(runs, [t, u]);
    BlankIffAllSpace(t + sep + u);
    assert (t + sep + u)[0] == t[0];
  }

  /** Any name of a modifier, any of the three separators and any further name of a key make the combination. */
  lemma TypedCombinationParses(tx: Locale, name: string, m: Modifier, sep: string, key: string, vk: nat)
    requires LowersNames(tx) && NamesModifier(name, m) && NamesKey(key, vk) && (sep == "+" || sep == "-" || sep == " ")
    ensures ParseOf(tx, name + sep + key) == Ok(Hotkey({m}, vk))
  {
    hide LowersNames, ParseOf, Tokens, TrimSpace, MeaningOf, NamesModifier, NamesKey, AllLower, ToLower;
    NamesAreLower(name, m, vk);
    NamesAreLower(key, m, vk);
    LowerStays(tx, name);
    LowerStays(tx, key);
    LowerSplits(name, sep, key);
    TypedNameMeans(tx, name, name, m, vk);
    TypedNameMeans(tx, key, key, m, vk);
    TwoMeanings(m, vk);
    assert Meanings(tx, [name, key]) == [Modifies(m), Presses(vk)];
    ParseMeans(tx, name + sep + key, Hotkey({m}, vk));
  }

  lemma TwoMeanings(m: Modifier, vk: nat)
    ensures Means([Modifies(m), Presses(vk)], Hotkey({m}, vk))
  {
    var ms := [Modifies(m), Presses(vk)];
    assert ms[1..] == [Presses(vk)] && ms[1..][1..] == [];
    assert KeysIn([Presses(vk)]) == [vk] && KeysIn(ms) == [] + [vk];
    assert Modifies(m) in ms;
  }

  // ---- how combinations are shown ----

  /** English for the file, German for the screen, modifiers always in the same order. */
  lemma ModifiersShown()
    ensures ModParts({Win, Shift, Alt, Ctrl}, false) == ["Ctrl", "Alt", "Shift", "Win"]
    ensures ModParts({Win, Shift, Alt, Ctrl}, true) == ["Strg", "Alt", "Umschalt", "Win"]
  {}

  lemma CombinationsShown()
    ensures Canonical(Hotkey({Ctrl}, 0x21)) == "Ctrl+PageUp" && Label(Hotkey({Ctrl}, 0x21)) == "Strg+Bild\U{2191}"
    ensures Canonical(Hotkey({Win}, 0x41)) == "Win+A" && Canonical(Hotkey({Alt}, 0x70)) == "Alt+F1"
    ensures Canonical(Hotkey({}, 0)) == Label(Hotkey({}, 0)) == ""
  {
    hide KeyName;
    KeysShown();
    TwoJoined("Ctrl", "PageUp");
    TwoJoined("Strg", "Bild\U{2191}");
    TwoJoined("Win", "A");
    TwoJoined("Alt", "F1");
    assert ModParts({Ctrl}, false) == ["Ctrl"] && ModParts({Ctrl}, true) == ["Strg"];
    assert ModParts({Win}, false) == ["Win"] && ModParts({Alt}, false) == ["Alt"];
  }

  lemma KeysShown()
    ensures KeyName(0x21, false) == "PageUp" && KeyName(0x21, true) == "Bild\U{2191}"
    ensures KeyName(0x41, false) == "A" && KeyName(0x70, false) == "F1"
  {
    assert NamedByCode(0x21, 6) == 6;
    assert NamedByCode(0x21, 3) == 6;
    assert NamedByCode(0x21, 0) == 6;
    assert Decimal.Text(1) == "1";
  }

  /** The keys with a name of their own, by the system's key codes. */
  predicate PrintedKey(vk: nat, english: string, german: string) {
    || (vk == 0x25 && english == "Left" && german == "Links") || (vk == 0x26 && english == "Up" && german == "Hoch")
    || (vk == 0x27 && english == "Right" && german == "Rechts")
      || (vk == 0x28 && english == "Down" && german == "Runter")
    || (vk == 0x24 && english == "Home" && german == "Pos1") || (vk == 0x23 && english == "End" && german == "Ende")
    || (vk == 0x21 && english == "PageUp" && german == "Bild\U{2191}")
    || (vk == 0x22 && english == "PageDown" && german == "Bild\U{2193}")
    || (vk == 0x2D && english == "Insert" && german == "Einfg")
      || (vk == 0x2E && english == "Delete" && german == "Entf")
    || (vk == 0x20 && english == "Space" && german == "Leertaste")
    || (vk == 0x1B && english == "Escape" && german == "Esc") || (vk == 0x09 && english == "Tab" && german == "Tab")
    || (vk == 0x0D && english == "Enter" && german == "Eingabe")
  }

  /** The position of a printed key in the table. */
  function PlaceOf(vk: nat): nat {
    if vk == 0x25 then 0 else if vk == 0x26 then 1 else if vk == 0x27 then 2 else if vk == 0x28 then 3
    else if vk == 0x24 then 4 else if vk == 0x23 then 5 else if vk == 0x21 then 6 else if vk == 0x22 then 7
    else if vk == 0x2D then 8 else if vk == 0x2E then 9 else if vk == 0x20 then 10 else if vk == 0x1B then 11
    else if vk == 0x09 then 12 else 13
  }

  lemma PlacedAt(vk: nat, english: string, german: string)
    requires PrintedKey(vk, english, german)
    ensures var i := PlaceOf(vk);
      i < NAMED_COUNT && NamedKeyAt(i).vk == vk && NamedKeyAt(i).canonical == english && NamedKeyAt(i).german == german
  {}

  lemma CodesAreDistinct(i: nat, j: nat)
    requires i < NAMED_COUNT && j < NAMED_COUNT && NamedKeyAt(i).vk == NamedKeyAt(j).vk
    ensures i == j
  {
    CodeIsPlaced(i);
    CodeIsPlaced(j);
  }

  lemma CodeIsPlaced(i: nat)
    requires i < NAMED_COUNT
    ensures PlaceOf(NamedKeyAt(i).vk) == i && NamedKeyAt(i).vk < 0x30
  {}

  /** Such a key is shown by its name, English in the file and German on the screen; letters and digits show
      themselves. */
  lemma NamedKeyShown(vk: nat, english: string, german: string)
    requires PrintedKey(vk, english, german)
    ensures KeyName(vk, false) == english && KeyName(vk, true) == german
  {
    hide NamedKeyAt, PrintedKey, PlaceOf, NamedByCode;
    PlacedAt(vk, english, german);
    var i := PlaceOf(vk);
    CodeIsPlaced(i);
    HotkeyCapture.NamedCodeFound(i, 0);
    CodesAreDistinct(NamedByCode(vk, 0), i);
  }

  lemma OtherKeysShown(vk: nat, german: bool)
    ensures 'A' as int <= vk <= 'Z' as int || '0' as int <= vk <= '9' as int ==> KeyName(vk, german) == [vk as char]
    ensures 0x70 <= vk <= 0x87 ==> KeyName(vk, german) == "F" + Decimal.Text(vk - 0x6F)
  {}

  lemma TwoJoined(a: string, b: string)
    ensures Decimal.Join([a] + [b], "+") == a + "+" + b
  {
    var parts := [a] + [b];
    assert parts[1..] == [b] && Decimal.Join([b], "+") == b;
  }

  // ---- why a text is rejected ----

  ghost predicate UnknownAt(ms: seq<Meaning>, keys: nat, k: nat) {
    k < |ms| && ms[k].Unknown? && Unknown !in ms[..k] && keys + |KeysIn(ms[..k])| <= 1
  }

  ghost predicate SecondKeyAt(ms: seq<Meaning>, keys: nat, k: nat) {
    k < |ms| && ms[k].Presses? && Unknown !in ms[..k] && keys + |KeysIn(ms[..k])| == 1
  }

  /** The reasons to reject a list of tokens, by what the tokens mean: the first unknown one, unless a second key
      comes before it; the second key, unless an unknown token comes before it; otherwise a missing key, then a
      missing modifier. `mods` and `keys` are the modifiers and the number of keys that came even earlier. */
  ghost predicate Rejects(tokens: seq<string>, ms: seq<Meaning>, mods: set<Modifier>, keys: nat, e: ParseError)
    requires |ms| == |tokens|
  {
    match e
    case UnknownKey(token) => exists k: nat :: UnknownAt(ms, keys, k) && tokens[k] == token
    case TwoKeys => exists k: nat :: SecondKeyAt(ms, keys, k)
    case MissingKey => Unknown !in ms && keys + |KeysIn(ms)| == 0
    case MissingModifier => Unknown !in ms && keys + |KeysIn(ms)| == 1 && mods + ModsIn(ms) == {}
  }

  lemma KeysBefore(ms: seq<Meaning>, k: nat)
    requires 0 < k <= |ms|
    ensures |KeysIn(ms[..k])| == (if ms[0].Presses? then 1 else 0) + |KeysIn(ms[1..][..k - 1])|
    ensures Unknown in ms[..k] <==> ms[0].Unknown? || Unknown in ms[1..][..k - 1]
  {
    assert ms[..k][1..] == ms[1..][..k - 1] && ms[..k] == [ms[0]] + ms[1..][..k - 1];
  }

  lemma NothingBefore(ms: seq<Meaning>)
    ensures ms[..0] == [] && KeysIn([]) == []
  {}

  lemma ShiftUnknown(tokens: seq<string>, ms: seq<Meaning>, keys: nat, later: nat, token: string)
    requires |ms| == |tokens| > 0 && !ms[0].Unknown?
    requires forall k: nat :: k < |ms| - 1 ==> (UnknownAt(ms, keys, k + 1) <==> UnknownAt(ms[1..], later, k))
    ensures (exists k: nat :: UnknownAt(ms, keys, k) && tokens[k] == token)
       <==> (exists k: nat :: UnknownAt(ms[1..], later, k) && tokens[1..][k] == token)
  {
    hide KeysIn;
    if exists k: nat :: UnknownAt(ms, keys, k) && tokens[k] == token {
      var k: nat :| UnknownAt(ms, keys, k) && tokens[k] == token;
      var j: nat := k - 1;
      assert UnknownAt(ms, keys, j + 1) && tokens[1..][j] == token;
    }
    if exists k: nat :: UnknownAt(ms[1..], later, k) && tokens[1..][k] == token {
      var k: nat :| UnknownAt(ms[1..], later, k) && tokens[1..][k] == token;
      assert UnknownAt(ms, keys, k + 1) && tokens[k + 1] == token;
    }
  }

  lemma ShiftSecondKey(ms: seq<Meaning>, keys: nat, later: nat)
    requires |ms| > 0 && (ms[0].Presses? ==> keys == 0)
    requires forall k: nat :: k < |ms| - 1 ==> (SecondKeyAt(ms, keys, k + 1) <==> SecondKeyAt(ms[1..], later, k))
    ensures (exists k: nat :: SecondKeyAt(ms, keys, k)) <==> (exists k: nat :: SecondKeyAt(ms[1..], later, k))
  {
    hide KeysIn;
    NothingBefore(ms);
    if exists k: nat :: SecondKeyAt(ms, keys, k) {
      var k: nat :| SecondKeyAt(ms, keys, k);
      var j: nat := k - 1;
      assert SecondKeyAt(ms, keys, j + 1) && SecondKeyAt(ms[1..], later, j);
    }
    if exists k: nat :: SecondKeyAt(ms[1..], later, k) {
      var k: nat :| SecondKeyAt(ms[1..], later, k);
      assert SecondKeyAt(ms, keys, k + 1);
    }
  }

  /** As long as nothing goes wrong at the first token, the rest decides. */
  lemma RestDecides(tokens: seq<string>, ms: seq<Meaning>, mods: set<Modifier>, keys: nat, e: ParseError)
    requires |ms| == |tokens| > 0 && !ms[0].Unknown? && (ms[0].Presses? ==> keys == 0)
    ensures Rejects(tokens, ms, mods, keys, e) <==>
      Rejects(tokens[1..], ms[1..], mods + (if ms[0].Modifies? then {ms[0].m} else {}),
              keys + (if ms[0].Presses? then 1 else 0), e)
  {
    hide KeysIn, ModsIn;
    var rest, later := ms[1..], keys + if ms[0].Presses? then 1 else 0;
    KeysBefore(ms, |ms|);
    assert ms[..|ms|] == ms && rest[..|rest|] == rest;
    ModsInCons(ms);
    forall k: nat | k < |rest|
      ensures UnknownAt(ms, keys, k + 1) <==> UnknownAt(rest, later, k)
      ensures SecondKeyAt(ms, keys, k + 1) <==> SecondKeyAt(rest, later, k)
    {
      KeysBefore(ms, k + 1);
    }
    if e.UnknownKey? {
      ShiftUnknown(tokens, ms, keys, later, e.token);
    } else if e.TwoKeys? {
      ShiftSecondKey(ms, keys, later);
    }
    assert mods + ModsIn(ms) == mods + (if ms[0].Modifies? then {ms[0].m} else {}) + ModsIn(rest);
  }

  /** An unknown first token, or a second key, is the one reason. */
  lemma FirstDecides(tokens: seq<string>, ms: seq<Meaning>, mods: set<Modifier>, keys: nat, e: ParseError)
    requires |ms| == |tokens| > 0 && keys <= 1 && (ms[0].Unknown? || (ms[0].Presses? && keys == 1))
    ensures Rejects(tokens, ms, mods, keys, e) <==> e == if ms[0].Unknown? then UnknownKey(tokens[0]) else TwoKeys
  {
    hide KeysIn, ModsIn;
    NothingBefore(ms);
    KeysBefore(ms, |ms|);
    assert ms[..|ms|] == ms;
    assert ms[0] in ms;
    forall k: nat | 0 < k < |ms| ensures !UnknownAt(ms, keys, k) && !SecondKeyAt(ms, keys, k) {
      KeysBefore(ms, k);
      assert ms[0] in ms[..k];
    }
    if ms[0].Unknown? {
      assert UnknownAt(ms, keys, 0);
    } else {
      assert SecondKeyAt(ms, keys, 0);
    }
  }

  lemma NoTokensLeft(mods: set<Modifier>, keys: nat, e: ParseError)
    ensures Rejects([], [], mods, keys, e) <==>
      (e == MissingKey && keys == 0) || (e == MissingModifier && keys == 1 && mods == {})
  {
    NoModsIn();
    assert mods + {} == mods;
  }

  lemma {:induction false} ParseTokensRejects(tx: Locale, tokens: seq<string>, mods: set<Modifier>, key: Option<nat>,
                                              e: ParseError)
    ensures ParseTokens(tx, tokens, mods, key) == Err(e) <==>
      Rejects(tokens, Meanings(tx, tokens), mods, if key.Some? then 1 else 0, e)
    decreases |tokens|
  {
    hide ModOf, KeyOf, ToLower, Rejects;
    var ms, keys := Meanings(tx, tokens), if key.Some? then 1 else 0;
    if tokens == [] {
      NoTokensLeft(mods, keys, e);
      assert ms == [];
    } else if ms[0].Unknown? || (ms[0].Presses? && key.Some?) {
      FirstDecides(tokens, ms, mods, keys, e);
    } else {
      assert ms[1..] == Meanings(tx, tokens[1..]);
      RestDecides(tokens, ms, mods, keys, e);
      ParseTokensRejects(tx, tokens[1..], mods + (if ms[0].Modifies? then {ms[0].m} else {}),
                         if ms[0].Presses? then Some(ms[0].vk) else key, e);
      assert mods + {} == mods;
    }
  }

  /** Why a text that is not blank is rejected, declaratively. */
  lemma RejectedExactlyWhen(tx: Locale, s: string, e: ParseError)
    requires TrimSpace(s) != ""
    ensures ParseOf(tx, s) == Err(e) <==> Rejects(Tokens(s), Meanings(tx, Tokens(s)), {}, 0, e)
  {
    hide ParseTokens, Tokens, TrimSpace, MeaningOf, Rejects;
    ParseTokensRejects(tx, Tokens(s), {}, None, e);
  }
}
