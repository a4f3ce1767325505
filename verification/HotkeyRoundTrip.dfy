/** Printing and parsing undo each other. */
module HotkeyRoundTrip {
  import opened Types
  import opened Text
  import Decimal
  import opened HotkeyText
  import opened HotkeyTokens

  function AsciiLower(c: char): char {
    if 'A' <= c <= 'Z' then (c as int + 32) as char else c
  }

  /** What is assumed of the runtime's lower-casing: it is right on ASCII and leaves the two arrows alone. */
  ghost predicate LowersNames(tx: Locale) {
    && (forall c: char :: c as int < 128 ==> tx.lower(c) == AsciiLower(c))
    && tx.lower('\U{2191}') == '\U{2191}' && tx.lower('\U{2193}') == '\U{2193}'
  }

  lemma LowerIs(tx: Locale, s: string, t: string)
    requires LowersNames(tx) && |s| == |t|
    requires forall i :: 0 <= i < |s| ==> (s[i] as int < 128 && t[i] == AsciiLower(s[i]))
                                          || (s[i] == t[i] && (s[i] == '\U{2191}' || s[i] == '\U{2193}'))
    ensures ToLower(tx, s) == t
  {}

  // ---- every spelling belongs to one named key ----

  const MODIFIER: nat := 14

  /** Length, first two letters and last letter of a spelling decide what it names. */
  function Owner(s: string): nat
    requires |s| >= 2
  {
    var a, b, z := s[0], s[1], s[|s| - 1];
    if |s| == 2 then if a == 'u' then 1 else 3
    else if |s| == 3 then
      if a == 'a' then if b == 'l' then MODIFIER else 1
      else if a == 'd' then 9 else if a == 't' then 12 else if a == 'w' then MODIFIER
      else if b == 'n' then 5 else 11
    else if |s| == 4 then
      if a == 'l' then 0 else if a == 'd' then 3 else if a == 'p' then 4
      else if a == 's' || a == 'c' then MODIFIER
      else if a == 'h' then if z == 'h' then 1 else 4
      else if z == 'e' then 5 else 9
    else if |s| == 5 then
      if a == 'l' then 0 else if a == 'r' then 2
      else if a == 'b' then if z == '\U{2191}' then 6 else 7
      else if a == 's' then if b == 'h' then MODIFIER else 10
      else if b == 'i' then 8 else 13
    else if |s| == 6 then
      if a == 'r' then if z == 's' then 2 else if z == 'r' then 3 else 13
      else if a == 'p' then 6 else if a == 'b' then 7 else if a == 'i' then 8 else if a == 'd' then 9 else 11
    else if |s| == 7 then if a == 'b' then 6 else if a == 'e' then 13 else MODIFIER
    else if |s| == 8 then if a == 'b' then 6 else if a == 'p' then 7 else MODIFIER
    else if |s| == 9 then
      if a == 'l' then 10 else if a == 't' then 12 else if a == 's' then MODIFIER else if b == 'i' then 8 else 9
    else 7
  }

  predicate Owned(s: string, i: nat) {
    |s| >= 2 && s[0] != 'f' && Owner(s) == i
  }

  /** The two printed spellings of named key i, lower-cased. */
  function Lowered(i: nat): (string, string)
    requires i < NAMED_COUNT
  {
    match i
    case 0 => ("left", "links")
    case 1 => ("up", "hoch")
    case 2 => ("right", "rechts")
    case 3 => ("down", "runter")
    case 4 => ("home", "pos1")
    case 5 => ("end", "ende")
    case 6 => ("pageup", "bild\U{2191}")
    case 7 => ("pagedown", "bild\U{2193}")
    case 8 => ("insert", "einfg")
    case 9 => ("delete", "entf")
    case 10 => ("space", "leertaste")
    case 11 => ("escape", "esc")
    case 12 => ("tab", "tab")
    case _ => ("enter", "eingabe")
  }

  /** t is the word s in lower case. */
  predicate Spells(s: string, t: string) {
    |s| == |t| > 0 && forall k :: 0 <= k < |s| ==> LetterSpells(s[k], t[k])
  }

  predicate LetterSpells(c: char, d: char) {
    || ('A' <= c <= 'Z' && d == AsciiLower(c))
    || (c == d && ('a' <= c <= 'z' || '0' <= c <= '9' || c == '\U{2191}' || c == '\U{2193}'))
  }

  lemma SpellsLowers(tx: Locale, s: string, t: string)
    requires LowersNames(tx) && Spells(s, t)
    ensures ToLower(tx, s) == t && IsToken(s)
  {
    LowerIs(tx, s, t);
  }

  lemma ArrowsSpell(i: nat)
    requires i < 3
    ensures Spells(NamedKeyAt(i).canonical, Lowered(i).0) && Spells(NamedKeyAt(i).german, Lowered(i).1)
  {}

  lemma HomeEndSpell(i: nat)
    requires 3 <= i < 6
    ensures Spells(NamedKeyAt(i).canonical, Lowered(i).0) && Spells(NamedKeyAt(i).german, Lowered(i).1)
  {}

  lemma PagingSpells(i: nat)
    requires 6 <= i < 8
    ensures Spells(NamedKeyAt(i).canonical, Lowered(i).0) && Spells(NamedKeyAt(i).german, Lowered(i).1)
  {}

  lemma EditingSpells(i: nat)
    requires 8 <= i < 11
    ensures Spells(NamedKeyAt(i).canonical, Lowered(i).0) && Spells(NamedKeyAt(i).german, Lowered(i).1)
  {}

  lemma ControlSpells(i: nat)
    requires 11 <= i < NAMED_COUNT
    ensures Spells(NamedKeyAt(i).canonical, Lowered(i).0) && Spells(NamedKeyAt(i).german, Lowered(i).1)
  {}

  lemma NamesLower(tx: Locale, i: nat)
    requires LowersNames(tx) && i < NAMED_COUNT
    ensures ToLower(tx, NamedKeyAt(i).canonical) == Lowered(i).0 && ToLower(tx, NamedKeyAt(i).german) == Lowered(i).1
    ensures IsToken(NamedKeyAt(i).canonical) && IsToken(NamedKeyAt(i).german)
  {
    hide *;
    if i < 3 {
      ArrowsSpell(i);
    } else if i < 6 {
      HomeEndSpell(i);
    } else if i < 8 {
      PagingSpells(i);
    } else if i < 11 {
      EditingSpells(i);
    } else {
      ControlSpells(i);
    }
    SpellsLowers(tx, NamedKeyAt(i).canonical, Lowered(i).0);
    SpellsLowers(tx, NamedKeyAt(i).german, Lowered(i).1);
  }

  lemma LoweredOwned(i: nat)
    requires i < NAMED_COUNT
    ensures Owned(Lowered(i).0, i) && Owned(Lowered(i).1, i)
  {}

  lemma AliasesOwned(i: nat)
    requires i < NAMED_COUNT
    ensures forall k :: 0 <= k < |NamedKeyAt(i).aliases| ==> Owned(NamedKeyAt(i).aliases[k], i)
  {}

  lemma SpellingsOwned(tx: Locale, i: nat, s: string)
    requires LowersNames(tx) && i < NAMED_COUNT && s in SpellingsOf(tx, NamedKeyAt(i))
    ensures Owned(s, i)
  {
    hide NamedKeyAt, Lowered, Owned, ToLower, LowersNames;
    NamesLower(tx, i);
    LoweredOwned(i);
    AliasesOwned(i);
  }

  lemma ModifiersOwned(name: string)
    requires ModOf(name).Some?
    ensures Owned(name, MODIFIER)
  {}

  // ---- looking names up ----

  lemma {:induction false} LookupFinds(tx: Locale, s: string, i: nat, n: nat)
    requires LowersNames(tx) && i < n <= NAMED_COUNT && s in SpellingsOf(tx, NamedKeyAt(i))
    ensures NamedByName(tx, s, n) == Some(NamedKeyAt(i).vk)
    decreases n
  {
    hide NamedKeyAt, SpellingsOf, LowersNames, Owner;
    SpellingsOwned(tx, i, s);
    if s in SpellingsOf(tx, NamedKeyAt(n - 1)) {
      SpellingsOwned(tx, n - 1, s);
    } else if i < n - 1 {
      LookupFinds(tx, s, i, n - 1);
    }
  }

  lemma {:induction false} LookupMisses(tx: Locale, s: string, n: nat)
    requires LowersNames(tx) && n <= NAMED_COUNT && (|s| < 2 || s[0] == 'f')
    ensures NamedByName(tx, s, n) == None
  {
    hide NamedKeyAt, SpellingsOf, LowersNames, Owner;
    if n > 0 {
      if s in SpellingsOf(tx, NamedKeyAt(n - 1)) {
        SpellingsOwned(tx, n - 1, s);
      } else {
        LookupMisses(tx, s, n - 1);
      }
    }
  }

  lemma {:induction false} FunctionKeyFinds(i: nat, n: nat)
    requires 1 <= i <= n <= 24
    ensures FunctionKey("f" + Decimal.Text(i), n) == Some(0x70 + i - 1)
    decreases n
  {
    hide Decimal.Text;
    if i < n {
      if "f" + Decimal.Text(i) == "f" + Decimal.Text(n) {
        assert Decimal.Text(i) == ("f" + Decimal.Text(i))[1..] == Decimal.Text(n);
        Decimal.TextInjective(i, n);
      } else {
        FunctionKeyFinds(i, n - 1);
      }
    }
  }

  lemma {:induction false} FunctionKeyMisses(s: string, n: nat)
    requires n <= 24 && |s| < 2
    ensures FunctionKey(s, n) == None
  {
    if n > 0 {
      Decimal.TextFacts(n);
      FunctionKeyMisses(s, n - 1);
    }
  }

  lemma FunctionNameLowered(tx: Locale, i: nat)
    requires LowersNames(tx)
    ensures ToLower(tx, "F" + Decimal.Text(i)) == "f" + Decimal.Text(i)
    ensures IsToken("F" + Decimal.Text(i))
  {
    Decimal.DigitsFacts(i);
    LowerIs(tx, "F" + Decimal.Text(i), "f" + Decimal.Text(i));
  }

  /** A printed key reads back as that key and nothing else. */
  lemma KeyNameMeans(tx: Locale, vk: nat, german: bool)
    requires LowersNames(tx) && ValidVK(vk)
    ensures MeaningOf(tx, KeyName(vk, german)) == Presses(vk) && IsToken(KeyName(vk, german))
  {
    hide Decimal.Text, NamedKeyAt, NamedByName, FunctionKey, ToLower, LowersNames, Owner, ModOf, IsToken;
    if 0x41 <= vk <= 0x5A {
      LetterMeans(tx, vk);
    } else if 0x30 <= vk <= 0x39 {
      DigitMeans(tx, vk);
    } else if 0x70 <= vk <= 0x87 {
      FunctionKeyMeans(tx, vk - 0x70 + 1);
    } else {
      NamedKeyMeans(tx, NamedByCode(vk, 0), german);
    }
  }

  lemma ShortIsNoModifier(s: string)
    requires |s| < 2 || s[0] == 'f'
    ensures ModOf(s).None?
  {
    hide Owner;
    if ModOf(s).Some? {
      ModifiersOwned(s);
    }
  }

  lemma LetterMeans(tx: Locale, vk: nat)
    requires LowersNames(tx) && 0x41 <= vk <= 0x5A
    ensures MeaningOf(tx, [('A' as int + vk - 0x41) as char]) == Presses(vk)
    ensures IsToken([('A' as int + vk - 0x41) as char])
  {
    hide NamedByName, FunctionKey, ModOf;
    var name := [('a' as int + vk - 0x41) as char];
    LowerIs(tx, [('A' as int + vk - 0x41) as char], name);
    ShortIsNoModifier(name);
    LookupMisses(tx, name, NAMED_COUNT);
    FunctionKeyMisses(name, 24);
  }

  lemma DigitMeans(tx: Locale, vk: nat)
    requires LowersNames(tx) && 0x30 <= vk <= 0x39
    ensures MeaningOf(tx, [('0' as int + vk - 0x30) as char]) == Presses(vk)
    ensures IsToken([('0' as int + vk - 0x30) as char])
  {
    hide NamedByName, FunctionKey, ModOf;
    var name := [('0' as int + vk - 0x30) as char];
    LowerIs(tx, name, name);
    ShortIsNoModifier(name);
    LookupMisses(tx, name, NAMED_COUNT);
    FunctionKeyMisses(name, 24);
  }

  lemma FunctionKeyMeans(tx: Locale, i: nat)
    requires LowersNames(tx) && 1 <= i <= 24
    ensures MeaningOf(tx, "F" + Decimal.Text(i)) == Presses(0x70 + i - 1)
    ensures IsToken("F" + Decimal.Text(i))
  {
    hide NamedByName, FunctionKey, ModOf, Decimal.Text, ToLower, LowersNames, IsToken;
    FunctionNameLowered(tx, i);
    ShortIsNoModifier("f" + Decimal.Text(i));
    LookupMisses(tx, "f" + Decimal.Text(i), NAMED_COUNT);
    FunctionKeyFinds(i, 24);
  }

  lemma NamedKeyMeans(tx: Locale, i: nat, german: bool)
    requires LowersNames(tx) && i < NAMED_COUNT
    ensures var printed := Pick(german, NamedKeyAt(i).german, NamedKeyAt(i).canonical);
      MeaningOf(tx, printed) == Presses(NamedKeyAt(i).vk) && IsToken(printed)
  {
    hide NamedByName, FunctionKey, ModOf, ToLower, LowersNames, NamedKeyAt, Owner, IsToken;
    var printed := Pick(german, NamedKeyAt(i).german, NamedKeyAt(i).canonical);
    var name := ToLower(tx, printed);
    assert name == SpellingsOf(tx, NamedKeyAt(i))[if german then 1 else 0];
    LookupFinds(tx, name, i, NAMED_COUNT);
    SpellingsOwned(tx, i, name);
    if ModOf(name).Some? {
      ModifiersOwned(name);
    }
    NamesLower(tx, i);
  }

  lemma ModifierMeans(tx: Locale, german: bool)
    requires LowersNames(tx)
    ensures MeaningOf(tx, Pick(german, "Strg", "Ctrl")) == Modifies(Ctrl) && IsToken(Pick(german, "Strg", "Ctrl"))
    ensures MeaningOf(tx, "Alt") == Modifies(Alt) && IsToken("Alt")
    ensures MeaningOf(tx, Pick(german, "Umschalt", "Shift")) == Modifies(Shift)
      && IsToken(Pick(german, "Umschalt", "Shift"))
    ensures MeaningOf(tx, "Win") == Modifies(Win) && IsToken("Win")
  {
    hide *;
    ModifierNames();
    ModifierMeansOne(tx, "Strg", "strg", Ctrl);
    ModifierMeansOne(tx, "Ctrl", "ctrl", Ctrl);
    ModifierMeansOne(tx, "Alt", "alt", Alt);
    ModifierMeansOne(tx, "Umschalt", "umschalt", Shift);
    ModifierMeansOne(tx, "Shift", "shift", Shift);
    ModifierMeansOne(tx, "Win", "win", Win);
    PickEither(german, "Strg", "Ctrl");
    PickEither(german, "Umschalt", "Shift");
  }

  lemma PickEither(german: bool, de: string, en: string)
    ensures Pick(german, de, en) == de || Pick(german, de, en) == en
  {}

  lemma ModifierNames()
    ensures Spells("Strg", "strg") && Spells("Ctrl", "ctrl") && Spells("Alt", "alt")
    ensures Spells("Umschalt", "umschalt") && Spells("Shift", "shift") && Spells("Win", "win")
    ensures ModOf("strg") == ModOf("ctrl") == Some(Ctrl) && ModOf("alt") == Some(Alt)
    ensures ModOf("umschalt") == ModOf("shift") == Some(Shift) && ModOf("win") == Some(Win)
  {}

  lemma ModifierMeansOne(tx: Locale, printed: string, name: string, m: Modifier)
    requires LowersNames(tx) && Spells(printed, name) && ModOf(name) == Some(m)
    ensures MeaningOf(tx, printed) == Modifies(m) && IsToken(printed)
  {
    hide KeyOf, ToLower, LowersNames, Spells, ModOf, IsToken;
    SpellsLowers(tx, printed, name);
  }

  // ---- the printed combination ----

  lemma {:induction false} TokensOfJoin(parts: seq<string>)
    requires forall k :: 0 <= k < |parts| ==> IsToken(parts[k])
    ensures Tokens(Decimal.Join(parts, "+")) == parts
  {
    hide IsToken;
    if parts == [] {
      NoTokens();
    } else if |parts| == 1 {
      TokensTake(parts[0], "");
      NoTokens();
      assert parts[0] + "" == parts[0] && parts == [parts[0]];
    } else {
      var rest := Decimal.Join(parts[1..], "+");
      TokensTake(parts[0], "+" + rest);
      TokensSkipRun("+", rest);
      TokensOfJoin(parts[1..]);
      assert parts[0] + "+" + rest == parts[0] + ("+" + rest);
      assert parts == [parts[0]] + parts[1..];
    }
  }

  function ModMeanings(mods: set<Modifier>): seq<Meaning> {
    (if Ctrl in mods then [Modifies(Ctrl)] else []) + (if Alt in mods then [Modifies(Alt)] else [])
    + (if Shift in mods then [Modifies(Shift)] else []) + (if Win in mods then [Modifies(Win)] else [])
  }

  lemma MeaningsConcat(tx: Locale, a: seq<string>, b: seq<string>)
    ensures Meanings(tx, a + b) == Meanings(tx, a) + Meanings(tx, b)
  {
    hide MeaningOf;
  }

  lemma MeaningsOfOne(tx: Locale, t: string)
    ensures Meanings(tx, [t]) == [MeaningOf(tx, t)]
    ensures Meanings(tx, []) == []
  {
    hide MeaningOf;
  }

  lemma ModPartsMean(tx: Locale, mods: set<Modifier>, german: bool)
    requires LowersNames(tx)
    ensures Meanings(tx, ModParts(mods, german)) == ModMeanings(mods)
    ensures forall t :: t in ModParts(mods, german) ==> IsToken(t)
  {
    hide MeaningOf, LowersNames, IsToken, Pick, Meanings;
    ModifierMeans(tx, german);
    var a := if Ctrl in mods then [Pick(german, "Strg", "Ctrl")] else [];
    var b := if Alt in mods then ["Alt"] else [];
    var c := if Shift in mods then [Pick(german, "Umschalt", "Shift")] else [];
    var d := if Win in mods then ["Win"] else [];
    MeaningsConcat(tx, a + b + c, d);
    MeaningsConcat(tx, a + b, c);
    MeaningsConcat(tx, a, b);
    MeaningsOfOne(tx, Pick(german, "Strg", "Ctrl"));
    MeaningsOfOne(tx, "Alt");
    MeaningsOfOne(tx, Pick(german, "Umschalt", "Shift"));
    MeaningsOfOne(tx, "Win");
  }

  lemma {:induction false} KeysInConcat(a: seq<Meaning>, b: seq<Meaning>)
    ensures KeysIn(a + b) == KeysIn(a) + KeysIn(b)
  {
    if a == [] {
      assert a + b == b;
    } else {
      assert (a + b)[0] == a[0] && (a + b)[1..] == a[1..] + b;
      KeysInConcat(a[1..], b);
      var first := if a[0].Presses? then [a[0].vk] else [];
      assert KeysIn(a) == first + KeysIn(a[1..]) && KeysIn(a + b) == first + KeysIn(a[1..] + b);
    }
  }

  lemma {:induction false} NoKeysAmongModifiers(a: seq<Meaning>)
    requires forall k :: 0 <= k < |a| ==> a[k].Modifies?
    ensures KeysIn(a) == []
  {
    if a != [] {
      NoKeysAmongModifiers(a[1..]);
    }
  }

  lemma PrintedMeans(h: Hotkey)
    requires h.mods != {}
    ensures Means(ModMeanings(h.mods) + [Presses(h.key)], h)
  {
    var ms := ModMeanings(h.mods);
    NoKeysAmongModifiers(ms);
    KeysInConcat(ms, [Presses(h.key)]);
    assert KeysIn([Presses(h.key)]) == [h.key] by {
      assert [Presses(h.key)][1..] == [];
    }
    assert [] + [h.key] == [h.key];
    assert forall m :: Modifies(m) in ms + [Presses(h.key)] <==> Modifies(m) in ms;
    ModMeaningsHave(h.mods);
  }

  lemma ModMeaningsHave(mods: set<Modifier>)
    ensures forall m: Modifier :: Modifies(m) in ModMeanings(mods) <==> m in mods
    ensures Unknown !in ModMeanings(mods)
  {
    forall m: Modifier ensures Modifies(m) in ModMeanings(mods) <==> m in mods {
      match m
      case Alt =>
      case Ctrl =>
      case Shift =>
      case Win =>
    }
  }

  /** Printing then parsing gives the combination back, in the storage form and in the German one. */
  lemma PrintThenParse(tx: Locale, h: Hotkey, german: bool)
    requires LowersNames(tx) && (Valid(h) || h == NONE)
    ensures ParseOf(tx, Format(h, german)) == Ok(h)
  {
    hide LowersNames, KeyName, ModParts, MeaningOf, ModMeanings, ParseOf, Means, ValidVK, IsToken, Tokens;
    if h == NONE {
      BlankIsNoHotkey(tx, "");
    } else {
      var parts := ModParts(h.mods, german) + [KeyName(h.key, german)];
      ModPartsMean(tx, h.mods, german);
      KeyNameMeans(tx, h.key, german);
      MeaningsConcat(tx, ModParts(h.mods, german), [KeyName(h.key, german)]);
      MeaningsOfOne(tx, KeyName(h.key, german));
      PrintedMeans(h);
      TokensOfJoin(parts);
      PrintedIsNotBlank(tx, h, german);
      ParseMeans(tx, Format(h, german), h);
    }
  }

  lemma PrintedIsNotBlank(tx: Locale, h: Hotkey, german: bool)
    requires LowersNames(tx) && Valid(h)
    ensures TrimSpace(Format(h, german)) != ""
  {
    hide TrimSpace, KeyName, LowersNames, ValidVK;
    var s := Format(h, german);
    assert h.mods != {};
    var m :| m in h.mods;
    FirstPartShows(h, german);
    BlankIffAllSpace(s);
  }

  lemma FirstPartShows(h: Hotkey, german: bool)
    requires h.mods != {} && !IsZero(h)
    ensures Format(h, german) != "" && !IsSpace(Format(h, german)[0])
  {
    hide KeyName;
    var parts := ModParts(h.mods, german) + [KeyName(h.key, german)];
    SomeModifier(h.mods);
    assert |parts| >= 2 && parts[0] in ["Strg", "Ctrl", "Alt", "Umschalt", "Shift", "Win"];
    assert Decimal.Join(parts, "+") == parts[0] + "+" + Decimal.Join(parts[1..], "+");
    assert Format(h, german)[0] == parts[0][0];
  }

  lemma SomeModifier(mods: set<Modifier>)
    requires mods != {}
    ensures Ctrl in mods || Alt in mods || Shift in mods || Win in mods
  {
    var m :| m in mods;
    match m
    case Alt =>
    case Ctrl =>
    case Shift =>
    case Win =>
  }
}
