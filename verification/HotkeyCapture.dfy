/** The typed and the captured path agree about which combinations exist. */
module HotkeyCapture {
  import opened Types
  import opened Text
  import opened HotkeyText
  import opened HotkeyTokens
  import opened HotkeyRoundTrip

  // ---- the two modifier vocabularies ----

  const MOD_ALT: bv32 := 1
  const MOD_CONTROL: bv32 := 2
  const MOD_SHIFT: bv32 := 4
  const MOD_WIN: bv32 := 8

  function Win32Mods(mods: set<Modifier>): bv32 {
    (if Alt in mods then MOD_ALT else 0) | (if Ctrl in mods then MOD_CONTROL else 0)
    | (if Shift in mods then MOD_SHIFT else 0) | (if Win in mods then MOD_WIN else 0)
  }

  function HotkeyMods(bits: bv32): set<Modifier> {
    (if bits & MOD_ALT != 0 then {Alt} else {}) + (if bits & MOD_CONTROL != 0 then {Ctrl} else {})
    + (if bits & MOD_SHIFT != 0 then {Shift} else {}) + (if bits & MOD_WIN != 0 then {Win} else {})
  }

  lemma ModsRoundTrip(mods: set<Modifier>)
    ensures HotkeyMods(Win32Mods(mods)) == mods
  {
    var bits := Win32Mods(mods);
    assert bits & MOD_ALT != 0 <==> Alt in mods;
    assert bits & MOD_CONTROL != 0 <==> Ctrl in mods;
    assert bits & MOD_SHIFT != 0 <==> Shift in mods;
    assert bits & MOD_WIN != 0 <==> Win in mods;
    forall m: Modifier ensures m in HotkeyMods(bits) <==> m in mods {
      match m
      case Alt =>
      case Ctrl =>
      case Shift =>
      case Win =>
    }
  }

  /** The other way round, every bit but the four flags is dropped. */
  lemma BitsRoundTrip(bits: bv32)
    ensures Win32Mods(HotkeyMods(bits)) == bits & 15
  {
    var mods := HotkeyMods(bits);
    assert Alt in mods <==> bits & MOD_ALT != 0;
    assert Ctrl in mods <==> bits & MOD_CONTROL != 0;
    assert Shift in mods <==> bits & MOD_SHIFT != 0;
    assert Win in mods <==> bits & MOD_WIN != 0;
  }

  /** The system's flags: Alt is 1, Ctrl 2, Shift 4, Win 8. */
  lemma FlagValues(mods: set<Modifier>)
    ensures Win32Mods(mods) & 1 != 0 <==> Alt in mods
    ensures Win32Mods(mods) & 2 != 0 <==> Ctrl in mods
    ensures Win32Mods(mods) & 4 != 0 <==> Shift in mods
    ensures Win32Mods(mods) & 8 != 0 <==> Win in mods
    ensures Win32Mods(mods) < 16
  {}

  lemma ModsInjective(a: set<Modifier>, b: set<Modifier>)
    requires Win32Mods(a) == Win32Mods(b)
    ensures a == b
  {
    hide Win32Mods, HotkeyMods;
    ModsRoundTrip(a);
    ModsRoundTrip(b);
  }

  // ---- which keys exist ----

  lemma {:induction false} NamedCodeFound(i: nat, from: nat)
    requires from <= i < NAMED_COUNT
    ensures NamedByCode(NamedKeyAt(i).vk, from) < NAMED_COUNT
    decreases i - from
  {
    hide NamedKeyAt;
    if from < i && NamedKeyAt(from).vk != NamedKeyAt(i).vk {
      NamedCodeFound(i, from + 1);
    }
  }

  lemma {:induction false} NamedNameIsValid(tx: Locale, name: string, n: nat)
    requires n <= NAMED_COUNT && NamedByName(tx, name, n).Some?
    ensures ValidVK(NamedByName(tx, name, n).value)
  {
    hide NamedKeyAt, SpellingsOf;
    if name in SpellingsOf(tx, NamedKeyAt(n - 1)) {
      NamedCodeFound(n - 1, 0);
    } else {
      NamedNameIsValid(tx, name, n - 1);
    }
  }

  lemma {:induction false} FunctionNameIsValid(name: string, n: nat)
    requires n <= 24 && FunctionKey(name, n).Some?
    ensures 0x70 <= FunctionKey(name, n).value <= 0x87
  {
    if FunctionKey(name, n) != Some(0x70 + n - 1) {
      FunctionNameIsValid(name, n - 1);
    }
  }

  lemma KnownNameIsValid(tx: Locale, name: string)
    requires KeyOf(tx, name).Some?
    ensures ValidVK(KeyOf(tx, name).value)
  {
    hide NamedByName, FunctionKey, NamedByCode;
    if NamedByName(tx, name, NAMED_COUNT).Some? {
      NamedNameIsValid(tx, name, NAMED_COUNT);
    } else if FunctionKey(name, 24).Some? {
      FunctionNameIsValid(name, 24);
    }
  }

  /** The codes accepted from the keyboard are exactly those some typed name stands for. */
  lemma ValidIffNamed(tx: Locale, vk: nat)
    requires LowersNames(tx)
    ensures ValidVK(vk) <==> exists name :: KeyOf(tx, name) == Some(vk)
  {
    hide KeyOf, ValidVK, KeyName, ModOf, LowersNames, ToLower;
    if ValidVK(vk) {
      KeyNameMeans(tx, vk, false);
      assert KeyOf(tx, ToLower(tx, KeyName(vk, false))) == Some(vk);
    }
    forall name | KeyOf(tx, name) == Some(vk) ensures ValidVK(vk) {
      KnownNameIsValid(tx, name);
    }
  }

  // ---- parsing yields valid hotkeys, and capture accepts exactly those ----

  lemma {:induction false} KeysAreKnown(tx: Locale, tokens: seq<string>, vk: nat)
    requires vk in KeysIn(Meanings(tx, tokens))
    ensures ValidVK(vk)
  {
    hide KeyOf, ValidVK, ModOf, ToLower;
    var ms := Meanings(tx, tokens);
    if tokens != [] {
      assert ms[1..] == Meanings(tx, tokens[1..]);
      if ms[0] == Presses(vk) {
        KnownNameIsValid(tx, ToLower(tx, tokens[0]));
      } else {
        KeysAreKnown(tx, tokens[1..], vk);
      }
    }
  }

  lemma ParseIsValid(tx: Locale, s: string, h: Hotkey)
    requires ParseOf(tx, s) == Ok(h)
    ensures if TrimSpace(s) == "" then h == NONE else Valid(h)
  {
    hide ParseTokens, Tokens, TrimSpace, MeaningOf, ValidVK, KeysIn, ModsIn;
    if TrimSpace(s) != "" {
      ParseMeans(tx, s, h);
      assert h.key in [h.key];
      KeysAreKnown(tx, Tokens(s), h.key);
    }
  }

  /** Storing what was parsed loses nothing: the stored text parses to the same combination, so it is its own stored
      form. */
  lemma CanonicalIsNormalForm(tx: Locale, s: string, h: Hotkey)
    requires LowersNames(tx) && ParseOf(tx, s) == Ok(h)
    ensures ParseOf(tx, Canonical(h)) == Ok(h) && ParseOf(tx, Label(h)) == Ok(h)
  {
    hide ParseOf, TrimSpace, ValidVK, LowersNames, Format;
    ParseIsValid(tx, s, h);
    PrintThenParse(tx, h, false);
    PrintThenParse(tx, h, true);
  }

  lemma CanonicalIsInjective(tx: Locale, h: Hotkey, h': Hotkey)
    requires LowersNames(tx) && (Valid(h) || h == NONE) && (Valid(h') || h' == NONE)
    requires Canonical(h) == Canonical(h') || Label(h) == Label(h')
    ensures h == h'
  {
    hide ParseOf, ValidVK, LowersNames, Format;
    PrintThenParse(tx, h, false);
    PrintThenParse(tx, h', false);
    PrintThenParse(tx, h, true);
    PrintThenParse(tx, h', true);
  }

  lemma SpecialCodesAreInvalid()
    ensures !ValidVK(0) && !ValidVK(VK_NO_MAPPING)
  {
    NoNamedCode(0, 0);
    NoNamedCode(VK_NO_MAPPING, 0);
  }

  lemma NoNamedCode(vk: nat, from: nat)
    requires from <= NAMED_COUNT && (vk == 0 || vk == VK_NO_MAPPING)
    ensures NamedByCode(vk, from) == NAMED_COUNT
    decreases NAMED_COUNT - from
  {
    if from < NAMED_COUNT {
      NoNamedCode(vk, from + 1);
    }
  }

  /** The capture dialog accepts a keystroke exactly when some text parses to it, and then as the same hotkey. */
  lemma CaptureAgreesWithParse(tx: Locale, bits: bv32, vk: nat)
    requires LowersNames(tx)
    ensures var h := Hotkey(HotkeyMods(bits), vk);
      && (FromKeys(HotkeyMods(bits), vk).Accepted? <==> h != NONE && exists s :: ParseOf(tx, s) == Ok(h))
      && (FromKeys(HotkeyMods(bits), vk).Accepted? ==>
           FromKeys(HotkeyMods(bits), vk).h == h && Valid(h) && ParseOf(tx, Canonical(h)) == Ok(h))
  {
    hide ParseOf, ValidVK, LowersNames, Format, HotkeyMods, TrimSpace;
    var h := Hotkey(HotkeyMods(bits), vk);
    SpecialCodesAreInvalid();
    if Valid(h) {
      PrintThenParse(tx, h, false);
    }
    forall s | ParseOf(tx, s) == Ok(h) ensures Valid(h) || h == NONE {
      ParseIsValid(tx, s, h);
    }
  }

  /** Why a keystroke is refused: no key yet, the code that stands for no key, a key no name stands for, or no
      modifier; in this order. */
  lemma RefusalReasons(tx: Locale, mods: set<Modifier>, vk: nat)
    requires LowersNames(tx)
    ensures FromKeys(mods, vk) ==
      if vk == 0 then Refused(NoKeyPressed)
      else if vk == 0xFF then Refused(NoKeySignal)
      else if forall name :: KeyOf(tx, name) != Some(vk) then Refused(UnsupportedKey)
      else if mods == {} then Refused(NoModifier)
      else Accepted(Hotkey(mods, vk))
  {
    hide ValidVK, KeyOf, LowersNames;
    ValidIffNamed(tx, vk);
    SpecialCodesAreInvalid();
  }
}
