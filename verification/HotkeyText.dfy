/** Key combinations as data: the lenient parser, the canonical printer and the name tables. */
module HotkeyText {
  import opened Types
  import opened Text
  import Decimal

  /** The modifier bitmask has four flags; a set of flags is the same thing. */
  datatype Modifier = Alt | Ctrl | Shift | Win

  datatype Hotkey = Hotkey(mods: set<Modifier>, key: nat)

  const NONE := Hotkey({}, 0)

  predicate IsZero(h: Hotkey) {
    h.mods == {} && h.key == 0
  }

  // ---- name tables ----

  /** Every accepted spelling of a modifier, lower-cased. */
  function ModOf(name: string): Option<Modifier> {
    if name == "strg" || name == "ctrl" || name == "control" || name == "steuerung" then Some(Ctrl)
    else if name == "alt" then Some(Alt)
    else if name == "umschalt" || name == "shift" then Some(Shift)
    else if name == "win" || name == "windows" then Some(Win)
    else None
  }

  /** A key that is no letter, digit or function key. */
  datatype NamedKey = NamedKey(vk: nat, canonical: string, german: string, aliases: seq<string>)

  const NAMED_COUNT := 14

  function NamedKeyAt(i: nat): NamedKey
    requires i < NAMED_COUNT
  {
    match i
    case 0 => NamedKey(0x25, "Left", "Links", [])
    case 1 => NamedKey(0x26, "Up", "Hoch", ["auf"])
    case 2 => NamedKey(0x27, "Right", "Rechts", [])
    case 3 => NamedKey(0x28, "Down", "Runter", ["ab"])
    case 4 => NamedKey(0x24, "Home", "Pos1", [])
    case 5 => NamedKey(0x23, "End", "Ende", [])
    case 6 => NamedKey(0x21, "PageUp", "Bild\U{2191}", ["bildauf", "bildhoch"])
    case 7 => NamedKey(0x22, "PageDown", "Bild\U{2193}", ["bildab", "bildrunter"])
    case 8 => NamedKey(0x2D, "Insert", "Einfg", ["einfuegen"])
    case 9 => NamedKey(0x2E, "Delete", "Entf", ["entfernen", "del"])
    case 10 => NamedKey(0x20, "Space", "Leertaste", [])
    case 11 => NamedKey(0x1B, "Escape", "Esc", [])
    case 12 => NamedKey(0x09, "Tab", "Tab", ["tabulator"])
    case _ => NamedKey(0x0D, "Enter", "Eingabe", ["return"])
  }

  /** The lower-cased spellings under which a named key is stored in the lookup table. */
  function SpellingsOf(tx: Locale, k: NamedKey): seq<string> {
    [ToLower(tx, k.canonical), ToLower(tx, k.german)] + k.aliases
  }

  /** The named key stored last under this name, among the first n. */
  function NamedByName(tx: Locale, name: string, n: nat): Option<nat>
    requires n <= NAMED_COUNT
  {
    if n == 0 then None
    else if name in SpellingsOf(tx, NamedKeyAt(n - 1)) then Some(NamedKeyAt(n - 1).vk)
    else NamedByName(tx, name, n - 1)
  }

  /** The function key among F1 to Fn with this name. */
  function FunctionKey(name: string, n: nat): Option<nat>
    requires n <= 24
  {
    if n == 0 then None
    else if name == "f" + Decimal.Text(n) then Some(0x70 + n - 1)
    else FunctionKey(name, n - 1)
  }

  /** The key a lower-cased name stands for. The table is filled with letters, digits, function keys and
      named keys in this order, so the last of them to use a name decides. */
  function KeyOf(tx: Locale, name: string): Option<nat> {
    if NamedByName(tx, name, NAMED_COUNT).Some? then NamedByName(tx, name, NAMED_COUNT)
    else if FunctionKey(name, 24).Some? then FunctionKey(name, 24)
    else if |name| == 1 && '0' <= name[0] <= '9' then Some(name[0] as int - '0' as int + 0x30)
    else if |name| == 1 && 'a' <= name[0] <= 'z' then Some(name[0] as int - 'a' as int + 0x41)
    else None
  }

  // ---- tokens ----

  predicate IsSeparator(c: char) {
    c == '+' || c == '-' || c == ' '
  }

  /** How many characters the token at the front of s has. */
  function TokenLength(s: string): (n: nat)
    ensures n <= |s| && (n == |s| || IsSeparator(s[n]))
    ensures forall i :: 0 <= i < n ==> !IsSeparator(s[i])
  {
    if s == "" || IsSeparator(s[0]) then 0 else 1 + TokenLength(s[1..])
  }

  /** strings.FieldsFunc: the maximal separator-free runs. */
  function Tokens(s: string): seq<string> {
    if s == "" then []
    else if IsSeparator(s[0]) then Tokens(s[1..])
    else [s[..TokenLength(s)]] + Tokens(s[TokenLength(s)..])
  }

  // ---- parsing ----

  datatype ParseError = UnknownKey(token: string) | TwoKeys | MissingKey | MissingModifier
  datatype Parsed = Ok(h: Hotkey) | Err(e: ParseError)

  /** What is left to decide after the modifiers and key read so far. */
  function ParseTokens(tx: Locale, tokens: seq<string>, mods: set<Modifier>, key: Option<nat>): Parsed {
    if tokens == [] then
      if key.None? then Err(MissingKey)
      else if mods == {} then Err(MissingModifier)
      else Ok(Hotkey(mods, key.value))
    else
      var name := ToLower(tx, tokens[0]);
      if ModOf(name).Some? then ParseTokens(tx, tokens[1..], mods + {ModOf(name).value}, key)
      else if KeyOf(tx, name).None? then Err(UnknownKey(tokens[0]))
      else if key.Some? then Err(TwoKeys)
      else ParseTokens(tx, tokens[1..], mods, KeyOf(tx, name))
  }

  function ParseOf(tx: Locale, s: string): Parsed {
    if TrimSpace(s) == "" then Ok(NONE) else ParseTokens(tx, Tokens(s), {}, None)
  }

  method Parse(tx: Locale, s: string) returns (r: Parsed)
    ensures r == ParseOf(tx, s)
  {
    hide ModOf, KeyOf, Tokens, TrimSpace, ToLower;
    if TrimSpace(s) == "" {
      return Ok(NONE);
    }
    var tokens := Tokens(s);
    var mods: set<Modifier> := {};
    var key: Option<nat> := None;
    for i := 0 to |tokens|
      invariant ParseTokens(tx, tokens, {}, None) == ParseTokens(tx, tokens[i..], mods, key)
    {
      assert tokens[i..][0] == tokens[i] && tokens[i..][1..] == tokens[i + 1..];
      var name := ToLower(tx, tokens[i]);
      var m := ModOf(name);
      if m.Some? {
        mods := mods + {m.value};
        continue;
      }
      var vk := KeyOf(tx, name);
      if vk.None? {
        return Err(UnknownKey(tokens[i]));
      }
      if key.Some? {
        return Err(TwoKeys);
      }
      key := vk;
    }
    if key.None? {
      return Err(MissingKey);
    }
    if mods == {} {
      return Err(MissingModifier);
    }
    return Ok(Hotkey(mods, key.value));
  }

  // ---- printing ----

  function Pick(german: bool, de: string, en: string): string {
    if german then de else en
  }

  /** The modifiers in the fixed order Ctrl, Alt, Shift, Win. */
  function ModParts(mods: set<Modifier>, german: bool): seq<string> {
    (if Ctrl in mods then [Pick(german, "Strg", "Ctrl")] else [])
    + (if Alt in mods then ["Alt"] else [])
    + (if Shift in mods then [Pick(german, "Umschalt", "Shift")] else [])
    + (if Win in mods then ["Win"] else [])
  }

  function HexDigit(d: nat): char
    requires d < 16
  {
    if d < 10 then Decimal.Digit(d) else ('A' as int + d - 10) as char
  }

  /** "%02X". */
  function Hex(n: nat): string {
    if n < 16 then "0" + [HexDigit(n)]
    else if n < 256 then [HexDigit(n / 16), HexDigit(n % 16)]
    else Hex(n / 16) + [HexDigit(n % 16)]
  }

  /** The first named key with this code among those from `from` on, or NAMED_COUNT. */
  function NamedByCode(vk: nat, from: nat): (i: nat)
    requires from <= NAMED_COUNT
    ensures from <= i <= NAMED_COUNT && (i < NAMED_COUNT ==> NamedKeyAt(i).vk == vk)
    ensures i == NAMED_COUNT ==> forall j: nat :: from <= j < NAMED_COUNT ==> NamedKeyAt(j).vk != vk
    decreases NAMED_COUNT - from
  {
    if from == NAMED_COUNT || NamedKeyAt(from).vk == vk then from else NamedByCode(vk, from + 1)
  }

  function KeyName(vk: nat, german: bool): string {
    if 0x41 <= vk <= 0x5A then [('A' as int + vk - 0x41) as char]
    else if 0x30 <= vk <= 0x39 then [('0' as int + vk - 0x30) as char]
    else if 0x70 <= vk <= 0x87 then "F" + Decimal.Text(vk - 0x70 + 1)
    else if NamedByCode(vk, 0) < NAMED_COUNT then
      Pick(german, NamedKeyAt(NamedByCode(vk, 0)).german, NamedKeyAt(NamedByCode(vk, 0)).canonical)
    else "VK" + Hex(vk)
  }

  function Format(h: Hotkey, german: bool): string {
    if IsZero(h) then "" else Decimal.Join(ModParts(h.mods, german) + [KeyName(h.key, german)], "+")
  }

  function Canonical(h: Hotkey): string { Format(h, false) }
  function Label(h: Hotkey): string { Format(h, true) }

  // ---- captured keys ----

  predicate ValidVK(vk: nat) {
    0x41 <= vk <= 0x5A || 0x30 <= vk <= 0x39 || 0x70 <= vk <= 0x87 || NamedByCode(vk, 0) < NAMED_COUNT
  }

  const VK_NO_MAPPING := 0xFF

  datatype CaptureError = NoKeyPressed | NoKeySignal | UnsupportedKey | NoModifier
  datatype Captured = Accepted(h: Hotkey) | Refused(why: CaptureError)

  function FromKeys(mods: set<Modifier>, vk: nat): Captured {
    if vk == 0 then Refused(NoKeyPressed)
    else if vk == VK_NO_MAPPING then Refused(NoKeySignal)
    else if !ValidVK(vk) then Refused(UnsupportedKey)
    else if mods == {} then Refused(NoModifier)
    else Accepted(Hotkey(mods, vk))
  }

  /** A hotkey that can be registered: some modifier and a supported key. */
  predicate Valid(h: Hotkey) {
    h.mods != {} && ValidVK(h.key)
  }
}
