/** The string operations fenster borrows from its runtime. Case mapping, case folding and the
    file-name rules are parameters: every result holds for every choice of them. */
module Text {
  import opened Sequences

  /** lower and fold act rune by rune; fileName is the last element of a path, baseName the same without its
      extension. */
  datatype Locale = Locale(lower: char -> char, fold: char -> char, fileName: string -> string,
    baseName: string -> string)

  function ToLower(tx: Locale, s: string): string {
    Map(tx.lower, s)
  }

  /** Two strings are equal under folding when their folded forms coincide. */
  function Fold(tx: Locale, s: string): string {
    Map(tx.fold, s)
  }

  predicate EqualFold(tx: Locale, s: string, t: string) {
    Fold(tx, s) == Fold(tx, t)
  }

  /** Unicode white space. */
  predicate IsSpace(c: char) {
    var n := c as int;
    || 0x09 <= n <= 0x0D || n == 0x20 || n == 0x85 || n == 0xA0 || n == 0x1680
    || 0x2000 <= n <= 0x200A || n == 0x2028 || n == 0x2029 || n == 0x202F || n == 0x205F || n == 0x3000
  }

  /** White space is the ASCII blanks and line breaks, next line, no-break space, and the blanks of other scripts. */
  lemma SpacesAre(c: char)
    ensures IsSpace(c) <==> c in {'\t', '\n', '\U{0B}', '\U{0C}', '\r', ' ', '\U{85}', '\U{A0}', '\U{1680}', '\U{2000}',
      '\U{2001}', '\U{2002}', '\U{2003}', '\U{2004}', '\U{2005}', '\U{2006}', '\U{2007}', '\U{2008}', '\U{2009}',
      '\U{200A}', '\U{2028}', '\U{2029}', '\U{202F}', '\U{205F}', '\U{3000}'}
  {}

  function TrimLeft(s: string, cut: char -> bool): (r: string)
    ensures r == [] || !cut(r[0])
    ensures |r| <= |s| && r == s[|s| - |r|..]
    ensures forall i :: 0 <= i < |s| - |r| ==> cut(s[i])
  {
    if s != [] && cut(s[0]) then TrimLeft(s[1..], cut) else s
  }

  function TrimRight(s: string, cut: char -> bool): (r: string)
    ensures r == [] || !cut(r[|r| - 1])
    ensures |r| <= |s| && r == s[..|r|]
    ensures forall i :: |r| <= i < |s| ==> cut(s[i])
  {
    if s != [] && cut(s[|s| - 1]) then TrimRight(s[..|s| - 1], cut) else s
  }

  function TrimSpace(s: string): string {
    TrimRight(TrimLeft(s, IsSpace), IsSpace)
  }

  /** A string trims to nothing exactly when it is all white space. */
  lemma BlankIffAllSpace(s: string)
    ensures TrimSpace(s) == "" <==> forall i :: 0 <= i < |s| ==> IsSpace(s[i])
  {
    var left := TrimLeft(s, IsSpace);
    if left != "" {
      assert left[0] == s[|s| - |left|];
    }
  }

  /** Trimming from the left forgets any run of cut characters in front. */
  lemma {:induction false} TrimLeftPrefix(run: string, s: string, cut: char -> bool)
    requires forall i :: 0 <= i < |run| ==> cut(run[i])
    ensures TrimLeft(run + s, cut) == TrimLeft(s, cut)
  {
    if run == "" {
      assert run + s == s;
    } else {
      assert (run + s)[1..] == run[1..] + s;
      TrimLeftPrefix(run[1..], s, cut);
    }
  }

  predicate OccursAt(s: string, sep: string, k: nat) {
    k + |sep| <= |s| && s[k..k + |sep|] == sep
  }

  /** Where sep occurs last among the first n starting positions of s, or -1. */
  function LastIndexBelow(s: string, sep: string, n: nat): (r: int)
    ensures -1 <= r < n
    ensures r >= 0 ==> OccursAt(s, sep, r)
    ensures forall k :: r < k < n ==> !OccursAt(s, sep, k)
  {
    if n == 0 then -1
    else if OccursAt(s, sep, n - 1) then n - 1
    else LastIndexBelow(s, sep, n - 1)
  }

  function LastIndex(s: string, sep: string): (r: int)
    ensures -1 <= r && (r >= 0 ==> OccursAt(s, sep, r))
    ensures forall k :: r < k ==> !OccursAt(s, sep, k)
  {
    LastIndexBelow(s, sep, |s| + 1)
  }
}
