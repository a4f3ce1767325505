/** Decimal rendering of integers, and why a rendered number ends where it does. */
module Decimal {

  function Digit(d: nat): char
    requires d < 10
  {
    ('0' as int + d) as char
  }

  function Digits(n: nat): string {
    if n < 10 then [Digit(n)] else Digits(n / 10) + [Digit(n % 10)]
  }

  /** The "%d" rendering. */
  function Text(n: int): string {
    if n < 0 then "-" + Digits(-n) else Digits(n)
  }

  predicate IsNumeric(c: char) {
    '0' <= c <= '9' || c == '-'
  }

  function Value(s: string): int {
    if s == "" then 0 else 10 * Value(s[..|s| - 1]) + (s[|s| - 1] as int - '0' as int)
  }

  lemma {:induction false} DigitsFacts(n: nat)
    ensures Value(Digits(n)) == n
    ensures Digits(n) != "" && forall i :: 0 <= i < |Digits(n)| ==> '0' <= Digits(n)[i] <= '9'
  {
    if n >= 10 {
      DigitsFacts(n / 10);
      assert Digits(n)[..|Digits(n)| - 1] == Digits(n / 10);
    } else {
      assert Digits(n)[..0] == "";
    }
  }

  lemma TextFacts(n: int)
    ensures Text(n) != "" && forall i :: 0 <= i < |Text(n)| ==> IsNumeric(Text(n)[i])
    ensures Text(n)[0] == '-' <==> n < 0
  {
    DigitsFacts(if n < 0 then -n else n);
  }

  lemma TextInjective(m: int, n: int)
    requires Text(m) == Text(n)
    ensures m == n
  {
    TextFacts(m);
    TextFacts(n);
    if m < 0 {
      assert Text(m)[1..] == Digits(-m) && Text(n)[1..] == Digits(-n);
    }
    DigitsFacts(if m < 0 then -m else m);
    DigitsFacts(if n < 0 then -n else n);
  }

  /** s does not continue a number. */
  predicate Stops(s: string) {
    s == "" || !IsNumeric(s[0])
  }

  lemma NumberIsNotLonger(m: int, n: int, s: string, t: string)
    requires Text(m) + s == Text(n) + t && Stops(s)
    ensures |Text(n)| <= |Text(m)|
  {
    TextFacts(n);
    var whole := Text(m) + s;
    assert forall k :: 0 <= k < |Text(n)| ==> whole[k] == Text(n)[k];
    assert |Text(m)| < |whole| ==> whole[|Text(m)|] == s[0];
  }

  /** A number in front of something that does not continue it can be read back. */
  lemma NumberIsReadable(m: int, n: int, s: string, t: string)
    requires Text(m) + s == Text(n) + t && Stops(s) && Stops(t)
    ensures m == n && s == t
  {
    NumberIsNotLonger(m, n, s, t);
    NumberIsNotLonger(n, m, t, s);
    assert Text(m) == (Text(m) + s)[..|Text(m)|] == Text(n);
    assert s == (Text(m) + s)[|Text(m)|..] == t;
    TextInjective(m, n);
  }

  /** strings.Join. */
  function Join(parts: seq<string>, sep: string): string {
    if |parts| == 0 then ""
    else if |parts| == 1 then parts[0]
    else parts[0] + sep + Join(parts[1..], sep)
  }
}
