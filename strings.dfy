/** Character classes and small string operations of the JavaScript runtime
    that the addon's helpers rely on: the regular-expression classes `\s`,
    `\d` and `\w`, ASCII `toLowerCase`, `String.prototype.includes`, and the
    `Number(...)` / template-literal round trip on digit strings. */
module Strings {

  datatype Option<+T> = None | Some(value: T)

  /** JavaScript `\s`: WhiteSpace and LineTerminator code points. */
  predicate IsSpace(c: char) {
    c == '\t' || c == '\n' || c == '\U{000b}' || c == '\U{000c}' || c == '\r' || c == ' '
    || c == '\U{00a0}' || c == '\U{1680}' || ('\U{2000}' <= c <= '\U{200a}')
    || c == '\U{2028}' || c == '\U{2029}' || c == '\U{202f}' || c == '\U{205f}'
    || c == '\U{3000}' || c == '\U{feff}'
  }

  /** The characters that `.` in a JavaScript regular expression refuses. */
  predicate IsLineTerminator(c: char) {
    c == '\n' || c == '\r' || c == '\U{2028}' || c == '\U{2029}'
  }

  /** JavaScript `\d`. */
  predicate IsDigit(c: char) {
    '0' <= c <= '9'
  }

  /** JavaScript `\w` (without the `u` flag): the characters `\b` looks at. */
  predicate IsWordChar(c: char) {
    ('a' <= c <= 'z') || ('A' <= c <= 'Z') || IsDigit(c) || c == '_'
  }

  predicate IsUpper(c: char) {
    'A' <= c <= 'Z'
  }

  /** `toLowerCase` restricted to ASCII letters. */
  function LowerChar(c: char): (r: char)
    ensures IsUpper(c) ==> r as int == c as int + 32
    ensures !IsUpper(c) ==> r == c
    ensures !IsUpper(r)
  {
    if IsUpper(c) then (c as int + 32) as char else c
  }

  function Lower(s: string): (r: string)
    ensures |r| == |s|
    ensures forall i :: 0 <= i < |s| ==> r[i] == LowerChar(s[i])
  {
    seq(|s|, i requires 0 <= i < |s| => LowerChar(s[i]))
  }

  predicate AllDigits(s: string) {
    forall i :: 0 <= i < |s| ==> IsDigit(s[i])
  }

  /** `pat` occurs in `s` starting at index `i`. */
  predicate OccursAt(s: string, pat: string, i: int) {
    0 <= i && i + |pat| <= |s| && s[i..i + |pat|] == pat
  }

  /** `s.includes(pat)`, scanning the start positions from `from` on. */
  function ContainsFrom(s: string, pat: string, from: nat): (r: bool)
    requires from <= |s|
    ensures r <==> exists i :: from <= i && OccursAt(s, pat, i)
    decreases |s| - from
  {
    if from + |pat| > |s| then false
    else if s[from..from + |pat|] == pat then (assert OccursAt(s, pat, from); true)
    else ContainsFrom(s, pat, from + 1)
  }

  function Contains(s: string, pat: string): (r: bool)
    ensures r <==> exists i :: OccursAt(s, pat, i)
  {
    ContainsFrom(s, pat, 0)
  }

  function DigitValue(c: char): nat
    requires IsDigit(c)
  {
    c as int - '0' as int
  }

  function DigitChar(d: nat): (c: char)
    requires d < 10
    ensures IsDigit(c) && DigitValue(c) == d
  {
    ('0' as int + d) as char
  }

  /** The exact value of a string of decimal digits; the empty string is 0.
      It is `Number(s)` up to 2^53; JavaScript rounds longer values to a
      double, which is not modelled. */
  function DigitsValue(s: string): nat
    requires AllDigits(s)
  {
    if s == [] then 0 else DigitsValue(s[..|s| - 1]) * 10 + DigitValue(s[|s| - 1])
  }

  /** The exact decimal text of a non-negative integer. JavaScript prints
      the same for integers below 1e21 that a double holds exactly; from
      1e21 on it uses exponent form, which is not modelled. */
  function Decimal(n: nat): (r: string)
    ensures r != [] && AllDigits(r)
    ensures (r[0] == '0') <==> n == 0
    ensures n == 0 ==> r == "0"
  {
    if n < 10 then [DigitChar(n)] else Decimal(n / 10) + [DigitChar(n % 10)]
  }

  /** Printing and reading back gives the number again. */
  lemma {:induction false} DecimalRoundTrip(n: nat)
    ensures DigitsValue(Decimal(n)) == n
  {
    if n >= 10 {
      DecimalRoundTrip(n / 10);
      var d := Decimal(n);
      assert d[..|d| - 1] == Decimal(n / 10);
    }
  }

  /** Leading zeros do not change the value that `Number` reads. */
  lemma {:induction false} LeadingZeroValue(s: string)
    requires AllDigits(s)
    ensures DigitsValue(['0'] + s) == DigitsValue(s)
  {
    if s != [] {
      var t := ['0'] + s;
      assert t[..|t| - 1] == ['0'] + s[..|s| - 1];
      LeadingZeroValue(s[..|s| - 1]);
    } else {
      assert (['0'] + s)[..0] == [];
    }
  }
}
