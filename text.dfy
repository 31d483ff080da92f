/** Character-level helpers shared by the argument builder, the viewBox and
    version parsers and the path resolver: decimal digits, JavaScript's
    `String(n)` for non-negative integers, `Number.parseInt(s, 10)` on a run of
    digits, and prefixes. */
module Text {

  predicate IsDigit(c: char) {
    '0' <= c <= '9'
  }

  predicate AllDigits(s: string) {
    forall i :: 0 <= i < |s| ==> IsDigit(s[i])
  }

  function DigitValue(c: char): (d: nat)
    requires IsDigit(c)
    ensures d < 10
  {
    c as int - '0' as int
  }

  function DigitChar(d: nat): (c: char)
    requires d < 10
    ensures IsDigit(c) && DigitValue(c) == d
  {
    ('0' as int + d) as char
  }

  /** `Number.parseInt(s, 10)` for a string made only of decimal digits. */
  function ParseDecimal(s: string): nat
    requires AllDigits(s)
  {
    if s == [] then 0 else 10 * ParseDecimal(s[..|s| - 1]) + DigitValue(s[|s| - 1])
  }

  /** `String(n)` (and template interpolation `${n}`) for a non-negative integer:
      a non-empty run of digits with no leading zero. */
  function NatToString(n: nat): (s: string)
    ensures |s| > 0 && AllDigits(s)
    ensures s[0] == '0' <==> n == 0
    ensures n == 0 ==> s == "0"
  {
    if n < 10 then [DigitChar(n)] else NatToString(n / 10) + [DigitChar(n % 10)]
  }

  /** Reading the digits `String(n)` writes gives back `n`. */
  lemma {:induction false} ParseNatToString(n: nat)
    ensures ParseDecimal(NatToString(n)) == n
  {
    var s := NatToString(n);
    if n >= 10 {
      ParseNatToString(n / 10);
      assert s[..|s| - 1] == NatToString(n / 10);
    }
  }

  /** Different numbers are written differently. */
  lemma NatToStringInjective(m: nat, n: nat)
    requires NatToString(m) == NatToString(n)
    ensures m == n
  {
    ParseNatToString(m);
    ParseNatToString(n);
  }

  function BoolToString(b: bool): string {
    if b then "true" else "false"
  }

  predicate StartsWith(s: string, prefix: string) {
    |prefix| <= |s| && s[..|prefix|] == prefix
  }

  predicate EndsWith(s: string, suffix: string) {
    |suffix| <= |s| && s[|s| - |suffix|..] == suffix
  }

  /** The end of the longest run of digits that starts at `i`: what a greedy
      `\d*` consumes from there. */
  function DigitRun(s: string, i: nat): (j: nat)
    requires i <= |s|
    ensures i <= j <= |s|
    ensures j < |s| ==> !IsDigit(s[j])
    decreases |s| - i
  {
    if i < |s| && IsDigit(s[i]) then DigitRun(s, i + 1) else i
  }

  /** Everything the run covers is a digit. */
  lemma {:induction false} DigitRunDigits(s: string, i: nat)
    requires i <= |s|
    ensures AllDigits(s[i..DigitRun(s, i)])
    decreases |s| - i
  {
    if i < |s| && IsDigit(s[i]) {
      DigitRunDigits(s, i + 1);
      assert s[i..DigitRun(s, i)] == [s[i]] + s[i + 1..DigitRun(s, i + 1)];
    }
  }

  /** A run of digits followed by a character that is not a digit ends exactly
      there: `\d+` followed by a separator can match in one way only. */
  lemma {:induction false} DigitRunOfDigits(s: string, i: nat, ds: string)
    requires i + |ds| < |s| && s[i..i + |ds|] == ds
    requires AllDigits(ds) && !IsDigit(s[i + |ds|])
    ensures DigitRun(s, i) == i + |ds|
    decreases |ds|
  {
    if ds != [] {
      assert s[i] == ds[0];
      DigitRunOfDigits(s, i + 1, ds[1..]);
    }
  }
}
