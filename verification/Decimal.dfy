/** Decimal numerals as Rust prints and parses them (`{n}` and `str::parse::<u32>`). */
module Decimal {
  import opened Limits
  import opened Wrappers

  predicate IsDigit(c: char) { '0' <= c <= '9' }

  predicate AllDigits(s: string) { forall i :: 0 <= i < |s| ==> IsDigit(s[i]) }

  function DigitChar(d: nat): (c: char)
    requires d < 10
    ensures IsDigit(c) && DigitValue(c) == d
  {
    (48 + d) as char
  }

  function DigitValue(c: char): (d: nat)
    requires IsDigit(c)
    ensures d < 10 && (48 + d) as char == c
  {
    c as int - 48
  }

  /** Canonical numeral: no sign, no leading zero. */
  function Dec(n: nat): string {
    if n < 10 then [DigitChar(n)] else Dec(n / 10) + [DigitChar(n % 10)]
  }

  function Value(s: string): nat
    requires AllDigits(s)
  {
    if s == "" then 0 else Value(s[..|s| - 1]) * 10 + DigitValue(s[|s| - 1])
  }

  /** A numeral with at least one digit and no superfluous leading zero. */
  predicate Canonical(s: string) {
    s != "" && AllDigits(s) && (|s| > 1 ==> s[0] != '0')
  }

  /** `str::parse::<u32>`: an optional leading plus, then digits, no overflow. */
  function ParseU32(s: string): Option<nat> {
    var digits := if s != "" && s[0] == '+' then s[1..] else s;
    if digits == "" || !AllDigits(digits) then None
    else if Value(digits) >= U32_LIMIT then None
    else Some(Value(digits))
  }

  lemma {:induction false} DecIsCanonical(n: nat)
    ensures Canonical(Dec(n)) && Value(Dec(n)) == n
    ensures n > 0 ==> Dec(n)[0] != '0'
  {
    if n >= 10 {
      DecIsCanonical(n / 10);
      assert Dec(n)[..|Dec(n)| - 1] == Dec(n / 10);
    } else {
      assert Dec(n)[..0] == "";
    }
  }

  lemma {:induction false} CanonicalValuePositive(s: string)
    requires Canonical(s) && s[0] != '0'
    ensures Value(s) > 0
  {
    if |s| > 1 {
      CanonicalValuePositive(s[..|s| - 1]);
    }
  }

  /** Printing is the inverse of reading on canonical numerals. */
  lemma {:induction false} DecOfValue(s: string)
    requires Canonical(s)
    ensures Dec(Value(s)) == s
  {
    var last := s[|s| - 1];
    if |s| == 1 {
      assert s[..0] == "";
    } else {
      var front := s[..|s| - 1];
      DecOfValue(front);
      CanonicalValuePositive(front);
      assert s == front + [last];
    }
  }

  lemma DecInjective(m: nat, n: nat)
    requires Dec(m) == Dec(n)
    ensures m == n
  {
    DecIsCanonical(m);
    DecIsCanonical(n);
  }

  /** Whatever is printed below 2^32 is read back. */
  lemma ParseOfDec(n: nat)
    requires n < U32_LIMIT
    ensures ParseU32(Dec(n)) == Some(n)
  {
    DecIsCanonical(n);
  }

  /** Without a plus sign, a numeral that has no leading zero and parses is the printed form of its value. */
  lemma DecOfParse(s: string)
    requires '+' !in s && ParseU32(s).Some?
    requires |s| > 1 ==> s[0] != '0'
    ensures Dec(ParseU32(s).value) == s
  {
    assert s == "" || s[0] != '+';
    DecOfValue(s);
  }
}
