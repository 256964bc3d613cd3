/** Decimal integers as the site reads and writes them: Go's `strconv.Atoi`
    for path ids and form values, and the decimal rendering of an integer
    (`String(n)` in a template literal, `strconv.Itoa` in Go). */
module Numbers {
  import opened Basics

  /** Go's `int` is 64 bits wide on the servers the backend targets. */
  const IntMin: int := -0x8000_0000_0000_0000
  const IntMax: int := 0x7FFF_FFFF_FFFF_FFFF

  predicate IsDigit(c: char) {
    '0' <= c <= '9'
  }

  predicate AllDigits(s: string) {
    forall i :: 0 <= i < |s| ==> IsDigit(s[i])
  }

  function DigitValue(c: char): (r: nat)
    requires IsDigit(c)
    ensures r < 10
  {
    c as int - '0' as int
  }

  function DigitChar(d: nat): (c: char)
    requires d < 10
    ensures IsDigit(c) && DigitValue(c) == d
  {
    ('0' as int + d) as char
  }

  /** The value of a string of decimal digits, most significant first. */
  function DigitsValue(s: string): (r: nat)
    requires AllDigits(s)
    decreases |s|
  {
    if |s| == 0 then 0
    else DigitsValue(s[..|s| - 1]) * 10 + DigitValue(s[|s| - 1])
  }

  /** The shape `strconv.Atoi` accepts: an optional sign and at least one digit. */
  predicate WellFormedInt(s: string) {
    if |s| > 0 && (s[0] == '+' || s[0] == '-') then |s| > 1 && AllDigits(s[1..])
    else |s| > 0 && AllDigits(s)
  }

  /** The value a well-formed decimal denotes, before any range check. */
  function DenotedInt(s: string): int
    requires WellFormedInt(s)
  {
    if s[0] == '-' then 0 - DigitsValue(s[1..]) as int
    else if s[0] == '+' then DigitsValue(s[1..])
    else DigitsValue(s)
  }

  /** `strconv.Atoi(s)`: the denoted value when `s` is well formed and fits
      in a 64-bit `int`, otherwise an error (syntax or range). */
  function Atoi(s: string): (r: Option<int>)
    ensures r.Some? <==> WellFormedInt(s) && IntMin <= DenotedInt(s) <= IntMax
    ensures r.Some? ==> r.value == DenotedInt(s) && IntMin <= r.value <= IntMax
  {
    if !WellFormedInt(s) then None
    else
      var v := DenotedInt(s);
      if IntMin <= v <= IntMax then Some(v) else None
  }

  /** Decimal digits of a natural number, without leading zeros. */
  function NatToString(n: nat): (s: string)
    ensures |s| > 0 && AllDigits(s)
    ensures |s| > 1 ==> s[0] != '0'
    decreases n
  {
    if n < 10 then [DigitChar(n)] else NatToString(n / 10) + [DigitChar(n % 10)]
  }

  /** The decimal rendering of an integer, with a leading '-' when negative. */
  function IntToString(n: int): string {
    if n < 0 then "-" + NatToString(-n) else NatToString(n)
  }

  lemma {:induction false} DigitsOfNat(n: nat)
    ensures DigitsValue(NatToString(n)) == n
    decreases n
  {
    if n >= 10 {
      DigitsOfNat(n / 10);
      var s := NatToString(n);
      assert s[..|s| - 1] == NatToString(n / 10);
    }
  }

  /** Reading back what `IntToString` wrote gives the same integer. */
  lemma AtoiOfIntToString(n: int)
    requires IntMin <= n <= IntMax
    ensures Atoi(IntToString(n)) == Some(n)
  {
    var s := IntToString(n);
    if n < 0 {
      var digits := NatToString(-n);
      assert s == "-" + digits;
      assert s[1..] == digits;
      DigitsOfNat(-n);
      assert WellFormedInt(s);
      assert DenotedInt(s) == n;
    } else {
      DigitsOfNat(n);
      assert s[0] != '-' && s[0] != '+';
      assert DenotedInt(s) == n;
    }
  }

  /** Anything that is not a sign followed by digits is rejected. */
  lemma AtoiRejectsNonDigits(s: string, i: int)
    requires 0 < i < |s| && !IsDigit(s[i])
    ensures Atoi(s) == None
  {
    assert s[i] == s[1..][i - 1];
  }
}
