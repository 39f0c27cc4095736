/** Decimal integer parsing as Go's `strconv.Atoi` does it on a 64-bit
    platform (an optional `+` or `-`, then one or more ASCII digits, and a
    value that fits a signed 64-bit integer), together with the canonical
    rendering `strconv.Itoa` as its partner. */
module Decimal {
  import opened Wrappers

  const MinInt64: int := -0x8000_0000_0000_0000
  const MaxInt64: int := 0x7FFF_FFFF_FFFF_FFFF

  /** The two ways `strconv.Atoi` fails: the text is not a decimal integer,
      or it is one but does not fit the platform's `int`. */
  datatype NumError = Syntax | Range

  predicate InInt64(n: int) {
    MinInt64 <= n <= MaxInt64
  }

  predicate IsDigit(c: char) {
    '0' <= c <= '9'
  }

  predicate IsSign(c: char) {
    c == '+' || c == '-'
  }

  predicate AllDigits(s: string) {
    forall i :: 0 <= i < |s| ==> IsDigit(s[i])
  }

  function DigitValue(c: char): nat
    requires IsDigit(c)
  {
    c as int - '0' as int
  }

  function DigitChar(d: nat): (c: char)
    requires d < 10
    ensures IsDigit(c) && DigitValue(c) == d
  {
    ('0' as int + d) as char
  }

  /** The value of a run of digits, most significant first. */
  function DigitsValue(s: string): nat
    requires AllDigits(s)
  {
    if |s| == 0 then 0 else DigitsValue(s[..|s| - 1]) * 10 + DigitValue(s[|s| - 1])
  }

  /** The text after an optional leading sign. */
  function Unsigned(s: string): string
    requires |s| > 0
  {
    if IsSign(s[0]) then s[1..] else s
  }

  /** Syntactically a decimal integer: an optional sign followed by at least one digit. */
  predicate IsDecimal(s: string) {
    |s| > 0 && |Unsigned(s)| > 0 && AllDigits(Unsigned(s))
  }

  /** The mathematical value of a syntactically valid decimal integer. */
  function DecimalValue(s: string): int
    requires IsDecimal(s)
  {
    if s[0] == '-' then -(DigitsValue(Unsigned(s)) as int) else DigitsValue(Unsigned(s))
  }

  function Atoi(s: string): (r: Result<int, NumError>)
    ensures r.Success? <==> IsDecimal(s) && InInt64(DecimalValue(s))
    ensures r.Success? ==> r.value == DecimalValue(s)
    ensures !IsDecimal(s) ==> r == Failure(Syntax)
    ensures IsDecimal(s) && !InInt64(DecimalValue(s)) ==> r == Failure(Range)
  {
    if |s| == 0 then Failure(Syntax)
    else
      var digits := if s[0] == '+' || s[0] == '-' then s[1..] else s;
      if |digits| == 0 then Failure(Syntax)
      else if exists i :: 0 <= i < |digits| && !('0' <= digits[i] <= '9') then Failure(Syntax)
      else
        var n: int := if s[0] == '-' then -(DigitsValue(digits) as int) else DigitsValue(digits);
        if n < MinInt64 || MaxInt64 < n then Failure(Range) else Success(n)
  }

  /** Canonical decimal digits of a natural number: no sign, no leading zero. */
  function Digits(n: nat): (s: string)
    ensures |s| > 0 && AllDigits(s)
    ensures |s| > 1 ==> s[0] != '0'
  {
    if n < 10 then [DigitChar(n)] else Digits(n / 10) + [DigitChar(n % 10)]
  }

  /** Canonical decimal rendering of an integer, as `strconv.Itoa` produces it. */
  function Itoa(n: int): (s: string)
    ensures IsDecimal(s)
    ensures s[0] == '-' <==> n < 0
    ensures s[0] != '+'
  {
    if n < 0 then "-" + Digits(-n) else Digits(n)
  }

  lemma {:induction false} DigitsValueOfDigits(n: nat)
    ensures DigitsValue(Digits(n)) == n
    decreases n
  {
    if n >= 10 {
      DigitsValueOfDigits(n / 10);
      var s := Digits(n);
      assert s[..|s| - 1] == Digits(n / 10);
    }
  }

  /** Parsing the canonical rendering of any 64-bit integer gives it back. */
  lemma AtoiItoa(n: int)
    requires InInt64(n)
    ensures Atoi(Itoa(n)) == Success(n)
  {
    var s := Itoa(n);
    if n < 0 {
      DigitsValueOfDigits(-n);
      assert Unsigned(s) == Digits(-n);
    } else {
      DigitsValueOfDigits(n);
      assert Unsigned(s) == Digits(n);
    }
  }

  /** An explicit `+` sign changes nothing. */
  lemma AtoiPlusSign(s: string)
    requires |s| > 0 && !IsSign(s[0])
    ensures Atoi("+" + s) == Atoi(s)
  {
    assert Unsigned("+" + s) == s;
  }
}
