/** Decimal integers as Rust reads (`str::parse`) and prints (`to_string`) them. */
module Decimal {
  import opened Text

  const U64_MAX: nat := 0xFFFF_FFFF_FFFF_FFFF
  const I64_MAX: nat := 0x7FFF_FFFF_FFFF_FFFF
  const U32_MAX: nat := 0xFFFF_FFFF
  const I32_MAX: nat := 0x7FFF_FFFF

  predicate IsDigit(c: char) { '0' <= c <= '9' }

  predicate AllDigits(s: string) {
    forall k :: 0 <= k < |s| ==> IsDigit(s[k])
  }

  function Value(s: string): nat
    requires AllDigits(s)
  {
    if s == "" then 0 else Value(s[..|s| - 1]) * 10 + (s[|s| - 1] as int - '0' as int)
  }

  /** An unsigned type with the given maximum: an optional plus sign, then digits. */
  function ParseUnsigned(s: string, max: nat): (r: Option<nat>)
    ensures r.Some? ==> r.value <= max
  {
    var digits := if |s| > 1 && s[0] == '+' then s[1..] else s;
    if digits == "" || !AllDigits(digits) || Value(digits) > max then None else Some(Value(digits))
  }

  /** `i32`: an optional sign, then digits. */
  function ParseSigned(s: string): Option<int> {
    if |s| > 1 && s[0] == '-' then
      var digits := s[1..];
      if !AllDigits(digits) || Value(digits) > I32_MAX + 1 then None else Some(0 - Value(digits))
    else match ParseUnsigned(s, I32_MAX)
      case Some(n) => Some(n)
      case None => None
  }

  function Print(n: nat): (s: string)
    ensures s != "" && AllDigits(s)
    ensures Value(s) == n
  {
    var last := ('0' as int + n % 10) as char;
    if n < 10 then assert Value([last]) == n by { assert [last][..0] == ""; } [last]
    else
      var s := Print(n / 10) + [last];
      assert s[..|s| - 1] == Print(n / 10);
      s
  }

  /** Printing a number and reading it again gives the number, for every width it fits. */
  lemma PrintThenParse(n: nat, max: nat)
    requires n <= max
    ensures ParseUnsigned(Print(n), max) == Some(n)
    ensures n <= I32_MAX ==> ParseSigned(Print(n)) == Some(n)
    ensures Trim(Print(n)) == Print(n)
  {
    var s := Print(n);
    assert IsDigit(s[0]) && IsDigit(s[|s| - 1]);
    TrimIdentity(s);
  }

  function Power(n: nat): nat { if n == 0 then 1 else 10 * Power(n - 1) }

  /** Digits count by their position. */
  lemma {:induction false} ValueMeans(a: string, b: string)
    requires AllDigits(a) && AllDigits(b)
    ensures AllDigits(a + b) && Value(a + b) == Value(a) * Power(|b|) + Value(b)
    decreases |b|
  {
    hide Value;
    if b == "" {
      EmptyValue();
      assert a + b == a;
    } else {
      var n := |b| - 1;
      ValueMeans(a, b[..n]);
      assert (a + b)[..|a + b| - 1] == a + b[..n] && (a + b)[|a + b| - 1] == b[n];
      ValueStep(a + b);
      ValueStep(b);
      Shifted(Value(a), Power(n), Value(b[..n]), b[n] as int - '0' as int);
    }
  }

  lemma EmptyValue()
    ensures Value("") == 0
  {
  }

  lemma {:induction false} ValueStep(s: string)
    requires s != "" && AllDigits(s)
    ensures Value(s) == Value(s[..|s| - 1]) * 10 + (s[|s| - 1] as int - '0' as int)
  {
  }

  lemma Shifted(a: nat, p: nat, b: nat, d: int)
    ensures (a * p + b) * 10 + d == a * (10 * p) + (b * 10 + d)
  {
    assert a * (10 * p) == (a * p) * 10;
  }

  /** The ten digits. */
  lemma DigitsAre(c: char)
    ensures IsDigit(c) <==> c in "0123456789"
    ensures Value("0") == 0 && Value("1") == 1 && Value("2") == 2 && Value("3") == 3 && Value("4") == 4
    ensures Value("5") == 5 && Value("6") == 6 && Value("7") == 7 && Value("8") == 8 && Value("9") == 9
  {
    assert IsDigit(c) ==> c in "0123456789" by { DigitIn(c); }
    forall d | IsDigit(d) ensures Value([d]) == d as int - '0' as int {
      assert [d][..0] == "";
    }
  }

  lemma DigitIn(c: char)
    ensures IsDigit(c) ==> c in "0123456789"
  {
    var s := "0123456789";
    if IsDigit(c) {
      assert s[c as int - '0' as int] == c;
    }
  }

  /** Which texts are read: digits, with a sign or without, of a number in the type's range. */
  lemma ParsedMeans(digits: string, max: nat)
    requires digits != "" && AllDigits(digits)
    ensures ParseUnsigned(digits, max) == ParseUnsigned("+" + digits, max)
            == if Value(digits) <= max then Some(Value(digits)) else None
    ensures ParseUnsigned("-" + digits, max) == None
    ensures ParseSigned(digits) == ParseSigned("+" + digits)
            == if Value(digits) <= 2147483647 then Some(Value(digits)) else None
    ensures var n: int := 0 - Value(digits); ParseSigned("-" + digits) == if n >= -2147483648 then Some(n) else None
  {
    hide Value;
    assert ("+" + digits)[1..] == digits && ("-" + digits)[1..] == digits;
    assert !IsDigit(("-" + digits)[0]) && IsDigit(digits[0]);
  }

  /** Anything else is refused. */
  lemma OthersAreRefused(s: string, max: nat)
    requires s == "" || !AllDigits(s)
    requires s != "" && (s[0] == '+' || s[0] == '-') ==> s[1..] == "" || !AllDigits(s[1..])
    ensures ParseUnsigned(s, max) == None && ParseSigned(s) == None
  {
    hide Value;
    if s != "" && (s[0] == '+' || s[0] == '-') {
      assert !IsDigit(s[0]);
    }
  }

  /** Printed numbers have no leading zero. */
  lemma {:induction false} NoLeadingZero(n: nat)
    ensures n > 0 ==> Print(n)[0] != '0'
    ensures Print(0) == "0"
    decreases n
  {
    if n >= 10 {
      NoLeadingZero(n / 10);
      assert Print(n)[0] == Print(n / 10)[0];
    }
  }
}
