/**
 * 64-bit integers as text: Rust's `str::parse::<i64>()` and the decimal
 * rendering of `format!("{}", n)`. Timestamps in both parsers go through
 * these.
 */
module Numbers {
  import opened Wrappers

  const I64Min: int := -0x8000_0000_0000_0000
  const I64Max: int := 0x7FFF_FFFF_FFFF_FFFF

  predicate InI64(n: int) {
    I64Min <= n <= I64Max
  }

  predicate IsDigit(c: char) {
    '0' <= c <= '9'
  }

  predicate AllDigits(s: string) {
    forall i :: 0 <= i < |s| ==> IsDigit(s[i])
  }

  function DigitValue(c: char): nat
    requires IsDigit(c)
  {
    (c as int) - ('0' as int)
  }

  function DigitChar(d: nat): (c: char)
    requires d < 10
    ensures IsDigit(c) && DigitValue(c) == d
  {
    ('0' as int + d) as char
  }

  /** The value of a run of decimal digits, most significant first. */
  function DigitsValue(s: string): nat
    requires AllDigits(s)
  {
    if s == [] then 0 else DigitsValue(s[..|s| - 1]) * 10 + DigitValue(s[|s| - 1])
  }

  /**
   * Rust's `str::parse::<i64>()`: an optional '+' or '-', then one or more
   * ASCII digits and nothing else, and a value within 64 bits; anything
   * else is an error (`None`).
   */
  function ParseI64(s: string): (r: Option<int>)
    ensures r.Some? ==> InI64(r.value)
    ensures r.Some? ==> s != [] && (IsDigit(s[0]) || s[0] == '+' || s[0] == '-')
    ensures r.Some? && IsDigit(s[0]) ==> AllDigits(s) && r.value == DigitsValue(s)
    ensures r.Some? && s[0] == '+' ==> |s| >= 2 && AllDigits(s[1..]) && r.value == DigitsValue(s[1..])
    ensures r.Some? && s[0] == '-' ==> |s| >= 2 && AllDigits(s[1..]) && r.value == -(DigitsValue(s[1..]) as int)
  {
    var signed := s != [] && (s[0] == '+' || s[0] == '-');
    var digits := if signed then s[1..] else s;
    if digits == [] || !AllDigits(digits) then None
    else
      var magnitude: int := DigitsValue(digits);
      var v := if signed && s[0] == '-' then -magnitude else magnitude;
      if InI64(v) then Some(v) else None
  }

  /** Every in-range decimal numeral, with or without a sign, is accepted with its value. */
  lemma ParseI64Accepts(sign: string, digits: string)
    requires sign == "" || sign == "+" || sign == "-"
    requires digits != [] && AllDigits(digits)
    requires InI64(if sign == "-" then -(DigitsValue(digits) as int) else DigitsValue(digits))
    ensures ParseI64(sign + digits) == Some(if sign == "-" then -(DigitsValue(digits) as int) else DigitsValue(digits))
  {
    var s := sign + digits;
    if sign == "" {
      assert s == digits && IsDigit(s[0]);
    } else {
      assert s[0] == sign[0] && s[1..] == digits;
    }
  }

  /** The length of the run of digits `s` starts with. */
  function DigitRun(s: string): (k: nat)
    ensures k <= |s| && AllDigits(s[..k]) && (k < |s| ==> !IsDigit(s[k]))
  {
    if s == [] || !IsDigit(s[0]) then 0
    else
      var k := 1 + DigitRun(s[1..]);
      assert forall i :: 1 <= i < k ==> s[..k][i] == s[1..][..k - 1][i - 1];
      k
  }

  const EmptyText: string := "cannot parse integer from empty string"
  const InvalidDigitText: string := "invalid digit found in string"
  const PosOverflowText: string := "number too large to fit in target type"
  const NegOverflowText: string := "number too small to fit in target type"

  /**
   * Rust's message for a failed `str::parse::<i64>()`. The digits are read
   * left to right and the first one that is not a digit, or that takes the
   * value out of range, decides: an overflow is reported when the leading
   * run of digits is already out of range, an invalid digit otherwise.
   */
  function ParseErrorText(s: string): string
  {
    if s == [] then EmptyText
    else
      var negative := s[0] == '-';
      var digits := Unsigned(s);
      var run: int := DigitsValue(digits[..DigitRun(digits)]);
      if negative && -run < I64Min then NegOverflowText
      else if !negative && run > I64Max then PosOverflowText
      else InvalidDigitText
  }

  /** The text after the sign, if there is one. */
  function Unsigned(s: string): string
    requires s != []
  {
    if s[0] == '+' || s[0] == '-' then s[1..] else s
  }

  /**
   * A numeral that fails to parse, as an optional sign, a run of digits and
   * the rest (starting with a non-digit, if anything): the run's value
   * decides between an overflow and an invalid digit, whatever follows it.
   */
  lemma ParseErrorKinds(sign: string, digits: string, rest: string)
    requires sign == "" || sign == "+" || sign == "-"
    requires AllDigits(digits) && (rest == [] || !IsDigit(rest[0]))
    requires sign == "" ==> digits != [] || (rest != [] && rest[0] != '+' && rest[0] != '-')
    ensures var v: int := if sign == "-" then -(DigitsValue(digits) as int) else DigitsValue(digits);
      ParseErrorText(sign + digits + rest) ==
        if v > I64Max then PosOverflowText
        else if v < I64Min then NegOverflowText
        else InvalidDigitText
  {
    SignSplit(sign, digits, rest);
    RunOfDigits(digits, rest);
  }

  /** Splitting off the sign leaves the digits and the rest. */
  lemma SignSplit(sign: string, digits: string, rest: string)
    requires sign == "" || sign == "+" || sign == "-"
    requires AllDigits(digits)
    requires sign == "" ==> digits != [] || (rest != [] && rest[0] != '+' && rest[0] != '-')
    ensures var s := sign + digits + rest;
      s != [] && Unsigned(s) == digits + rest && (s[0] == '-' <==> sign == "-")
  {
    var s := sign + digits + rest;
    if sign == "" {
      assert s == digits + rest;
      if digits != [] {
        assert s[0] == digits[0] && IsDigit(digits[0]);
      } else {
        assert s[0] == rest[0];
      }
    } else {
      assert s[0] == sign[0] && s[1..] == digits + rest;
    }
  }

  lemma RunOfDigits(digits: string, rest: string)
    requires AllDigits(digits) && (rest == [] || !IsDigit(rest[0]))
    ensures DigitRun(digits + rest) == |digits| && (digits + rest)[..|digits|] == digits
  {
    var s := digits + rest;
    var k := DigitRun(s);
    assert s[..|digits|] == digits;
  }

  /** The decimal digits of `n`, without leading zeros. */
  function NatDigits(n: nat): (s: string)
    ensures s != [] && AllDigits(s)
  {
    if n < 10 then [DigitChar(n)] else NatDigits(n / 10) + [DigitChar(n % 10)]
  }

  /** `format!("{}", n)` for an integer. */
  function FormatInt(n: int): string
  {
    if n < 0 then "-" + NatDigits(-n) else NatDigits(n)
  }

  lemma {:induction false} NatDigitsValue(n: nat)
    ensures DigitsValue(NatDigits(n)) == n
  {
    if n >= 10 {
      NatDigitsValue(n / 10);
      var s := NatDigits(n);
      assert s[..|s| - 1] == NatDigits(n / 10);
    }
  }

  /** Parsing the decimal rendering of a 64-bit integer gives it back. */
  lemma ParseFormat(n: int)
    requires InI64(n)
    ensures ParseI64(FormatInt(n)) == Some(n)
  {
    var m := if n < 0 then -n else n;
    NatDigitsValue(m);
    var s := FormatInt(n);
    if n < 0 {
      assert s[1..] == NatDigits(m);
    } else {
      assert IsDigit(s[0]);
    }
  }
}
