/**
 * The integer literals of the generator: Rust's `str::parse::<i32>` and `str::parse::<u32>`
 * as partial functions, the decimal rendering `format!("{}", v)` gives the parsed values
 * back, and ASCII upper-casing of constant names.
 */
module Literals {
  import opened Wrappers

  const I32Min: int := -0x8000_0000
  const I32Max: int := 0x7fff_ffff
  const U32Max: int := 0xffff_ffff

  predicate IsDigit(c: char) {
    '0' <= c <= '9'
  }

  predicate AllDigits(s: string) {
    forall i :: 0 <= i < |s| ==> IsDigit(s[i])
  }

  function DigitValue(c: char): (d: nat)
    requires IsDigit(c)
    ensures d < 10
  {
    c as int - '0' as int
  }

  function DigitChar(d: nat): (c: char)
    requires d < 10
    ensures IsDigit(c) && DigitValue(c) == d
  {
    ('0' as int + d) as char
  }

  /** The value of a run of decimal digits, most significant digit first. */
  function DecimalValue(s: string): nat
    requires AllDigits(s)
  {
    if s == [] then 0 else 10 * DecimalValue(s[..|s| - 1]) + DigitValue(s[|s| - 1])
  }

  /**
   * Rust's integer `from_str` in radix 10: the empty string and a sign on its own are
   * rejected; a leading `+` is skipped; a leading `-` is a sign only for a signed type
   * (for an unsigned one it stays and fails as a non-digit); every remaining character
   * must be a decimal digit; the value must lie in `lo..=hi`.
   */
  function ParseInteger(s: string, signed: bool, lo: int, hi: int): Option<int>
  {
    if s == [] then None
    else if (s[0] == '+' || s[0] == '-') && |s| == 1 then None
    else
      var negative := s[0] == '-' && signed;
      var digits := if s[0] == '+' || negative then s[1..] else s;
      if !AllDigits(digits) then None
      else
        var v: int := if negative then 0 - DecimalValue(digits) as int else DecimalValue(digits);
        if lo <= v <= hi then Some(v) else None
  }

  /** `s.parse::<i32>()`, `Ok(v)` as `Some(v)`. */
  function ParseI32(s: string): (r: Option<int>)
    ensures r.Some? ==> I32Min <= r.value <= I32Max
  {
    ParseInteger(s, true, I32Min, I32Max)
  }

  /** `s.parse::<u32>()`, `Ok(v)` as `Some(v)`. */
  function ParseU32(s: string): (r: Option<int>)
    ensures r.Some? ==> 0 <= r.value <= U32Max
  {
    ParseInteger(s, false, 0, U32Max)
  }

  /** How `format!("{}", n)` writes a non-negative integer: decimal, no leading zeros. */
  function NatToDecimal(n: nat): (s: string)
    ensures |s| > 0 && AllDigits(s)
    ensures |s| > 1 ==> s[0] != '0'
  {
    if n < 10 then [DigitChar(n)] else NatToDecimal(n / 10) + [DigitChar(n % 10)]
  }

  /** How `format!("{}", v)` writes a signed integer: a `-` before a negative one. */
  function IntToDecimal(v: int): (s: string)
    ensures |s| > 0 && (s[0] == '-' <==> v < 0)
  {
    if v < 0 then "-" + NatToDecimal(-v) else NatToDecimal(v)
  }

  lemma {:induction false} DecimalValueOfNatToDecimal(n: nat)
    ensures DecimalValue(NatToDecimal(n)) == n
  {
    var s := NatToDecimal(n);
    if n >= 10 {
      DecimalValueOfNatToDecimal(n / 10);
      assert s[..|s| - 1] == NatToDecimal(n / 10);
    }
  }

  /** Every u32 that the generator prints reads back as the same u32. */
  lemma ParseU32OfDecimal(n: nat)
    requires n <= U32Max
    ensures ParseU32(NatToDecimal(n)) == Some(n)
  {
    DecimalValueOfNatToDecimal(n);
  }

  /** Every i32 that the generator prints reads back as the same i32. */
  lemma ParseI32OfDecimal(v: int)
    requires I32Min <= v <= I32Max
    ensures ParseI32(IntToDecimal(v)) == Some(v)
  {
    var s := IntToDecimal(v);
    if v < 0 {
      DecimalValueOfNatToDecimal(-v);
      assert s[1..] == NatToDecimal(-v);
    } else {
      DecimalValueOfNatToDecimal(v);
    }
  }

  /** A sign on its own, and a `-` before an unsigned literal, never parse. */
  lemma SignRules(s: string)
    ensures |s| == 1 && (s[0] == '+' || s[0] == '-') ==> ParseI32(s) == None && ParseU32(s) == None
    ensures |s| > 0 && s[0] == '-' ==> ParseU32(s) == None
  {
    if |s| > 0 && s[0] == '-' {
      assert !IsDigit(s[0]);
    }
  }

  /**
   * An accepted `u32` literal is its digits after an optional `+`, leading zeros allowed,
   * and denotes their decimal value; the text the generator prints for that value is
   * digits without leading zeros and parses back to it.
   */
  lemma ParseU32Canonical(s: string)
    requires ParseU32(s).Some?
    ensures var digits := if s[0] == '+' then s[1..] else s;
      AllDigits(digits) && ParseU32(s).value == DecimalValue(digits)
    ensures ParseU32(NatToDecimal(ParseU32(s).value)) == ParseU32(s)
  {
    ParseU32OfDecimal(ParseU32(s).value);
  }

  function UpperChar(c: char): char {
    if 'a' <= c <= 'z' then (c as int - 32) as char else c
  }

  /** ASCII upper-casing: lower-case ASCII letters become upper case, nothing else moves. */
  function UpperAscii(s: string): (r: string)
    ensures |r| == |s|
    ensures forall i :: 0 <= i < |s| ==> !('a' <= r[i] <= 'z')
    ensures forall i :: 0 <= i < |s| && !('a' <= s[i] <= 'z') ==> r[i] == s[i]
    ensures forall i :: 0 <= i < |s| && 'a' <= s[i] <= 'z' ==> r[i] as int == s[i] as int - 32
  {
    seq(|s|, i requires 0 <= i < |s| => UpperChar(s[i]))
  }
}
