/** Decimal rendering and parsing of the integer widths the plot name uses:
    `u64` for the account id and the nonce offset, `i64` for the nonce count and
    the stagger. Parsing follows the integer `FromStr` of the Rust core library:
    an optional sign (`-` only for signed types), at least one ASCII digit, leading
    zeros allowed, and the value within the type's range. */
module Decimal {
  import opened Results

  const U64_MAX: int := 0xFFFF_FFFF_FFFF_FFFF
  const I64_MIN: int := -0x8000_0000_0000_0000
  const I64_MAX: int := 0x7FFF_FFFF_FFFF_FFFF

  type u64 = x: int | 0 <= x <= U64_MAX
  type i64 = x: int | I64_MIN <= x <= I64_MAX

  predicate IsDigit(c: char) { '0' <= c <= '9' }

  predicate AllDigits(s: string) { forall i :: 0 <= i < |s| ==> IsDigit(s[i]) }

  function DigitValue(c: char): (d: nat)
    requires IsDigit(c)
    ensures d < 10
  {
    c as int - '0' as int
  }

  function DigitChar(d: nat): (c: char)
    requires d < 10
    ensures IsDigit(c) && DigitValue(c) == d
  {
    ('0' as int + d) as char
  }

  /** The number a string of decimal digits denotes, most significant digit first. */
  function Value(s: string): nat
    requires AllDigits(s)
  {
    if |s| == 0 then 0 else Value(s[..|s| - 1]) * 10 + DigitValue(s[|s| - 1])
  }

  /** A decimal numeral as `to_string` writes it: digits only, no leading zero. */
  predicate Canonical(s: string) {
    |s| > 0 && AllDigits(s) && (s[0] == '0' ==> |s| == 1)
  }

  /** `to_string` of a non-negative integer. */
  function NatToString(n: nat): (r: string)
    ensures Canonical(r) && Value(r) == n
  {
    if n < 10 then [DigitChar(n)]
    else
      var r := NatToString(n / 10) + [DigitChar(n % 10)];
      assert r[..|r| - 1] == NatToString(n / 10);
      r
  }

  /** `to_string` of a signed integer: a `-` before the magnitude when negative. */
  function IntToString(i: int): (r: string)
    ensures |r| > 0
    ensures i >= 0 ==> Canonical(r)
    ensures i >= 0 ==> Value(r) == i
    ensures i < 0 ==> r[0] == '-' && Canonical(r[1..]) && Value(r[1..]) == -i
  {
    if i < 0 then "-" + NatToString(-i) else NatToString(i)
  }

  /** The digits of an unsigned numeral: everything after a leading `+`, if any. */
  function UnsignedDigits(s: string): string {
    if |s| > 0 && s[0] == '+' then s[1..] else s
  }

  /** `str::parse::<u64>`. */
  function ParseU64(s: string): (r: Option<u64>)
    ensures r.Some? ==> |s| > 0 && s[0] != '-' && forall i :: 0 < i < |s| ==> IsDigit(s[i])
  {
    var d := UnsignedDigits(s);
    if |d| == 0 || !AllDigits(d) || Value(d) > U64_MAX then None else Some(Value(d))
  }

  /** `str::parse::<i64>`: a leading `-` negates, a leading `+` is dropped. */
  function ParseI64(s: string): (r: Option<i64>)
    ensures r.Some? ==> |s| > 0 && forall i :: 0 < i < |s| ==> IsDigit(s[i])
    ensures r.Some? && r.value < 0 ==> s[0] == '-'
  {
    if |s| > 0 && s[0] == '-' then
      var d := s[1..];
      if |d| == 0 || !AllDigits(d) || Value(d) > -I64_MIN then None else Some(0 - Value(d))
    else
      var d := UnsignedDigits(s);
      if |d| == 0 || !AllDigits(d) || Value(d) > I64_MAX then None else Some(Value(d))
  }

  /** Two canonical numerals with the same value are the same string. */
  lemma {:induction false} CanonicalUnique(s: string, t: string)
    requires Canonical(s) && Canonical(t) && Value(s) == Value(t)
    ensures s == t
    decreases |s|
  {
    if |s| == 1 && |t| == 1 {
    } else if |s| == 1 {
      CanonicalBig(t);
    } else if |t| == 1 {
      CanonicalBig(s);
    } else {
      var s', t' := s[..|s| - 1], t[..|t| - 1];
      assert s'[0] == s[0] && t'[0] == t[0];
      assert Value(s') == Value(s) / 10 && Value(t') == Value(t) / 10;
      CanonicalUnique(s', t');
      assert DigitValue(s[|s| - 1]) == DigitValue(t[|t| - 1]);
      assert s == s' + [s[|s| - 1]] && t == t' + [t[|t| - 1]];
    }
  }

  /** A canonical numeral of two or more digits denotes at least 10. */
  lemma {:induction false} CanonicalBig(s: string)
    requires Canonical(s) && |s| > 1
    ensures Value(s) >= 10
    decreases |s|
  {
    var s' := s[..|s| - 1];
    assert s'[0] == s[0];
    if |s'| > 1 {
      CanonicalBig(s');
    } else {
      assert Value(s') == DigitValue(s[0]) && s[0] != '0';
    }
  }

  /** Rendering a canonical numeral's value gives the numeral back. */
  lemma RenderValue(s: string)
    requires Canonical(s)
    ensures NatToString(Value(s)) == s
  {
    CanonicalUnique(NatToString(Value(s)), s);
  }

  /** A canonical numeral that parses is what `to_string` renders for its value. */
  lemma ParseU64Canonical(s: string, n: u64)
    requires Canonical(s) && ParseU64(s) == Some(n)
    ensures NatToString(n) == s
  {
    assert UnsignedDigits(s) == s;
    RenderValue(s);
  }

  /** The same for a non-negative `i64` written without sign. */
  lemma ParseI64Canonical(s: string, i: i64)
    requires Canonical(s) && ParseI64(s) == Some(i)
    ensures IntToString(i) == s
  {
    assert UnsignedDigits(s) == s;
    RenderValue(s);
  }

  /** `u64` parsing inverts `to_string`. */
  lemma ParseU64Rendered(n: u64)
    ensures ParseU64(NatToString(n)) == Some(n)
  {
  }

  /** `i64` parsing inverts `to_string`, negative values included. */
  lemma ParseI64Rendered(i: i64)
    ensures ParseI64(IntToString(i)) == Some(i)
  {
    var r := IntToString(i);
    if i >= 0 {
      assert IsDigit(r[0]);
    }
  }

  /** The two widths agree wherever both can hold the value: an unsigned field
      whose value fits in `i64` parses to the same number as `i64`, and an `i64`
      field without a minus sign parses to the same number as `u64`. */
  lemma ParseWidthsAgree(s: string)
    ensures ParseU64(s).Some? && ParseU64(s).value <= I64_MAX ==> ParseI64(s) == Some(ParseU64(s).value as i64)
    ensures ParseI64(s).Some? && !(|s| > 0 && s[0] == '-') ==> ParseU64(s) == Some(ParseI64(s).value as u64)
  {
  }

  /** Any character other than a digit, except a `+` in front, makes a `u64`
      field invalid; so does a `-` sign. */
  lemma ParseU64RejectsNonDigit(s: string, i: nat)
    requires i < |s| && !IsDigit(s[i]) && !(i == 0 && s[0] == '+')
    ensures ParseU64(s) == None
  {
    if |s| > 0 && s[0] == '+' {
      assert UnsignedDigits(s)[i - 1] == s[i];
    } else {
      assert UnsignedDigits(s)[i] == s[i];
    }
  }

  /** An empty field, or a lone sign, is not a number. */
  lemma ParseRejectsEmpty()
    ensures ParseU64("") == None && ParseU64("+") == None
    ensures ParseI64("") == None && ParseI64("+") == None && ParseI64("-") == None
  {
  }

  /** Leading zeros do not change the parsed value. */
  lemma {:induction false} LeadingZero(s: string)
    requires AllDigits(s)
    ensures AllDigits("0" + s) && Value("0" + s) == Value(s)
    decreases |s|
  {
    var z := "0" + s;
    assert AllDigits(z) by {
      forall i | 0 <= i < |z| ensures IsDigit(z[i]) {
        if i > 0 { assert z[i] == s[i - 1]; }
      }
    }
    if |s| > 0 {
      var s' := s[..|s| - 1];
      assert z[..|z| - 1] == "0" + s';
      LeadingZero(s');
    }
  }
}
