/** Decimal numerals: Python's `str(n)` for a natural number, `int(s)` for a
    run of ASCII digits, and the first match of the pattern `[0-9]+`. */
module Numerals {
  import opened Wrappers

  predicate IsDigit(c: char)
  {
    '0' <= c <= '9'
  }

  predicate AllDigits(s: string)
  {
    forall i :: 0 <= i < |s| ==> IsDigit(s[i])
  }

  predicate NoDigits(s: string)
  {
    forall i :: 0 <= i < |s| ==> !IsDigit(s[i])
  }

  function DigitChar(d: nat): (c: char)
    requires d < 10
    ensures IsDigit(c)
  {
    ('0' as int + d) as char
  }

  /** Python's `str(n)`: the shortest decimal numeral of `n`. */
  function NatToString(n: nat): (r: string)
    ensures |r| >= 1 && AllDigits(r)
    ensures r[0] == '0' ==> n == 0
  {
    if n < 10 then [DigitChar(n)] else NatToString(n / 10) + [DigitChar(n % 10)]
  }

  /** The value of a string of decimal digits (leading zeros allowed). */
  function DigitsValue(s: string): nat
    requires AllDigits(s)
  {
    if s == [] then 0
    else 10 * DigitsValue(s[..|s| - 1]) + (s[|s| - 1] as int - '0' as int)
  }

  lemma {:induction false} DigitsValueOfNatToString(n: nat)
    ensures DigitsValue(NatToString(n)) == n
  {
    if n >= 10 {
      DigitsValueOfNatToString(n / 10);
      var s := NatToString(n);
      assert s[..|s| - 1] == NatToString(n / 10);
    }
  }

  /** Python's `int(s)` restricted to what it accepts that is made of ASCII
      digits only: a non-empty digit string; anything else raises ValueError. */
  function ParseNat(s: string): (r: Result<nat>)
    ensures r.Ok? <==> |s| >= 1 && AllDigits(s)
  {
    if |s| >= 1 && AllDigits(s) then Ok(DigitsValue(s)) else Err(ValueError)
  }

  /** `int(str(n)) == n`. */
  lemma ParseNatToString(n: nat)
    ensures ParseNat(NatToString(n)) == Ok(n)
  {
    DigitsValueOfNatToString(n);
  }

  /** The longest prefix of `s` made of digits. */
  function LeadingDigits(s: string): (r: string)
    ensures AllDigits(r) && r <= s
    ensures |r| < |s| ==> !IsDigit(s[|r|])
  {
    if s != [] && IsDigit(s[0]) then [s[0]] + LeadingDigits(s[1..]) else []
  }

  /** The first match of `[0-9]+` in `s` as an integer (`re.search` then
      `int`); None exactly when `s` holds no digit. */
  function FirstNumber(s: string): (r: Option<nat>)
    ensures r.None? <==> NoDigits(s)
  {
    SearchFindsDigit(s);
    Search(s)
  }

  /** The scan for the first digit, left to right. */
  function Search(s: string): Option<nat>
  {
    if s == [] then None
    else if IsDigit(s[0]) then Some(DigitsValue(LeadingDigits(s)))
    else Search(s[1..])
  }

  lemma {:induction false} SearchFindsDigit(s: string)
    ensures Search(s).None? <==> NoDigits(s)
  {
    if s != [] {
      SearchFindsDigit(s[1..]);
      assert forall i :: 1 <= i < |s| ==> s[i] == s[1..][i - 1];
    }
  }

  /** A number found is the value of the digit run that starts at the first
      digit of `s`. */
  lemma {:induction false} FirstNumberAtFirstDigit(s: string, i: nat)
    requires i < |s| && NoDigits(s[..i]) && IsDigit(s[i])
    ensures FirstNumber(s) == Some(DigitsValue(LeadingDigits(s[i..])))
  {
    if i > 0 {
      assert !IsDigit(s[..i][0]);
      assert s[1..][..i - 1] == s[..i][1..];
      assert s[1..][i - 1..] == s[i..];
      FirstNumberAtFirstDigit(s[1..], i - 1);
    }
  }

  lemma {:induction false} LeadingDigitsOfNumeral(d: string, q: string)
    requires AllDigits(d)
    requires q == [] || !IsDigit(q[0])
    ensures LeadingDigits(d + q) == d
  {
    if d == [] {
      assert d + q == q;
    } else {
      assert (d + q)[1..] == d[1..] + q;
      LeadingDigitsOfNumeral(d[1..], q);
    }
  }

  /** A numeral embedded between a digit-free prefix and a suffix that does
      not continue it is the number the search finds. */
  lemma {:induction false} FirstNumberOfEmbedded(p: string, n: nat, q: string)
    requires NoDigits(p)
    requires q == [] || !IsDigit(q[0])
    ensures FirstNumber(p + NatToString(n) + q) == Some(n)
  {
    if p == [] {
      assert p + NatToString(n) + q == NatToString(n) + q;
      LeadingDigitsOfNumeral(NatToString(n), q);
      DigitsValueOfNatToString(n);
    } else {
      assert (p + NatToString(n) + q)[1..] == p[1..] + NatToString(n) + q;
      FirstNumberOfEmbedded(p[1..], n, q);
    }
  }
}
