/** Decimal digit strings: Python's `str.isdigit()` narrowed to the ASCII digits,
    `int()` applied to such a string, and `str()` of a natural number. */
module Decimal {

  predicate IsDigit(c: char)
  {
    '0' <= c <= '9'
  }

  /** `s.isdigit()`, narrowed to the ASCII digits: false on the empty string,
      otherwise true exactly when no character lies outside '0'..'9' (so a
      digit string never holds the separator '.'). */
  predicate IsDigits(s: string)
    ensures IsDigits(s) <==> |s| > 0 && forall c :: c in s ==> IsDigit(c)
    ensures IsDigits(s) ==> '.' !in s
  {
    |s| > 0 && forall i :: 0 <= i < |s| ==> IsDigit(s[i])
  }

  /** A digit string without superfluous leading zeros, as `str(n)` prints it. */
  predicate IsCanonical(s: string)
  {
    IsDigits(s) && (s[0] == '0' ==> |s| == 1)
  }

  function DigitValue(c: char): (d: nat)
    requires IsDigit(c)
    ensures d < 10
  {
    c as int - '0' as int
  }

  function DigitChar(d: nat): (c: char)
    requires d < 10
    ensures IsDigit(c) && DigitValue(c) == d
  {
    ('0' as int + d) as char
  }

  function Pow10(k: nat): (p: nat)
    ensures p >= 1
  {
    if k == 0 then 1 else 10 * Pow10(k - 1)
  }

  /** `int(s)` for a digit string: the number it denotes in base ten, most
      significant digit first. It has fewer digits than `s` has characters. */
  function Value(s: string): (n: nat)
    requires IsDigits(s)
    ensures n < Pow10(|s|)
  {
    var last := DigitValue(s[|s| - 1]);
    if |s| == 1 then last
    else
      assert IsDigits(s[..|s| - 1]);
      Value(s[..|s| - 1]) * 10 + last
  }

  /** `str(n)`: the canonical decimal rendering of `n`, which denotes `n` again. */
  function Render(n: nat): (r: string)
    ensures IsCanonical(r)
    ensures Value(r) == n
  {
    if n < 10 then [DigitChar(n)]
    else
      var prefix := Render(n / 10);
      var r := prefix + [DigitChar(n % 10)];
      assert r[..|r| - 1] == prefix;
      assert r[0] == prefix[0];
      r
  }

  /** Peeling off the last digit of a longer digit string. */
  lemma ValueInit(s: string)
    requires IsDigits(s) && |s| > 1
    ensures IsDigits(s[..|s| - 1])
    ensures Value(s) == Value(s[..|s| - 1]) * 10 + DigitValue(s[|s| - 1])
  {
  }

  /** A leading zero does not change the value: `int("01") == int("1")`. */
  lemma {:induction false} LeadingZeroIgnored(s: string)
    requires IsDigits(s)
    ensures IsDigits("0" + s)
    ensures Value("0" + s) == Value(s)
  {
    var z := "0" + s;
    assert IsDigits(z) by {
      forall i | 0 <= i < |z| ensures IsDigit(z[i]) {
        if i > 0 { assert z[i] == s[i - 1]; }
      }
    }
    ValueInit(z);
    assert z[|z| - 1] == s[|s| - 1];
    if |s| == 1 {
      assert z[..|z| - 1] == "0";
    } else {
      assert z[..|z| - 1] == "0" + s[..|s| - 1];
      ValueInit(s);
      LeadingZeroIgnored(s[..|s| - 1]);
    }
  }

  /** A digit string whose first digit is not zero denotes at least 10^(|s|-1). */
  lemma {:induction false} ValueLowerBound(s: string)
    requires IsDigits(s) && s[0] != '0'
    ensures Value(s) >= Pow10(|s| - 1)
  {
    if |s| > 1 {
      var init := s[..|s| - 1];
      ValueInit(s);
      assert init[0] == s[0];
      ValueLowerBound(init);
    }
  }

  /** Rendering undoes `int()` on canonical strings: `str(int(s)) == s`. */
  lemma {:induction false} RenderValue(s: string)
    requires IsCanonical(s)
    ensures Render(Value(s)) == s
  {
    if |s| == 1 {
      assert DigitChar(DigitValue(s[0])) == s[0];
    } else {
      var init := s[..|s| - 1];
      var n := Value(s);
      ValueInit(s);
      assert init[0] == s[0] && s[0] != '0';
      ValueLowerBound(init);
      assert n >= 10;
      assert n / 10 == Value(init) && n % 10 == DigitValue(s[|s| - 1]);
      RenderValue(init);
      assert DigitChar(DigitValue(s[|s| - 1])) == s[|s| - 1];
      assert init + [s[|s| - 1]] == s;
    }
  }
}
