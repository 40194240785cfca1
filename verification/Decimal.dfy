/** Decimal text of numbers, as `std::to_string` and stream insertion produce it. */
module Decimal {
  import opened EventTypes

  predicate IsDigit(c: char) { '0' <= c <= '9' }

  function Digit(d: nat): (c: char)
    requires d < 10
    ensures IsDigit(c) && DigitValue(c) == d
  {
    '0' + d as char
  }

  function DigitValue(c: char): nat
    requires IsDigit(c)
  {
    (c - '0') as nat
  }

  predicate AllDigits(s: string) {
    forall i :: 0 <= i < |s| ==> IsDigit(s[i])
  }

  function NatText(n: nat): (s: string)
    ensures s != "" && AllDigits(s)
  {
    if n < 10 then [Digit(n)] else NatText(n / 10) + [Digit(n % 10)]
  }

  function IntText(n: int): string {
    if n < 0 then "-" + NatText(-n) else NatText(n)
  }

  function ReadNat(s: string): nat
    requires AllDigits(s)
  {
    if s == "" then 0 else 10 * ReadNat(s[..|s| - 1]) + DigitValue(s[|s| - 1])
  }

  lemma {:induction false} NatRoundTrip(n: nat)
    ensures ReadNat(NatText(n)) == n
    ensures NatText(n)[0] == '0' ==> n == 0
  {
    if n < 10 {
      assert ReadNat([]) == 0;
    } else {
      NatRoundTrip(n / 10);
      var s := NatText(n);
      assert s[..|s| - 1] == NatText(n / 10);
      assert NatText(n)[0] == NatText(n / 10)[0];
    }
  }

  lemma IntTextInjective(m: int, n: int)
    requires IntText(m) == IntText(n)
    ensures m == n
  {
    NatRoundTrip(if m < 0 then -m else m);
    NatRoundTrip(if n < 0 then -n else n);
    assert m < 0 <==> IntText(m)[0] == '-';
    assert n < 0 <==> IntText(n)[0] == '-';
    if m < 0 {
      assert IntText(m)[1..] == NatText(-m) && IntText(n)[1..] == NatText(-n);
    }
  }

  /** The place values after the point, in millionths; 0 ends the list. */
  predicate IsUnit(unit: nat) {
    unit in {0, 1, 10, 100, 1000, 10_000, 100_000}
  }

  /** `n` written with a digit for `unit` and for every smaller place. */
  function Places(n: nat, unit: nat): (s: string)
    requires IsUnit(unit) && if unit == 0 then n == 0 else n < 10 * unit
    ensures AllDigits(s)
    ensures |s| == if unit == 0 then 0 else if unit == 1 then 1 else if unit == 10 then 2 else if unit == 100 then 3
                   else if unit == 1000 then 4 else if unit == 10_000 then 5 else 6
  {
    if unit == 0 then "" else [Digit(n / unit)] + Places(n % unit, unit / 10)
  }

  /** The six digits after the point. */
  function Fraction(micros: Micros): string {
    Places(micros, 100_000)
  }

  function Sign(negative: bool): string {
    if negative then "-" else ""
  }

  /** `std::to_string` of a float or double. */
  function FloatText(f: Float): string {
    match f
    case Finite(negative, whole, micros) => Sign(negative) + NatText(whole) + "." + Fraction(micros)
    case Infinite(negative) => Sign(negative) + "inf"
    case NotANumber(negative) => Sign(negative) + "nan"
  }

  /** How much of `s` is left without its trailing `c`s. */
  function LengthWithout(s: string, c: char): (n: nat)
    ensures n <= |s| && (n > 0 ==> s[n - 1] != c)
    ensures forall i :: n <= i < |s| ==> s[i] == c
  {
    if s == "" || s[|s| - 1] != c then |s| else LengthWithout(s[..|s| - 1], c)
  }

  /** Drop trailing zeros, and the point if nothing is left behind it. */
  function TrimRightZero(s: string): string {
    var n := LengthWithout(s, '0');
    if n == 0 then s else if s[n - 1] == '.' then s[..n - 1] else s[..n]
  }

  /** The value of digits after the point, the first of them worth `unit`. */
  function ReadFraction(s: string, unit: nat): nat
    requires AllDigits(s)
  {
    if s == "" then 0 else DigitValue(s[0]) * unit + ReadFraction(s[1..], unit / 10)
  }

  lemma {:induction false} TrailingZerosAreWorthless(s: string, n: nat, unit: nat)
    requires AllDigits(s) && n <= |s| && forall i :: n <= i < |s| ==> s[i] == '0'
    ensures ReadFraction(s[..n], unit) == ReadFraction(s, unit)
  {
    if s != "" {
      if n == 0 {
        TrailingZerosAreWorthless(s[1..], 0, unit / 10);
        assert s[1..][..0] == s[..0];
      } else {
        TrailingZerosAreWorthless(s[1..], n - 1, unit / 10);
        assert s[1..][..n - 1] == s[..n][1..];
      }
    }
  }

  lemma {:induction false} PlacesRoundTrip(n: nat, unit: nat)
    requires IsUnit(unit) && if unit == 0 then n == 0 else n < 10 * unit
    ensures ReadFraction(Places(n, unit), unit) == n
  {
    if unit != 0 {
      PlacesRoundTrip(n % unit, unit / 10);
      var s := Places(n, unit);
      assert s[1..] == Places(n % unit, unit / 10);
      assert n / unit * unit + n % unit == n;
    }
  }

  /** What is left of two texts together. */
  lemma {:induction false} LengthWithoutBehind(s: string, t: string, c: char)
    ensures LengthWithout(s + t, c) ==
              if LengthWithout(t, c) > 0 then |s| + LengthWithout(t, c) else LengthWithout(s, c)
  {
    if t == "" {
      assert s + t == s;
    } else {
      var front := t[..|t| - 1];
      assert (s + t)[..|s + t| - 1] == s + front && (s + t)[|s + t| - 1] == t[|t| - 1];
      LengthWithoutBehind(s, front, c);
    }
  }

  /** Trimming a number works on its fraction, down to the point if need be. */
  lemma TrimFraction(head: string, digits: string)
    requires AllDigits(digits)
    ensures var fraction := digits[..LengthWithout(digits, '0')];
            TrimRightZero(head + "." + digits) == head + if fraction == "" then "" else "." + fraction
  {
    var s, front, k := head + "." + digits, head + ".", LengthWithout(digits, '0');
    LengthWithoutBehind(front, digits, '0');
    assert front[|front| - 1] == '.' && LengthWithout(front, '0') == |front|;
    hide LengthWithout;
    if k == 0 {
      assert s[|front| - 1] == '.' && s[..|front| - 1] == head;
    } else {
      assert s[|front| + k - 1] == digits[k - 1];
      assert s[..|front| + k] == head + ("." + digits[..k]);
    }
  }

  /** A trimmed finite float keeps its sign, whole part and value, and is as short as can be: no
      fraction at all, or one that ends in a digit other than zero. */
  lemma TrimKeepsValue(negative: bool, whole: nat, micros: Micros) returns (fraction: string)
    ensures AllDigits(fraction) && |fraction| <= 6 && ReadFraction(fraction, 100_000) == micros
    ensures fraction != "" ==> fraction[|fraction| - 1] != '0'
    ensures TrimRightZero(FloatText(Finite(negative, whole, micros))) ==
              Sign(negative) + NatText(whole) + if fraction == "" then "" else "." + fraction
  {
    var digits := Fraction(micros);
    var k := LengthWithout(digits, '0');
    fraction := digits[..k];
    TrimFraction(Sign(negative) + NatText(whole), digits);
    TrailingZerosAreWorthless(digits, k, 100_000);
    PlacesRoundTrip(micros, 100_000);
  }
}
