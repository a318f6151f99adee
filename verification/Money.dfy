/**
 * Amounts and discounts in whole paise. Typed decimals are exact rationals here and `Math.round` is floor(x + 1/2); the
 * source computes them in IEEE doubles.
 */
module Money {
  import opened Text

  // ---------- typed decimals ----------

  /** How many digits a text begins with. */
  function DigitRun(s: string): (n: nat)
    ensures n <= |s| && AllDigits(s[..n]) && (n < |s| ==> !IsDigit(s[n]))
  {
    if s != "" && IsDigit(s[0]) then
      var n := DigitRun(s[1..]);
      assert s[..n + 1] == [s[0]] + s[1..][..n];
      n + 1
    else 0
  }

  /** `/^\d+(\.\d{1,2})?$/`. */
  predicate IsDecimal(t: string) {
    var n := DigitRun(t);
    n > 0 && (n == |t| || (t[n] == '.' && 1 <= |t| - n - 1 <= 2 && AllDigits(t[n + 1..])))
  }

  function Whole(t: string): string { t[..DigitRun(t)] }

  function Fraction(t: string): string { if DigitRun(t) == |t| then "" else t[DigitRun(t) + 1..] }

  /** The number a text of digits stands for. */
  function Nat(s: string): nat
    requires AllDigits(s)
  {
    if s == "" then 0 else Nat(s[..|s| - 1]) * 10 + (s[|s| - 1] as int - '0' as int)
  }

  function Pow10(n: nat): (r: nat)
    ensures r > 0
  { if n == 0 then 1 else 10 * Pow10(n - 1)
  }

  /** `Number(text)` of a decimal. */
  function Value(t: string): real
    requires IsDecimal(t)
  {
    Nat(Whole(t)) as real + Nat(Fraction(t)) as real / Pow10(|Fraction(t)|) as real
  }

  function Round(x: real): int { (x + 0.5).Floor }

  function Hundredths(t: string): int
    requires IsDecimal(t)
  {
    Round(Value(t) * 100.0)
  }

  /** The digit-wise reading used for refunds: the first two digits after the point, padded with zeros. */
  function ToCents(text: string): Option<nat> {
    var t := Trim(text);
    if !IsDecimal(t) then None
    else Some(Nat(Whole(t)) * 100 + Nat(TwoPlaces(Fraction(t))))
  }

  function TwoPlaces(frac: string): (r: string)
    requires |frac| <= 2
    ensures |r| == 2 && (AllDigits(frac) ==> AllDigits(r))
  {
    (frac + "00")[..2]
  }

  lemma NatOfOne(s: string)
    requires |s| == 1 && AllDigits(s)
    ensures Nat(s) == s[0] as int - '0' as int
  {
    assert s[..0] == "";
  }

  lemma NatOfTwo(s: string)
    requires |s| == 2 && AllDigits(s)
    ensures Nat(s) == (s[0] as int - '0' as int) * 10 + (s[1] as int - '0' as int)
  {
    NatOfOne(s[..1]);
  }

  lemma TwoPlacesValue(frac: string)
    requires |frac| <= 2 && AllDigits(frac)
    ensures Nat(TwoPlaces(frac)) * Pow10(|frac|) == Nat(frac) * 100
  {
    assert Pow10(0) == 1 && Pow10(1) == 10 && Pow10(2) == 100;
    NatOfTwo(TwoPlaces(frac));
    if |frac| == 1 {
      NatOfOne(frac);
    } else if |frac| == 2 {
      NatOfTwo(frac);
    }
  }

  /** Rounding the parsed number and reading the digits give the same paise, for every decimal. */
  lemma RoundedParseIsDigitwise(text: string)
    requires IsDecimal(Trim(text))
    ensures ToCents(text) == Some(Hundredths(Trim(text)))
  {
    var t := Trim(text);
    var w, f := Nat(Whole(t)), Nat(TwoPlaces(Fraction(t)));
    TwoPlacesValue(Fraction(t));
    FractionAsPaise(Nat(Fraction(t)), Pow10(|Fraction(t)|), f);
    RoundOfInteger(w * 100 + f);
  }

  lemma FractionAsPaise(n: nat, p: nat, f: nat)
    requires p > 0 && f * p == n * 100
    ensures n as real / p as real * 100.0 == f as real
  {
    var x := n as real / p as real;
    assert x * p as real == n as real;
    assert (f * p) as real == f as real * p as real;
    assert (x * 100.0 - f as real) * p as real == 0.0;
  }

  lemma RoundOfInteger(n: int)
    ensures Round(n as real) == n
  {
  }

  /** Digits, and possibly a point and one or two more digits. */
  ghost predicate Spells(t: string, whole: string, frac: string) {
    && whole != "" && AllDigits(whole) && AllDigits(frac) && |frac| <= 2
    && t == if frac == "" then whole else whole + "." + frac
  }

  /** The texts that are read as amounts. */
  lemma DecimalsAre(t: string)
    ensures IsDecimal(t) <==> exists whole, frac :: Spells(t, whole, frac)
  {
    if IsDecimal(t) {
      var n := DigitRun(t);
      hide DigitRun;
      var whole, frac := t[..n], if n == |t| then "" else t[n + 1..];
      if n < |t| { assert t == whole + [t[n]] + frac; }
      assert Spells(t, whole, frac);
    }
    if whole, frac :| Spells(t, whole, frac) {
      SpelledParts(t, whole, frac);
    }
  }

  lemma SpelledParts(t: string, whole: string, frac: string)
    requires Spells(t, whole, frac)
    ensures IsDecimal(t) && Whole(t) == whole && Fraction(t) == frac
  {
    hide DigitRun;
    var rest := if frac == "" then "" else "." + frac;
    RunOfWhole(whole, rest);
    assert t == whole + rest;
    if frac != "" { assert t[|whole| + 1..] == frac && t[|whole|] == '.'; }
  }

  /** What an amount with white space around it is in paise: the whole number times a hundred and the two places. */
  lemma CentsOfSpelled(a: string, t: string, b: string, whole: string, frac: string)
    requires AllSpace(a) && AllSpace(b) && Spells(t, whole, frac)
    ensures ToCents(a + t + b) ==
            Some(100 * Nat(whole) + if |frac| == 0 then 0 else if |frac| == 1 then 10 * Nat(frac) else Nat(frac))
  {
    SpelledParts(t, whole, frac);
    EndsAreDigits(t, whole, frac);
    TrimTakesOffSpace(a, t, b);
    TwoPlacesValue(frac);
    hide *;
    CentsOfParts(a + t + b, t, whole, frac);
  }

  lemma EndsAreDigits(t: string, whole: string, frac: string)
    requires Spells(t, whole, frac)
    ensures t != "" && !IsSpace(t[0]) && !IsSpace(t[|t| - 1])
  {
    assert t[0] == whole[0] && t[|t| - 1] == if frac == "" then whole[|whole| - 1] else frac[|frac| - 1];
    assert IsDigit(t[0]) && IsDigit(t[|t| - 1]);
  }

  lemma CentsOfParts(text: string, t: string, whole: string, frac: string)
    requires Trim(text) == t && Spells(t, whole, frac) && IsDecimal(t) && Whole(t) == whole && Fraction(t) == frac
    ensures ToCents(text) == Some(100 * Nat(whole) + if |frac| == 0 then 0 else if |frac| == 1 then 10 * Nat(frac) else Nat(frac))
  {
    hide Trim;
    hide IsDecimal;
    hide Whole;
    hide Fraction;
    var f := TwoPlaces(frac);
    NatOfTwo(f);
    if |frac| == 0 {
      assert Nat(frac) == 0;
    } else if |frac| == 1 {
      NatOfOne(frac);
      assert f[0] == frac[0] && f[1] == '0';
    } else {
      assert f == frac;
    }
  }

  /** A text of digits is read place by place. */
  lemma NatOfPlaces(s: string, c: char)
    requires AllDigits(s) && IsDigit(c)
    ensures Nat([]) == 0 && Nat(s + [c]) == 10 * Nat(s) + (c as int - 48)
  {
    assert (s + [c])[..|s|] == s;
  }

  // ---------- amounts as text ----------

  function NatText(n: nat): (s: string)
    ensures s != "" && AllDigits(s) && Nat(s) == n
  {
    if n < 10 then
      assert [Digit(n)][..0] == "";
      [Digit(n)]
    else
      var s := NatText(n / 10) + [Digit(n % 10)];
      assert s[..|s| - 1] == NatText(n / 10);
      s
  }

  /** `(c / 100).toFixed(2)` of a whole number of paise. */
  function AmountText(c: nat): string {
    NatText(c / 100) + "." + [Digit(c % 100 / 10), Digit(c % 10)]
  }

  lemma {:induction false} RunOfWhole(whole: string, rest: string)
    requires AllDigits(whole) && (rest == "" || !IsDigit(rest[0]))
    ensures DigitRun(whole + rest) == |whole|
  {
    if whole == "" {
      assert whole + rest == rest;
    } else {
      assert (whole + rest)[1..] == whole[1..] + rest;
      RunOfWhole(whole[1..], rest);
    }
  }

  /** An amount shown with two decimals is read back as the same paise. */
  lemma AmountReadsBack(c: nat)
    ensures ToCents(AmountText(c)) == Some(c)
    ensures exists whole, frac :: Spells(AmountText(c), whole, frac) && |frac| == 2
  {
    hide Trim;
    hide IsDecimal;
    hide Whole;
    hide Fraction;
    hide NatText;
    var whole, frac := NatText(c / 100), [Digit(c % 100 / 10), Digit(c % 10)];
    AmountIsTrimmed(whole, frac);
    AmountParts(whole, frac);
    NatOfTwo(frac);
    assert TwoPlaces(frac) == frac;
    assert Spells(AmountText(c), whole, frac);
  }

  lemma AmountIsTrimmed(whole: string, frac: string)
    requires whole != "" && AllDigits(whole) && |frac| == 2 && AllDigits(frac)
    ensures var t := whole + "." + frac; Trim(t) == t
  {
    hide Trim;
    var t := whole + "." + frac;
    assert t[0] == whole[0] && t[|t| - 1] == frac[1];
    assert IsDigit(t[0]) && IsDigit(t[|t| - 1]);
  }

  lemma AmountParts(whole: string, frac: string)
    requires whole != "" && AllDigits(whole) && |frac| == 2 && AllDigits(frac)
    ensures var t := whole + "." + frac; IsDecimal(t) && Whole(t) == whole && Fraction(t) == frac
  {
    hide DigitRun;
    var t := whole + "." + frac;
    RunOfWhole(whole, "." + frac);
    assert t == whole + ("." + frac);
    assert t[|whole| + 1..] == frac && t[|whole|] == '.';
  }
}
