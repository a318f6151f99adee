/** The discount previews of order creation and prepaid upgrade: two implementations of one whole-paise rule. */
module Discount {
  import opened Text
  import opened Money

  datatype Kind = Fixed | Percent

  /** What the message complains about. */
  datatype Complaint = Negative | NotADecimal | AboveHundred | AboveBase | NothingLeftToPay | NotPositive | TooSmall

  /** An accepted discount, or why it is not; None is "nothing typed yet". */
  datatype Preview = Accepted(cents: int) | Rejected(error: Option<Complaint>)

  datatype UpgradePreview = UpgradeAccepted(discount: int, prepaid: int) | UpgradeRejected(error: Option<Complaint>)

  /** `Math.round((base * hundredths) / 10000)`. */
  function PercentOf(base: int, hundredths: int): int { Round((base * hundredths) as real / 10_000.0) }

  function PreviewDiscount(base: nat, kind: Kind, raw: string, strict: bool): Preview {
    var text := Trim(raw);
    if text == "" then Rejected(None)
    else if text[0] == '-' then Rejected(Some(Negative))
    else if !IsDecimal(text) then Rejected(Some(NotADecimal))
    else
      var h := Hundredths(text);
      if kind == Percent && h > 10_000 then Rejected(Some(AboveHundred))
      else if kind == Fixed && h > base then Rejected(Some(AboveBase))
      else
        var cents := if kind == Percent then PercentOf(base, h) else h;
        if strict && cents >= base then Rejected(Some(NothingLeftToPay))
        else if strict && cents <= 0 then Rejected(Some(NotPositive))
        else Accepted(cents)
  }

  function PreviewUpgrade(original: nat, kind: Kind, raw: string): UpgradePreview {
    var text := Trim(raw);
    if text == "" then UpgradeRejected(None)
    else if text[0] == '-' then UpgradeRejected(Some(Negative))
    else if !IsDecimal(text) then UpgradeRejected(Some(NotADecimal))
    else
      var h := Hundredths(text);
      if h <= 0 then UpgradeRejected(Some(NotPositive))
      else if kind == Percent && h > 10_000 then UpgradeRejected(Some(AboveHundred))
      else
        var cents := if kind == Fixed then h else PercentOf(original, h);
        if kind == Percent && cents <= 0 then UpgradeRejected(Some(TooSmall))
        else if cents >= original then UpgradeRejected(Some(NothingLeftToPay))
        else UpgradeAccepted(cents, original - cents)
  }

  // ---------- percentages ----------

  /** The rounded percentage in integers: half a paisa goes up. */
  lemma PercentInIntegers(base: int, h: int)
    ensures PercentOf(base, h) == (base * h + 5_000) / 10_000
  {
    HalfUp(base * h);
  }

  lemma HalfUp(n: int)
    ensures Round(n as real / 10_000.0) == (n + 5_000) / 10_000
  {
    var q := (n + 5_000) / 10_000;
    assert q as real * 10_000.0 <= (n + 5_000) as real < (q + 1) as real * 10_000.0;
    var x := n as real / 10_000.0 + 0.5;
    assert x * 10_000.0 == (n + 5_000) as real;
    assert q as real <= x < (q + 1) as real;
  }

  /** A percentage is within half a paisa of the exact value and never leaves 0..base; 100% is everything. */
  lemma PercentIsNearest(base: nat, h: nat)
    requires h <= 10_000
    ensures -5_000 < 10_000 * PercentOf(base, h) - base * h <= 5_000
    ensures 0 <= PercentOf(base, h) <= base
    ensures h == 0 ==> PercentOf(base, h) == 0
    ensures h == 10_000 ==> PercentOf(base, h) == base
  {
    PercentInIntegers(base, h);
    assert 0 <= base * h <= base * 10_000 by { Scales(base, h, 10_000); }
  }

  lemma Scales(base: nat, h: int, k: int)
    requires 0 <= h <= k
    ensures 0 <= base * h <= base * k
  {
  }

  /** A larger base or a larger rate never gives a smaller discount. */
  lemma PercentIsMonotone(base: nat, base': nat, h: nat, h': nat)
    requires base <= base' && h <= h'
    ensures PercentOf(base, h) <= PercentOf(base', h')
  {
    PercentInIntegers(base, h);
    PercentInIntegers(base', h');
    Scales(base, h, h');
    Scales(h', base, base');
  }

  lemma HundredthsAreNatural(text: string)
    requires IsDecimal(text)
    ensures Hundredths(text) >= 0
  {
    assert Value(text) >= 0.0;
  }

  // ---------- the two previews ----------

  /**
   * The strict order preview and the upgrade preview accept the same texts with the same paise, and an accepted discount
   * leaves at least one paisa to pay.
   */
  lemma PreviewsAgree(base: nat, kind: Kind, raw: string)
    ensures var p, u := PreviewDiscount(base, kind, raw, true), PreviewUpgrade(base, kind, raw);
            && (p.Accepted? <==> u.UpgradeAccepted?)
            && (p.Accepted? ==> u.discount == p.cents && 1 <= p.cents && u.prepaid == base - p.cents && 1 <= u.prepaid)
            && (p == Rejected(None) <==> u == UpgradeRejected(None))
  {
    hide Trim;
    hide IsDecimal;
    hide Hundredths;
    hide PercentOf;
    var text := Trim(raw);
    if IsDecimal(text) {
      var h := Hundredths(text);
      HundredthsAreNatural(text);
      if h <= 10_000 { PercentIsNearest(base, h); }
    }
  }

  /**
   * What is rejected draws the same complaint from both, except for a fixed amount above the base, a percentage that rounds to
   * nothing, and a zero taken off nothing.
   */
  lemma ComplaintsAgree(base: nat, kind: Kind, raw: string)
    requires PreviewDiscount(base, kind, raw, true).Rejected?
    ensures var text := Trim(raw);
            PreviewUpgrade(base, kind, raw) == UpgradeRejected(PreviewDiscount(base, kind, raw, true).error) <==>
            !(text != "" && IsDecimal(text) && var h := Hundredths(text);
              || (kind == Fixed && h > base)
              || (kind == Percent && 0 < h <= 10_000 && PercentOf(base, h) == 0)
              || (h == 0 && base == 0))
  {
    hide Trim;
    hide IsDecimal;
    hide Hundredths;
    hide PercentOf;
    var text := Trim(raw);
    if text != "" && text[0] == '-' { NegativeIsNoDecimal(text); }
    if IsDecimal(text) {
      var h := Hundredths(text);
      HundredthsAreNatural(text);
      if h <= 10_000 { PercentIsNearest(base, h); }
    }
  }

  lemma NegativeIsNoDecimal(text: string)
    requires text != "" && text[0] == '-'
    ensures !IsDecimal(text)
  {
  }

  /** Without strictness a discount may be nothing or everything, but no more; strictness only removes those two ends. */
  lemma PreviewStaysInBounds(base: nat, kind: Kind, raw: string)
    ensures var p, s := PreviewDiscount(base, kind, raw, false), PreviewDiscount(base, kind, raw, true);
            && (p.Accepted? ==> 0 <= p.cents <= base)
            && (s.Accepted? <==> p.Accepted? && 0 < p.cents < base)
            && (s.Accepted? ==> s == p)
  {
    hide Trim;
    hide IsDecimal;
    hide Hundredths;
    hide PercentOf;
    var text := Trim(raw);
    if IsDecimal(text) {
      var h := Hundredths(text);
      HundredthsAreNatural(text);
      if h <= 10_000 { PercentIsNearest(base, h); }
    }
  }

  /**
   * What is accepted is what was typed, read digit by digit: the amount itself if it is not above the base, or that percentage
   * of the base, up to 100, rounded half up.
   */
  lemma AcceptedIsWhatWasTyped(base: nat, kind: Kind, raw: string)
    ensures var p, typed := PreviewDiscount(base, kind, raw, false), ToCents(raw);
            && (p.Accepted? <==> typed.Some? && typed.value <= if kind == Percent then 10_000 else base)
            && (p.Accepted? ==> p.cents == if kind == Percent then (base * typed.value + 5_000) / 10_000 else typed.value)
  {
    hide Trim;
    hide IsDecimal;
    hide Hundredths;
    hide PercentOf;
    var text := Trim(raw);
    if text != "" && text[0] == '-' { NegativeIsNoDecimal(text); }
    if IsDecimal(text) {
      EmptyIsNoDecimal();
      RoundedParseIsDigitwise(raw);
      PercentInIntegers(base, Hundredths(text));
    } else {
      NoDecimalNoCents(raw);
    }
  }

  /** Which complaint each rejected text draws, told by the digits typed. */
  lemma ComplaintMeaning(base: nat, kind: Kind, raw: string, strict: bool)
    ensures var p, text, typed := PreviewDiscount(base, kind, raw, strict), Trim(raw), ToCents(raw);
            var within := typed.Some? && typed.value <= if kind == Percent then 10_000 else base;
            var cents := if !within then 0 else if kind == Percent then (base * typed.value + 5_000) / 10_000 else typed.value;
            && (p == Rejected(None) <==> text == "")
            && (p == Rejected(Some(Negative)) <==> text != "" && text[0] == '-')
            && (p == Rejected(Some(NotADecimal)) <==> text != "" && text[0] != '-' && typed == None)
            && (p == Rejected(Some(AboveHundred)) <==> typed.Some? && kind == Percent && typed.value > 10_000)
            && (p == Rejected(Some(AboveBase)) <==> typed.Some? && kind == Fixed && typed.value > base)
            && (p == Rejected(Some(NothingLeftToPay)) <==> within && strict && cents >= base)
            && (p == Rejected(Some(NotPositive)) <==> within && strict && cents == 0 < base)
            && p != Rejected(Some(TooSmall))
            && (p == Accepted(cents) <==> within && (strict ==> 0 < cents < base))
  {
    hide Trim;
    hide IsDecimal;
    hide Hundredths;
    hide PercentOf;
    hide ToCents;
    var text := Trim(raw);
    EmptyIsNoDecimal();
    if text != "" && text[0] == '-' { NegativeIsNoDecimal(text); }
    if IsDecimal(text) {
      RoundedParseIsDigitwise(raw);
      PercentInIntegers(base, Hundredths(text));
      if 0 <= Hundredths(text) <= 10_000 { PercentIsNearest(base, Hundredths(text)); }
    } else {
      NoDecimalNoCents(raw);
    }
  }

  lemma EmptyIsNoDecimal()
    ensures !IsDecimal("")
  {
  }

  lemma NoDecimalNoCents(raw: string)
    requires !IsDecimal(Trim(raw))
    ensures ToCents(raw) == None
  {
  }

  // ---------- choices ----------

  datatype Choice = NoDiscount | Coupon(code: string, kind: Kind, value: string, maxCents: Option<int>) | Custom(kind: Kind, value: string)

  function ChoiceCents(base: nat, choice: Choice, strict: bool): int {
    match choice
    case NoDiscount => 0
    case Custom(kind, value) =>
      var p := PreviewDiscount(base, kind, value, strict); if p.Accepted? then p.cents else 0
    case Coupon(_, kind, value, maxCents) =>
      var p := PreviewDiscount(base, kind, value, strict);
      if !p.Accepted? then 0
      else if maxCents.Some? && maxCents.value < p.cents then maxCents.value else p.cents
  }

  /** `choiceFromCrmCoupon`: the cap is a decimal amount or absent. */
  function FromCrmCoupon(code: string, kind: Kind, value: string, maxDiscount: Option<string>): Choice
    requires maxDiscount.Some? ==> IsDecimal(Trim(maxDiscount.value))
  {
    Coupon(code, kind, value, match maxDiscount case Some(m) => Some(Hundredths(Trim(m))) case None => None)
  }

  /**
   * What a choice takes off is never negative and never more than the base or the cap; it is the previewed amount or, where that
   * is larger, the cap, and nothing for what the preview rejects.
   */
  lemma ChoiceIsBounded(base: nat, choice: Choice, strict: bool)
    requires choice.Coupon? && choice.maxCents.Some? ==> choice.maxCents.value >= 0
    ensures 0 <= ChoiceCents(base, choice, strict) <= base
    ensures choice.Coupon? && choice.maxCents.Some? ==> ChoiceCents(base, choice, strict) <= choice.maxCents.value
    ensures choice.NoDiscount? ==> ChoiceCents(base, choice, strict) == 0
    ensures !choice.NoDiscount? ==>
              var p, cents := PreviewDiscount(base, choice.kind, choice.value, strict), ChoiceCents(base, choice, strict);
              if p.Rejected? then cents == 0
              else cents == p.cents || (choice.Coupon? && choice.maxCents == Some(cents) && cents < p.cents)
  {
    hide PreviewDiscount;
    if !choice.NoDiscount? {
      PreviewStaysInBounds(base, choice.kind, choice.value);
    }
  }

  /** A CRM coupon takes off what its value previews to, or its cap where that is smaller; without a cap just the preview. */
  lemma CrmCouponRespectsItsCap(base: nat, code: string, kind: Kind, value: string, max: string, strict: bool)
    requires IsDecimal(Trim(max))
    ensures var p, cap := PreviewDiscount(base, kind, value, strict), ToCents(max);
            var full := if p.Accepted? then p.cents else 0;
            && ChoiceCents(base, FromCrmCoupon(code, kind, value, None), strict) == full
            && cap.Some? && ChoiceCents(base, FromCrmCoupon(code, kind, value, Some(max)), strict) ==
                            if p.Accepted? && cap.value < full then cap.value else full
    ensures var cents := ChoiceCents(base, FromCrmCoupon(code, kind, value, Some(max)), strict);
            0 <= cents <= base && ToCents(max).Some? && cents <= ToCents(max).value
  {
    HundredthsAreNatural(Trim(max));
    RoundedParseIsDigitwise(max);
    ChoiceIsBounded(base, FromCrmCoupon(code, kind, value, Some(max)), strict);
  }
}
