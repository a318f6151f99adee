/** The canonical form of a phone number. */
module PhoneNumber {
  import opened Text

  const DEFAULT_COUNTRY_CODE := "91"

  /** `replace(/\D/g, "")`. */
  function Digits(s: string): (r: string)
    ensures AllDigits(r)
  {
    if s == "" then "" else (if IsDigit(s[0]) then [s[0]] else []) + Digits(s[1..])
  }

  /** `replace(/^0+/, "")`. */
  function WithoutZeros(s: string): (r: string)
    ensures AllDigits(s) ==> AllDigits(r)
    ensures r != "" ==> r[0] != '0'
    ensures s != "" && s[0] != '0' ==> r == s
  {
    if s != "" && s[0] == '0' then WithoutZeros(s[1..]) else s
  }

  /** What remains of a number without its trunk or international zeros. */
  function Significant(trimmed: string): string { WithoutZeros(Digits(trimmed)) }

  predicate IsInternational(trimmed: string) { "+" <= trimmed || "00" <= Digits(trimmed) }

  function Canonical(significant: string, international: bool): Option<string> {
    if significant == "" then None
    else if !international && |significant| == 10 then Some("+" + DEFAULT_COUNTRY_CODE + significant)
    else if 8 <= |significant| <= 15 then Some("+" + significant)
    else None
  }

  /** The canonical form, or None if the text is not a plausible number. */
  function NormalizeMobile(raw: string): Option<string> {
    var trimmed := Trim(raw);
    if raw == "" || Digits(trimmed) == "" then None
    else Canonical(Significant(trimmed), IsInternational(trimmed))
  }

  /** The shape of section 6 of ITU-T E.164: a plus sign and 8 to 15 digits that do not begin with 0. */
  predicate IsCanonical(s: string) {
    9 <= |s| <= 16 && s[0] == '+' && AllDigits(s[1..]) && s[1] != '0'
  }

  lemma {:induction false} DigitsOfDigits(s: string)
    requires AllDigits(s)
    ensures Digits(s) == s
  {
    if s != "" { DigitsOfDigits(s[1..]); }
  }

  lemma CanonicalShape(significant: string, international: bool)
    requires AllDigits(significant) && (significant != "" ==> significant[0] != '0')
    ensures Canonical(significant, international).Some? <==> 8 <= |significant| <= 15
    ensures Canonical(significant, international).Some? ==> IsCanonical(Canonical(significant, international).value)
  {
    var r := Canonical(significant, international);
    if r.Some? {
      assert r.value[1..] == significant || r.value[1..] == DEFAULT_COUNTRY_CODE + significant;
    }
  }

  /** There is a result exactly when 8 to 15 digits remain after the leading zeros, and it is canonical. */
  lemma ResultIsCanonical(raw: string)
    ensures NormalizeMobile(raw).Some? <==> 8 <= |Significant(Trim(raw))| <= 15
    ensures NormalizeMobile(raw).Some? ==> IsCanonical(NormalizeMobile(raw).value)
  {
    hide Trim;
    hide IsInternational;
    hide Canonical;
    hide IsCanonical;
    assert raw == "" ==> Trim(raw) == "" by { TrimEmpty(); }
    CanonicalShape(Significant(Trim(raw)), IsInternational(Trim(raw)));
  }

  /** A result has exactly the significant digits, after the country code if there are ten of them and no international prefix. */
  lemma DigitsAreKept(raw: string)
    requires NormalizeMobile(raw).Some?
    ensures var n := Significant(Trim(raw));
            Digits(NormalizeMobile(raw).value) ==
            if |n| == 10 && !IsInternational(Trim(raw)) then "91" + n else n
  {
    hide Trim;
    hide IsInternational;
    ResultIsCanonical(raw);
    PlusDigits(NormalizeMobile(raw).value);
  }

  lemma TrimEmpty()
    ensures Trim("") == ""
  {
  }

  /** Canonical numbers are their own canonical form, so normalising twice changes nothing. */
  lemma CanonicalIsFixed(s: string)
    requires IsCanonical(s)
    ensures NormalizeMobile(s) == Some(s)
  {
    var d := s[1..];
    assert Trim(s) == s by { assert IsDigit(d[|d| - 1]); }
    hide Trim;
    hide Canonical;
    PlusDigits(s);
    assert Significant(s) == d && IsInternational(s);
    PlusForm(s);
  }

  lemma PlusDigits(s: string)
    requires IsCanonical(s)
    ensures Digits(s) == s[1..] && "+" <= s
  {
    DigitsOfDigits(s[1..]);
  }

  lemma PlusForm(s: string)
    requires IsCanonical(s)
    ensures Canonical(s[1..], true) == Some(s)
  {
    assert s == "+" + s[1..];
  }

  lemma Idempotent(raw: string)
    ensures NormalizeMobile(raw).Some? ==> NormalizeMobile(NormalizeMobile(raw).value) == NormalizeMobile(raw)
  {
    hide NormalizeMobile;
    ResultIsCanonical(raw);
    if NormalizeMobile(raw).Some? {
      CanonicalIsFixed(NormalizeMobile(raw).value);
    }
  }

  /** The digits of `s`, in order, are `digits`, found at the places `at`; whatever else `s` has is no digit. */
  ghost predicate ReadsOff(s: string, at: seq<nat>, digits: string) {
    && |at| == |digits|
    && (forall k :: 0 <= k < |at| ==> at[k] < |s| && '0' <= s[at[k]] == digits[k] <= '9')
    && (forall k, l :: 0 <= k < l < |at| ==> at[k] < at[l])
    && (forall i: nat :: i < |s| && '0' <= s[i] <= '9' ==> i in at)
  }

  lemma {:induction false} DigitsConcat(s: string, t: string)
    ensures Digits(s + t) == Digits(s) + Digits(t)
  {
    if s == "" {
      assert s + t == t;
    } else {
      hide IsDigit;
      var first := if IsDigit(s[0]) then [s[0]] else [];
      assert (s + t)[0] == s[0] && (s + t)[1..] == s[1..] + t;
      assert Digits(s) == first + Digits(s[1..]) && Digits(s + t) == first + Digits(s[1..] + t);
      DigitsConcat(s[1..], t);
      hide Digits;
      ConcatAssociates(first, Digits(s[1..]), Digits(t));
    }
  }

  lemma {:induction false} DigitsAreReadOff(s: string, at: seq<nat>, digits: string)
    requires ReadsOff(s, at, digits)
    ensures Digits(s) == digits
  {
    if s != "" {
      var n := |s| - 1;
      assert s == s[..n] + [s[n]];
      DigitsConcat(s[..n], [s[n]]);
      if IsDigit(s[n]) {
        LastDigit(s, at, digits);
        DigitsAreReadOff(s[..n], at[..|at| - 1], digits[..|digits| - 1]);
        assert digits == digits[..|digits| - 1] + [s[n]];
      } else {
        NoLastDigit(s, at, digits);
        DigitsAreReadOff(s[..n], at, digits);
      }
    }
  }

  lemma LastDigit(s: string, at: seq<nat>, digits: string)
    requires s != "" && IsDigit(s[|s| - 1]) && ReadsOff(s, at, digits)
    ensures at != [] && digits[|digits| - 1] == s[|s| - 1]
    ensures ReadsOff(s[..|s| - 1], at[..|at| - 1], digits[..|digits| - 1])
  {
    var n, m := |s| - 1, |at| - 1;
    var k :| 0 <= k < |at| && at[k] == n;
    assert k == m;
    forall i: nat | i < n && '0' <= s[i] <= '9'
      ensures i in at[..m]
    {
      var j :| 0 <= j < |at| && at[j] == i;
      assert at[..m][j] == i;
    }
  }

  lemma NoLastDigit(s: string, at: seq<nat>, digits: string)
    requires s != "" && !IsDigit(s[|s| - 1]) && ReadsOff(s, at, digits)
    ensures ReadsOff(s[..|s| - 1], at, digits)
  {
    assert forall k :: 0 <= k < |at| ==> at[k] != |s| - 1;
  }

  function Zeros(k: nat): string { if k == 0 then "" else ['0'] + Zeros(k - 1) }

  lemma {:induction false} WithoutTheseZeros(k: nat, n: string)
    requires n == "" || n[0] != '0'
    ensures WithoutZeros(Zeros(k) + n) == n
  {
    if k == 0 {
      assert Zeros(0) + n == n;
    } else {
      assert (Zeros(k) + n)[1..] == Zeros(k - 1) + n;
      WithoutTheseZeros(k - 1, n);
    }
  }

  lemma TwoZeros(k: nat, n: string)
    requires n == "" || n[0] != '0'
    ensures "00" <= Zeros(k) + n <==> k >= 2
  {
    if k >= 2 {
      assert Zeros(k) == ['0'] + Zeros(k - 1) && Zeros(k - 1) == ['0'] + Zeros(k - 2);
    } else if k == 1 {
      assert Zeros(1) == ['0'] && (Zeros(1) + n)[1..] == n;
    } else {
      assert Zeros(0) + n == n;
    }
  }

  /**
   * What becomes of any text, told by its characters: some zeros and then `n` are read off between its white space. There is a
   * result exactly if `n` has 8 to 15 digits. It is `n` after a plus sign, with the country code 91 in between for ten digits,
   * unless the text begins with a plus sign or the number with two zeros.
   */
  lemma FormOfAnyText(a: string, body: string, b: string, at: seq<nat>, zeros: nat, n: string)
    requires AllSpace(a) && AllSpace(b) && (body != "" ==> !IsSpace(body[0]) && !IsSpace(body[|body| - 1]))
    requires ReadsOff(body, at, Zeros(zeros) + n) && (n == "" || n[0] != '0')
    ensures NormalizeMobile(a + body + b) ==
            if !(8 <= |n| <= 15) then None
            else if |n| == 10 && !(body != "" && body[0] == '+') && zeros < 2 then Some("+91" + n)
            else Some("+" + n)
  {
    TrimTakesOffSpace(a, body, b);
    DigitsAreReadOff(body, at, Zeros(zeros) + n);
    WithoutTheseZeros(zeros, n);
    TwoZeros(zeros, n);
    hide *;
    NormalOf(a + body + b, body);
    if Digits(body) == "" { assert n == ""; }
    CanonicalOf(n, IsInternational(body));
    InternationalIf(body, zeros);
  }

  lemma NormalOf(raw: string, trimmed: string)
    requires Trim(raw) == trimmed
    ensures NormalizeMobile(raw) ==
            if Digits(trimmed) == "" then None else Canonical(WithoutZeros(Digits(trimmed)), IsInternational(trimmed))
  {
    hide Trim;
    hide Digits;
    hide Canonical;
    hide WithoutZeros;
    if raw == "" {
      TrimEmpty();
      NoDigits();
    }
  }

  lemma NoDigits()
    ensures Digits("") == ""
  {
  }

  lemma InternationalIf(trimmed: string, zeros: nat)
    requires "00" <= Digits(trimmed) <==> zeros >= 2
    ensures IsInternational(trimmed) <==> (trimmed != "" && trimmed[0] == '+') || zeros >= 2
  {
    assert "+" <= trimmed <==> trimmed != "" && trimmed[0] == '+';
  }

  lemma CanonicalOf(n: string, international: bool)
    ensures Canonical(n, international) ==
            if !(8 <= |n| <= 15) then None else if |n| == 10 && !international then Some("+91" + n) else Some("+" + n)
  {
    assert "+" + DEFAULT_COUNTRY_CODE + n == "+91" + n;
  }

  /** The ways a domestic number `n` is written: bare, with a trunk 0, or with the country code after nothing, + or 00. */
  predicate Writes(raw: string, n: string) {
    var trimmed := Trim(raw);
    var digits := Digits(trimmed);
    || (!("+" <= trimmed) && (digits == n || digits == ['0'] + n))
    || digits == "91" + n
    || digits == "0091" + n
  }

  /** A ten-digit number not beginning with 0 has one canonical form, whichever way it is written and however it is punctuated. */
  lemma OneNumberOneForm(raw: string, n: string)
    requires |n| == 10 && AllDigits(n) && n[0] != '0'
    requires Writes(raw, n)
    ensures NormalizeMobile(raw) == Some("+91" + n)
  {
    assert "+" + (DEFAULT_COUNTRY_CODE + n) == "+91" + n;
    hide Trim;
    TrimEmpty();
    var trimmed := Trim(raw);
    var digits := Digits(trimmed);
    LeadingZeros(n);
    if digits == n || digits == ['0'] + n {
      assert Significant(trimmed) == n;
      if !("+" <= trimmed) { NotInternational(trimmed, n); }
    } else {
      assert Significant(trimmed) == "91" + n;
    }
    CountryForm(n, IsInternational(trimmed));
  }

  lemma NotInternational(trimmed: string, n: string)
    requires |n| == 10 && n[0] != '0' && !("+" <= trimmed) && (Digits(trimmed) == n || Digits(trimmed) == ['0'] + n)
    ensures !IsInternational(trimmed)
  {
    assert Digits(trimmed)[0] == n[0] || Digits(trimmed)[1] == n[0];
  }

  lemma CountryForm(n: string, international: bool)
    requires |n| == 10
    ensures Canonical(n, false) == Some("+" + (DEFAULT_COUNTRY_CODE + n))
    ensures Canonical("91" + n, international) == Some("+" + (DEFAULT_COUNTRY_CODE + n))
  {
    assert "+" + DEFAULT_COUNTRY_CODE + n == "+" + (DEFAULT_COUNTRY_CODE + n);
  }

  lemma LeadingZeros(n: string)
    requires n != "" && n[0] != '0'
    ensures WithoutZeros(n) == n && WithoutZeros(['0'] + n) == n
    ensures WithoutZeros("91" + n) == "91" + n && WithoutZeros("0091" + n) == "91" + n
  {
    assert (['0'] + n)[1..] == n;
    assert ("0091" + n)[1..] == "091" + n && ("091" + n)[1..] == "91" + n;
  }
}
