/**
 * The client-side schema of the add-card form (`formSchema` in
 * `app/components/AddCard.tsx`): three string fields, each checked by
 * length bounds, a regular expression and, for the expiry date, a
 * comparison with the current month. A field is accepted when it raises no
 * issue; the schema collects every issue of every field, in order. The
 * current date is a parameter.
 */
module CardForm {
  import opened Wrappers

  /** `\d` of a JavaScript regular expression without the `u` flag. */
  predicate IsDigit(c: char) {
    '0' <= c <= '9'
  }

  /** `\s` of a JavaScript regular expression: white space and line terminators. */
  predicate IsSpace(c: char) {
    || '\t' <= c <= '\r'               // tab, line feed, vertical tab, form feed, carriage return
    || c == ' ' || c == '\U{00A0}' || c == '\U{1680}'
    || '\U{2000}' <= c <= '\U{200A}'   // the en/em quads and spaces
    || c == '\U{2028}' || c == '\U{2029}' || c == '\U{202F}' || c == '\U{205F}'
    || c == '\U{3000}' || c == '\U{FEFF}'
  }

  /** The class `[\s-]` removed by the card-number transform. */
  predicate IsSeparator(c: char) {
    IsSpace(c) || c == '-'
  }

  predicate AllDigits(s: string) {
    forall i :: 0 <= i < |s| ==> IsDigit(s[i])
  }

  // ---------------------------------------------------------------- card number

  const CardNumberMin: nat := 13
  const CardNumberMax: nat := 19

  /** `/^[\d\s-]+$/`: non-empty, digits, white space and hyphens only. */
  predicate CardNumberCharsOk(s: string) {
    |s| > 0 && forall i :: 0 <= i < |s| ==> IsDigit(s[i]) || IsSeparator(s[i])
  }

  /** The issues of the card-number field, in the order the checks are declared. */
  function CardNumberIssues(s: string): (issues: seq<string>)
    ensures issues == [] <==> CardNumberMin <= |s| <= CardNumberMax && CardNumberCharsOk(s)
    ensures |issues| <= 2
  {
    (if |s| < CardNumberMin then ["Card number must be at least 13 digits"] else [])
    + (if |s| > CardNumberMax then ["Card number cannot exceed 19 digits"] else [])
    + (if !CardNumberCharsOk(s) then ["Card number can only contain digits, spaces, or hyphens"] else [])
  }

  /** `val.replace(/[\s-]/g, "")`. */
  function StripSeparators(s: string): (r: string)
    ensures forall c :: c in r <==> c in s && !IsSeparator(c)
    ensures |r| <= |s|
  {
    if s == [] then []
    else (if IsSeparator(s[0]) then [] else [s[0]]) + StripSeparators(s[1..])
  }

  /** A string without separators is left as it is. */
  lemma {:induction false} StripWithoutSeparators(s: string)
    requires forall i :: 0 <= i < |s| ==> !IsSeparator(s[i])
    ensures StripSeparators(s) == s
  {
    if s != [] {
      StripWithoutSeparators(s[1..]);
      assert [s[0]] + s[1..] == s;
    }
  }

  /** Stripping works piece by piece. */
  lemma {:induction false} StripAppend(a: string, b: string)
    ensures StripSeparators(a + b) == StripSeparators(a) + StripSeparators(b)
  {
    if a == [] {
      assert a + b == b;
    } else {
      assert (a + b)[1..] == a[1..] + b;
      StripAppend(a[1..], b);
    }
  }

  /** Stripping twice is stripping once. */
  lemma StripIdempotent(s: string)
    ensures StripSeparators(StripSeparators(s)) == StripSeparators(s)
  {
    var r := StripSeparators(s);
    forall i | 0 <= i < |r| ensures !IsSeparator(r[i]) {
      assert r[i] in r;
    }
    StripWithoutSeparators(r);
  }

  /** The value the schema hands on for an accepted card number: digits only, never longer than typed. */
  function CardNumberValue(s: string): (r: Option<string>)
    ensures r.Some? <==> CardNumberIssues(s) == []
    ensures r.Some? ==> r.value == StripSeparators(s) && AllDigits(r.value) && |r.value| <= |s|
  {
    if CardNumberIssues(s) == [] then
      var r := StripSeparators(s);
      assert forall i :: 0 <= i < |r| ==> r[i] in s;
      Some(r)
    else None
  }

  /** Digits are kept by the transform. */
  lemma DigitsKept(a: string)
    requires AllDigits(a)
    ensures StripSeparators(a) == a
  {
    StripWithoutSeparators(a);
  }

  /** The transform of digit groups joined by hyphens is the digits alone. */
  lemma StripHyphenated(a: string, b: string, c: string)
    requires AllDigits(a) && AllDigits(b) && AllDigits(c)
    ensures StripSeparators(a + "-" + b + "-" + c) == a + b + c
  {
    var h := "-";
    assert StripSeparators(h) == [] by {
      assert h[1..] == [];
    }
    DigitsKept(a);
    DigitsKept(b);
    DigitsKept(c);
    var x1 := a + h;
    var x2 := x1 + b;
    var x3 := x2 + h;
    StripAppend(a, h);
    assert StripSeparators(x1) == a;
    StripAppend(x1, b);
    assert StripSeparators(x2) == a + b;
    StripAppend(x2, h);
    assert StripSeparators(x3) == a + b;
    StripAppend(x3, c);
  }

  /**
   * The bounds are checked before the transform: three groups of four
   * digits joined by hyphens, such as `1234-5678-9012`, pass and yield only
   * twelve digits.
   */
  lemma ShortNumberAccepted(a: string, b: string, c: string)
    requires |a| == 4 && |b| == 4 && |c| == 4
    requires AllDigits(a) && AllDigits(b) && AllDigits(c)
    ensures CardNumberValue(a + "-" + b + "-" + c) == Some(a + b + c)
    ensures |a + b + c| == 12 < CardNumberMin
  {
    var s := a + "-" + b + "-" + c;
    forall i | 0 <= i < |s| ensures IsDigit(s[i]) || IsSeparator(s[i]) {
      if i < 4 { assert s[i] == a[i]; }
      else if 5 <= i < 9 { assert s[i] == b[i - 5]; }
      else if 10 <= i { assert s[i] == c[i - 10]; }
    }
    StripHyphenated(a, b, c);
  }

  // ---------------------------------------------------------------- expiry date

  function DigitValue(c: char): nat
    requires IsDigit(c)
  {
    c as nat - '0' as nat
  }

  function DigitChar(n: nat): (c: char)
    requires n < 10
    ensures IsDigit(c) && DigitValue(c) == n
  {
    ('0' as nat + n) as char
  }

  /** `/^(0[1-9]|1[0-2])\/([0-9]{2})$/`. */
  predicate ExpiryFormat(s: string) {
    && |s| == 5
    && ((s[0] == '0' && '1' <= s[1] <= '9') || (s[0] == '1' && '0' <= s[1] <= '2'))
    && s[2] == '/'
    && IsDigit(s[3]) && IsDigit(s[4])
  }

  /** `parseInt` of the month half of a well-formed expiry. */
  function ExpiryMonth(s: string): (m: nat)
    requires ExpiryFormat(s)
    ensures 1 <= m <= 12
  {
    DigitValue(s[0]) * 10 + DigitValue(s[1])
  }

  /** `parseInt` of the year half of a well-formed expiry. */
  function ExpiryYear(s: string): (y: nat)
    requires ExpiryFormat(s)
    ensures y < 100
  {
    DigitValue(s[3]) * 10 + DigitValue(s[4])
  }

  /** The text `MM/YY` for a month and a two-digit year. */
  function RenderExpiry(month: nat, year: nat): (s: string)
    requires 1 <= month <= 12 && year < 100
    ensures |s| == 5
  {
    [DigitChar(month / 10), DigitChar(month % 10), '/', DigitChar(year / 10), DigitChar(year % 10)]
  }

  /** The pattern accepts exactly the renderings of a month 1..12 and a year 0..99, and reads them back. */
  lemma ExpiryFormatIsRendering(s: string)
    ensures ExpiryFormat(s) <==> exists month: nat, year: nat :: 1 <= month <= 12 && year < 100 && s == RenderExpiry(month, year)
    ensures ExpiryFormat(s) ==> s == RenderExpiry(ExpiryMonth(s), ExpiryYear(s))
  {
    if ExpiryFormat(s) {
      var month, year := ExpiryMonth(s), ExpiryYear(s);
      assert month / 10 == DigitValue(s[0]) && month % 10 == DigitValue(s[1]);
      assert year / 10 == DigitValue(s[3]) && year % 10 == DigitValue(s[4]);
      assert s == RenderExpiry(month, year);
    }
    forall month: nat, year: nat | 1 <= month <= 12 && year < 100 && s == RenderExpiry(month, year)
      ensures ExpiryFormat(s) && ExpiryMonth(s) == month && ExpiryYear(s) == year
    {
      RenderParses(month, year);
    }
  }

  lemma RenderParses(month: nat, year: nat)
    requires 1 <= month <= 12 && year < 100
    ensures ExpiryFormat(RenderExpiry(month, year))
    ensures ExpiryMonth(RenderExpiry(month, year)) == month
    ensures ExpiryYear(RenderExpiry(month, year)) == year
  {
    var s := RenderExpiry(month, year);
    assert DigitValue(s[0]) == month / 10 && DigitValue(s[1]) == month % 10;
  }

  /**
   * The refinement: a later two-digit year, or the current one with a month
   * not before the current month. `currentYear` is the full year and
   * `currentMonth` is 1..12, as `getFullYear()` and `getMonth() + 1` give.
   */
  predicate NotExpired(month: nat, year: nat, currentYear: nat, currentMonth: nat) {
    year > currentYear % 100 || (year == currentYear % 100 && month >= currentMonth)
  }

  /** The issues of the expiry field for a well-formed value or a malformed one. */
  function ExpiryIssues(s: string, currentYear: nat, currentMonth: nat): (issues: seq<string>)
    requires 1 <= currentMonth <= 12
    ensures issues == [] <==> ExpiryFormat(s) && NotExpired(ExpiryMonth(s), ExpiryYear(s), currentYear, currentMonth)
  {
    if !ExpiryFormat(s) then ["Expiry date must be in MM/YY format"]
    else if NotExpired(ExpiryMonth(s), ExpiryYear(s), currentYear, currentMonth) then []
    else ["Card has expired"]
  }

  /** Acceptance in calendar terms: the card's month, read in the current century, is not before this month. */
  lemma ExpiryAcceptedIff(month: nat, year: nat, currentYear: nat, currentMonth: nat)
    requires 1 <= month <= 12 && year < 100 && 1 <= currentMonth <= 12
    ensures ExpiryIssues(RenderExpiry(month, year), currentYear, currentMonth) == [] <==>
            (currentYear / 100) * 100 + year > currentYear
            || ((currentYear / 100) * 100 + year == currentYear && month >= currentMonth)
  {
    RenderParses(month, year);
  }

  /** The current month is still accepted and the previous one is not. */
  lemma ExpiryBoundary(currentYear: nat, currentMonth: nat)
    requires 2 <= currentMonth <= 12
    ensures ExpiryIssues(RenderExpiry(currentMonth, currentYear % 100), currentYear, currentMonth) == []
    ensures ExpiryIssues(RenderExpiry(currentMonth - 1, currentYear % 100), currentYear, currentMonth) == ["Card has expired"]
  {
    RenderParses(currentMonth, currentYear % 100);
    RenderParses(currentMonth - 1, currentYear % 100);
  }

  /** No wrap-around into the next century: in December 2099, `01/00` counts as expired. */
  lemma NoCenturyWrap()
    ensures ExpiryIssues("01/00", 2099, 12) == ["Card has expired"]
  {
  }

  // ---------------------------------------------------------------- CVV

  /** `/^\d+$/`. */
  predicate CvvCharsOk(s: string) {
    |s| > 0 && AllDigits(s)
  }

  /** The issues of the CVV field, in declaration order. */
  function CvvIssues(s: string): (issues: seq<string>)
    ensures issues == [] <==> 3 <= |s| <= 4 && AllDigits(s)
  {
    (if |s| < 3 then ["CVV must be 3 or 4 digits"] else [])
    + (if |s| > 4 then ["CVV must not be more than 4 digits"] else [])
    + (if !CvvCharsOk(s) then ["CVV must contain only digits"] else [])
  }

  // ---------------------------------------------------------------- the schema

  datatype FormValues = FormValues(cardNumber: string, expiryDate: string, cvv: string)

  /**
   * `formSchema.safeParse`: the parsed values (card number stripped) when no
   * field raises an issue, otherwise every issue in field order.
   */
  function ValidateForm(raw: FormValues, currentYear: nat, currentMonth: nat): (r: Result<FormValues, seq<string>>)
    requires 1 <= currentMonth <= 12
    ensures r.Success? <==>
              && CardNumberMin <= |raw.cardNumber| <= CardNumberMax && CardNumberCharsOk(raw.cardNumber)
              && ExpiryFormat(raw.expiryDate)
              && NotExpired(ExpiryMonth(raw.expiryDate), ExpiryYear(raw.expiryDate), currentYear, currentMonth)
              && 3 <= |raw.cvv| <= 4 && AllDigits(raw.cvv)
    ensures r.Success? ==> r.value == FormValues(StripSeparators(raw.cardNumber), raw.expiryDate, raw.cvv)
                           && AllDigits(r.value.cardNumber) && AllDigits(r.value.cvv)
    ensures r.Failure? ==> r.error != []
  {
    var issues := CardNumberIssues(raw.cardNumber)
                  + ExpiryIssues(raw.expiryDate, currentYear, currentMonth)
                  + CvvIssues(raw.cvv);
    if issues == [] then
      assert CardNumberIssues(raw.cardNumber) == [] && CvvIssues(raw.cvv) == [];
      Success(FormValues(CardNumberValue(raw.cardNumber).value, raw.expiryDate, raw.cvv))
    else Failure(issues)
  }
}
