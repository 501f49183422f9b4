// Where the live field checks and the step gates disagree about the same
// value, and other consequences of how the wizard's checks are wired: each
// lemma states the disagreement for every input it concerns.

module RuleDivergence {
  import opened JsValues
  import opened Text
  import opened FormDataTypes
  import opened FieldErrors
  import opened Registration
  import opened UserInfo
  import opened TravelDetails
  import opened CivilDate

  // ---------------------------------------------------------------- password

  /** A strong password always passes the gate, but the gate also passes
      every password of six or seven characters, which the live check
      refuses. */
  lemma PasswordRulesDiverge(d: FormData)
    ensures StrongPassword(d.password) ==> PasswordRule(d.password).None?
    ensures 6 <= |d.password| < 8 ==> PasswordRule(d.password).None? && !StrongPassword(d.password)
  {
  }

  // ---------------------------------------------------------------- phone

  /** The live check accepts exactly the numbers the gate accepts that do
      not start with `0`. */
  lemma PhoneRulesDiverge(d: FormData)
    ensures ValidatePhoneNumber(d.phoneNumber) == "" <==>
      PhoneRule(d.phoneNumber).None? && d.phoneNumber[0] != '0'
  {
  }

  // ---------------------------------------------------------------- age

  /** For an age stored from typed text, the live check accepts exactly
      what the gate accepts, and 100 besides. */
  lemma AgeRulesDiverge(d: FormData, text: string)
    requires d.age == NumberOf(text)
    ensures ValidateAge(text) == "" <==> AgeRule(d.age).None? || d.age == Some(100)
  {
  }

  // ---------------------------------------------------------------- travel date

  /** A travel date earlier today is stored without complaint by the field,
      which compares with today's midnight, and then refused by the gate,
      which compares with the current time. */
  lemma TravelDateRulesDiverge(f: Form, t: int, todayMidnight: int, now: int)
    requires todayMidnight <= t < now
    ensures TravelDateChange(f, Some(At(t)), todayMidnight).errors[TravelDate] == ""
    ensures TravelDateChange(f, Some(At(t)), todayMidnight).draft.travelDate == Some(At(t))
    ensures TravelRule(TravelDateChange(f, Some(At(t)), todayMidnight).draft, now, TravelDate) == Some(PastTravelDate)
  {
  }

  /** Changing the travel date re-checks nothing about the return date:
      a travel date after the stored return date is accepted, leaving the
      return before the travel and the return-date message untouched. */
  lemma TravelDateBreaksReturnOrder(f: Form, t: int, todayMidnight: int)
    requires f.draft.returnDate.Some? && f.draft.returnDate.value.At?
    requires todayMidnight <= t && f.draft.returnDate.value.ms < t
    ensures Before(TravelDateChange(f, Some(At(t)), todayMidnight).draft.returnDate.value,
                   TravelDateChange(f, Some(At(t)), todayMidnight).draft.travelDate.value)
    ensures MessageOf(TravelDateChange(f, Some(At(t)), todayMidnight).errors, ReturnDate) == MessageOf(f.errors, ReturnDate)
  {
    var r := TravelDateChange(f, Some(At(t)), todayMidnight);
    WriteKey(f.errors, TravelDate, "");
    assert r.errors == f.errors[TravelDate := ""];
  }

  /** The gate has no same-city rule: two equal chosen cities pass it. */
  lemma SameCityPassesGate(d: FormData, now: int)
    requires SameCity(d)
    ensures TravelRule(d, now, DepartureCity).None? && TravelRule(d, now, DestinationCity).None?
  {
  }

  // ---------------------------------------------------------------- email

  /** Lower-casing turns `@` and `.` into nothing else, and nothing else
      into them. */
  lemma LowerKeepsMarks(c: char)
    ensures LowerChar(c) == '@' <==> c == '@'
    ensures LowerChar(c) == '.' <==> c == '.'
  {
  }

  /** Every stored address the live check accepts passes the gate. */
  lemma LiveEmailPassesGate(e: string)
    requires NoSpace(e) && LiveEmailShape(LowerCase(e))
    ensures GateEmailShape(e)
  {
    var at, dot := LiveMarks(LowerCase(e));
    LowerKeepsMarks(e[at]);
    LowerKeepsMarks(e[dot]);
  }

  /** The live shape puts its `@` and its dot where the gate looks for
      them: each with at least one character on either side. */
  lemma LiveMarks(s: string) returns (at: int, dot: int)
    requires LiveEmailShape(s)
    ensures 0 < at && at + 1 < dot < |s| - 1 && s[at] == '@' && s[dot] == '.'
  {
    at, dot :| 0 <= at < dot < |s| && s[at] == '@' && s[dot] == '.'
      && AddressPart(s[..at]) && AddressPart(s[at + 1..dot]) && AddressPart(s[dot + 1..]);
    assert |s[..at]| > 0 && |s[at + 1..dot]| > 0 && |s[dot + 1..]| > 0;
  }

  /** An address the live check accepts holds exactly one `@`. */
  lemma LiveEmailSingleAt(s: string, i: int, j: int)
    requires LiveEmailShape(s)
    requires 0 <= i < |s| && 0 <= j < |s| && s[i] == '@' && s[j] == '@'
    ensures i == j
  {
    var at, dot :| 0 <= at < dot < |s| && s[at] == '@' && s[dot] == '.'
      && AddressPart(s[..at]) && AddressPart(s[at + 1..dot]) && AddressPart(s[dot + 1..]);
    AtOnlyAt(s, at, dot, i);
    AtOnlyAt(s, at, dot, j);
  }

  lemma AtOnlyAt(s: string, at: int, dot: int, i: int)
    requires 0 <= at < dot < |s| && s[dot] == '.'
    requires AddressPart(s[..at]) && AddressPart(s[at + 1..dot]) && AddressPart(s[dot + 1..])
    requires 0 <= i < |s| && s[i] == '@'
    ensures i == at
  {
  }

  /** The gate lets through an address with two `@`, which the live check
      refuses. */
  lemma GateAcceptsTwoAts()
    ensures GateEmailShape("a@b@c.d")
    ensures !LiveEmailShape(LowerCase("a@b@c.d"))
  {
    var s := "a@b@c.d";
    assert s[0] == 'a' && s[1] == '@' && s[2] == 'b' && s[3] == '@' && s[4] == 'c' && s[5] == '.' && s[6] == 'd';
    assert NoSpace(s);
    assert 0 < 1 && 1 + 1 < 5 < |s| - 1 && s[1] == '@' && s[5] == '.';
    var l := LowerCase(s);
    assert l[1] == '@' && l[3] == '@';
    if LiveEmailShape(l) {
      LiveEmailSingleAt(l, 1, 3);
    }
  }

  // ---------------------------------------------------------------- payment

  /** A card number or CVV typed with a leading zero is stored without it
      (it goes through `parseInt`), so it comes out shorter than typed: no
      CVV and no card number starting with `0` can pass the gate. */
  lemma LeadingZeroNumberRejected(typed: string)
    requires |typed| >= 2 && AllDigits(typed) && typed[0] == '0'
    ensures |PaymentNumberText(typed)| < |typed|
    ensures |typed| == 3 ==> CvvRule(PaymentNumberText(typed)).Some?
    ensures |typed| == 16 ==> CardRule(PaymentNumberText(typed)).Some?
  {
    LeadingZeroShortens(typed);
  }

  lemma LeadingZeroShortens(typed: string)
    requires |typed| >= 2 && AllDigits(typed) && typed[0] == '0'
    ensures |PaymentNumberText(typed)| < |typed|
  {
    LeadingZeroParsed(typed);
    var v := DigitsValue(typed[1..]);
    DigitsValueBound(typed[1..]);
    NatToStringLength(v, |typed| - 1);
  }

  /** `parseInt` of a digit string with a leading zero is the value of the
      digits after it. */
  lemma LeadingZeroParsed(typed: string)
    requires |typed| >= 2 && AllDigits(typed) && typed[0] == '0'
    ensures PaymentNumberText(typed) == NatToString(DigitsValue(typed[1..]))
  {
    assert typed + [] == typed;
    ParseIntDigitsThen(typed, []);
    LeadingZeroValue(typed);
  }

  // ---------------------------------------------------------------- expiry

  /** With `new Date` reading a `YYYY-MM-DD` expiry as UTC midnight of that
      day, the gate refuses it exactly when that midnight has passed. */
  lemma IsoExpiryRule(expiry: string, env: Env)
    requires env.parseDate(expiry) == IsoDateMoment(expiry) && IsIsoDateText(expiry)
    ensures var c := IsoCivil(expiry);
      ExpiryRule(expiry, env).None? <==> env.now <= DaysFromCivil(c.year, c.month, c.day) * MsPerDay
  {
  }

  /** Any other non-empty expiry text, which such a `new Date` reads as an
      invalid date, passes the gate: an invalid date is never before the
      current time. */
  lemma UnreadableExpiryPasses(expiry: string, env: Env)
    requires expiry != "" && env.parseDate(expiry) == IsoDateMoment(expiry) && !IsIsoDateText(expiry)
    ensures ExpiryRule(expiry, env).None?
  {
  }

  // ---------------------------------------------------------------- step tabs

  /** Clicking the last tab from the first step needs only the first
      step's rules to pass: the travel, passenger, preference and payment
      gates are all skipped, and the Submit button is then offered. */
  lemma TabSkipsGates(w: Wizard, env: Env)
    requires w.step == 0 && StepPasses(0, w.form.draft, env)
    ensures StepClick(w, 5, env).step == 5
    ensures Offered(StepClick(w, 5, env), Submit)
  {
  }
}
