// The booking wizard: one validator per step, the step sequencer (next,
// back, click on a step tab), the passenger-id lookup and the final submit
// with its draft reset.

module Registration {
  import opened JsValues
  import opened Text
  import opened FormDataTypes
  import opened FieldErrors

  /** The six steps: user information, travel details, passenger
      information, ticket preferences, payment details, additional
      information. */
  const StepCount: int := 6

  /** What the wizard cannot compute itself: the current time, and what
      `new Date(text)` makes of the typed expiry date. */
  datatype Env = Env(now: int, parseDate: string -> Moment)

  // ---------------------------------------------------------------- checks

  /** What validating a step found: the messages recorded this time, and
      the flag that any recorded message clears. */
  datatype Check = Check(errors: Errors, valid: bool)

  /** The flag is set exactly when no message was recorded. */
  predicate Consistent(c: Check) {
    c.valid <==> c.errors == map[]
  }

  /** `valid = true; newErrors = {}`. */
  const Passed: Check := Check(map[], true)

  /** One `if (...) { newErrors.k = message; valid = false; }` of the
      source: present messages are written and clear the flag. */
  function Flag(c: Check, k: Field, message: Option<string>): (r: Check)
    ensures Consistent(c) ==> Consistent(r)
    ensures message.None? ==> r == c
    ensures message.Some? ==> r.errors == c.errors[k := message.value] && !r.valid
  {
    match message
    case None => c
    case Some(m) =>
      assert k in c.errors[k := m];
      Check(c.errors[k := m], false)
  }

  // ---------------------------------------------------------------- step 0

  /** `/^\S+@\S+\.\S+$/`: no whitespace anywhere, and an `@` and a later
      `.` with at least one character before, between and after them. */
  predicate GateEmailShape(s: string) {
    NoSpace(s) && exists at, dot :: 0 < at && at + 1 < dot < |s| - 1 && s[at] == '@' && s[dot] == '.'
  }

  /** `!age` for a number that may be undefined: undefined and zero. */
  predicate Falsy(age: Option<int>) {
    age.None? || age.value == 0
  }

  function FullNameRule(name: string): Option<string> {
    if name == "" then Some("Full name is required.") else None
  }

  function EmailRule(email: string): Option<string> {
    if email == "" then Some("Email is required.")
    else if !GateEmailShape(email) then Some("Email format is invalid.")
    else None
  }

  function PasswordRule(password: string): Option<string> {
    if password == "" then Some("Password is required.")
    else if |password| < 6 then Some("Password must be at least 6 characters long.")
    else None
  }

  /** `/^\d{10}$/` after the emptiness check. */
  function PhoneRule(phone: string): Option<string> {
    if phone == "" then Some("Phone number is required.")
    else if !(|phone| == 10 && AllDigits(phone)) then Some("Phone number must be a valid 10-digit number.")
    else None
  }

  function AgeRule(age: Option<int>): Option<string> {
    if Falsy(age) then Some("Age is required.")
    else if age.value <= 0 || age.value >= 100 then Some("Age must be a valid number between 1 and 99.")
    else None
  }

  function GenderRule(gender: string): Option<string> {
    if gender == "" then Some("Gender is required.") else None
  }

  /** The user-information rule for field `k`: the message the step-0 gate
      records for it, if any. */
  function UserRule(d: FormData, k: Field): Option<string> {
    match k
    case FullName => FullNameRule(d.fullName)
    case Email => EmailRule(d.email)
    case Password => PasswordRule(d.password)
    case PhoneNumber => PhoneRule(d.phoneNumber)
    case Age => AgeRule(d.age)
    case Gender => GenderRule(d.gender)
    case _ => None
  }

  // ---------------------------------------------------------------- step 1

  /** The travel-details rule for field `k` at time `now`. */
  function TravelRule(d: FormData, now: int, k: Field): Option<string> {
    match k
    case DepartureCity =>
      if d.departureCity == "" then Some("Departure city is required.") else None
    case DestinationCity =>
      if d.destinationCity == "" then Some("Destination city is required.") else None
    case TravelDate =>
      if d.travelDate.None? then Some("Travel date is required.")
      else if Before(d.travelDate.value, At(now)) then Some("Travel date cannot be in the past.")
      else None
    case TravelTime =>
      if d.travelTime == "" then Some("Travel time is required.") else None
    case _ => None
  }

  // ---------------------------------------------------------------- step 2

  /** "Passenger <i + 1>". */
  function PassengerLabel(i: nat): string {
    "Passenger " + NatToString(i + 1)
  }

  /** `/^[A-Za-z\s]+$/`. */
  predicate LettersAndSpaces(s: string) {
    s != [] && forall i :: 0 <= i < |s| ==> IsLetter(s[i]) || IsSpace(s[i])
  }

  /** At most one message per passenger name, the first that applies:
      blank, a character other than a letter or whitespace, fewer than
      three characters once trimmed. */
  function NameRule(name: string, i: nat): Option<string> {
    if Trim(name) == [] then Some(PassengerLabel(i) + " name is required.")
    else if !LettersAndSpaces(name) then Some(PassengerLabel(i) + " name should contain only alphabets.")
    else if |Trim(name)| < 3 then Some(PassengerLabel(i) + " name must be at least 3 characters long.")
    else None
  }

  /** The first age check: `if (!age)`. */
  function AgeRequiredRule(age: Option<int>, i: nat): Option<string> {
    if Falsy(age) then Some(PassengerLabel(i) + " age required.") else None
  }

  /** The second age check: `if (!age || age <= 0 || age >= 100)`. */
  function AgeRangeRule(age: Option<int>, i: nat): Option<string> {
    if Falsy(age) || age.value <= 0 || age.value >= 100 then
      Some(PassengerLabel(i) + " age must be a valid number between 1 and 99.")
    else None
  }

  /** `A-P`, `R-W`, `Y` and their lower-case forms. */
  predicate PassportLetter(c: char) {
    ('A' <= c <= 'P') || ('R' <= c <= 'W') || c == 'Y'
    || ('a' <= c <= 'p') || ('r' <= c <= 'w') || c == 'y'
  }

  /** `[1-9]`. */
  predicate NonZeroDigit(c: char) {
    '1' <= c <= '9'
  }

  /** `/^[A-PR-WYa-pr-wy][1-9]\d\s?\d{4}[1-9]$/`: a letter, a non-zero
      digit, a digit, an optional whitespace character, four digits and a
      non-zero digit. */
  predicate PassportShape(n: string) {
    (|n| == 8 || |n| == 9) && PassportLetter(n[0]) && NonZeroDigit(n[1]) && IsDigit(n[2])
    && (if |n| == 9 then IsSpace(n[3]) && AllDigits(n[4..8]) && NonZeroDigit(n[8])
        else AllDigits(n[3..7]) && NonZeroDigit(n[7]))
  }

  /** `/^[A-Z]{3}[0-9]{7}$/`. */
  predicate VoterIdShape(n: string) {
    |n| == 10 && IsUpper(n[0]) && IsUpper(n[1]) && IsUpper(n[2]) && AllDigits(n[3..])
  }

  /** `/^\d{12}$/`. */
  predicate AadharShape(n: string) {
    |n| == 12 && AllDigits(n)
  }

  /** The identity-number check, as the source chains it. */
  function IdNumberRule(proof: string, number: string): Option<string> {
    if number == "" then Some("Identity proof number is required.")
    else if proof == "Aadhar" && !AadharShape(number) then Some("Aadhar number must be a 12-digit number.")
    else if proof == "Passport" && !PassportShape(number) then Some("Invalid passport number format.")
    else if proof == "Voter ID" && !VoterIdShape(number) then Some("Invalid Voter ID format.")
    else None
  }

  /** The identity number passes exactly when it is non-empty and fits the
      format of the chosen document type; any other type accepts any
      non-empty number. */
  lemma IdNumberAccepted(proof: string, number: string)
    ensures IdNumberRule(proof, number).None? <==>
      number != ""
      && (proof == "Aadhar" ==> AadharShape(number))
      && (proof == "Passport" ==> PassportShape(number))
      && (proof == "Voter ID" ==> VoterIdShape(number))
  {
  }

  const AcceptedFileTypes: seq<string> := ["image/png", "image/jpg", "image/jpeg", "application/pdf"]

  function FileRule(file: Option<UploadedFile>): Option<string> {
    if file.None? then Some("File is required.")
    else if file.value.mimeType !in AcceptedFileTypes then Some("Only image files (.png, .jpg, .jpeg) or PDFs are allowed.")
    else None
  }

  /** The rule for the name of passenger `i`, none past the list. */
  function NameAt(names: seq<string>, i: int): Option<string> {
    if 0 <= i < |names| then NameRule(names[i], i) else None
  }

  /** The message left for the age of passenger `i`, none past the list:
      the range check alone, because whenever the first age check fires
      the second fires too and overwrites its message. */
  function AgeAt(ages: seq<Option<int>>, i: int): Option<string> {
    if 0 <= i < |ages| then AgeRangeRule(ages[i], i) else None
  }

  /** The passenger-information rule for field `k`. */
  function PassengerRule(d: FormData, k: Field): Option<string> {
    match k
    case PassengerName(i) => NameAt(d.passengerNames, i)
    case PassengerAge(i) => AgeAt(d.passengerAges, i)
    case PassengerNames =>
      if |d.passengerNames| == 0 then Some("At least one passenger name is required.") else None
    case PassengerAges =>
      if |d.passengerAges| == 0 then Some("At least one passenger age is required.") else None
    case IdentityProof =>
      if d.identityProof == "" then Some("Identity proof is required.") else None
    case IdentityProofNumber => IdNumberRule(d.identityProof, d.identityProofNumber)
    case File => FileRule(d.uploadedFile)
    case _ => None
  }

  /** `passengerNames.forEach(...)` from index `i` on. */
  function NameLoop(c: Check, names: seq<string>, i: nat): (r: Check)
    requires i <= |names|
    ensures Consistent(c) ==> Consistent(r)
    decreases |names| - i
  {
    if i == |names| then c
    else NameLoop(Flag(c, PassengerName(i), NameRule(names[i], i)), names, i + 1)
  }

  /** `passengerAges.forEach(...)` from index `i` on: both checks, in the
      source's order, on the same key. */
  function AgeLoop(c: Check, ages: seq<Option<int>>, i: nat): (r: Check)
    requires i <= |ages|
    ensures Consistent(c) ==> Consistent(r)
    decreases |ages| - i
  {
    if i == |ages| then c
    else
      var first := Flag(c, PassengerAge(i), AgeRequiredRule(ages[i], i));
      AgeLoop(Flag(first, PassengerAge(i), AgeRangeRule(ages[i], i)), ages, i + 1)
  }

  /** The name loop from index `i` on leaves, for every passenger from `i`
      on, exactly the name rule's message, and touches no other key. */
  lemma {:induction false} NameLoopMessage(c: Check, names: seq<string>, i: nat, k: Field)
    requires i <= |names|
    ensures MessageOf(NameLoop(c, names, i).errors, k) ==
      (if k.PassengerName? && i <= k.index && NameAt(names, k.index).Some? then NameAt(names, k.index)
       else MessageOf(c.errors, k))
    decreases |names| - i
  {
    if i < |names| {
      var m := NameRule(names[i], i);
      FlagMessage(c, PassengerName(i), m, k);
      NameLoopMessage(Flag(c, PassengerName(i), m), names, i + 1, k);
    }
  }

  /** The age loop from index `i` on leaves, for every passenger from `i`
      on, exactly the range check's message, and touches no other key. */
  lemma {:induction false} AgeLoopMessage(c: Check, ages: seq<Option<int>>, i: nat, k: Field)
    requires i <= |ages|
    ensures MessageOf(AgeLoop(c, ages, i).errors, k) ==
      (if k.PassengerAge? && i <= k.index && AgeAt(ages, k.index).Some? then AgeAt(ages, k.index)
       else MessageOf(c.errors, k))
    decreases |ages| - i
  {
    if i < |ages| {
      var first := Flag(c, PassengerAge(i), AgeRequiredRule(ages[i], i));
      FlagMessage(c, PassengerAge(i), AgeRequiredRule(ages[i], i), k);
      FlagMessage(first, PassengerAge(i), AgeRangeRule(ages[i], i), k);
      AgeLoopMessage(Flag(first, PassengerAge(i), AgeRangeRule(ages[i], i)), ages, i + 1, k);
    }
  }

  // ---------------------------------------------------------------- steps 3 and 4

  /** `!n` for the number whose text `String(n)` is stored: zero and
      `NaN`. */
  predicate FalsyNumberText(t: string) {
    t == "0" || t == "NaN"
  }

  /** The text stored for a typed card number or CVV:
      `String(newValue ? parseInt(newValue) : 0)`. */
  function PaymentNumberText(typed: string): string {
    if typed == "" then "0"
    else match ParseInt(typed)
      case None => "NaN"
      case Some(v) => IntToString(v)
  }

  function PreferencesRule(d: FormData, k: Field): Option<string> {
    if k == SeatType && d.seatType == "" then Some("Seat type is required.") else None
  }

  /** The card-number check on the stored text: `!cardNumber`, then
      `/^\d{16}$/` on `String(cardNumber)`. */
  function CardRule(card: string): Option<string> {
    if FalsyNumberText(card) then Some("Card number is required.")
    else if !(|card| == 16 && AllDigits(card)) then Some("Card number must be a 16-digit number.")
    else None
  }

  function ExpiryRule(expiry: string, env: Env): Option<string> {
    if expiry == "" then Some("Expiry date is required.")
    else if Before(env.parseDate(expiry), At(env.now)) then Some("Expiry date must be in the future.")
    else None
  }

  /** The CVV check on the stored text: `!cvv`, then `/^\d{3}$/`. */
  function CvvRule(cvv: string): Option<string> {
    if FalsyNumberText(cvv) then Some("CVV is required.")
    else if !(|cvv| == 3 && AllDigits(cvv)) then Some("CVV must be a 3-digit number.")
    else None
  }

  function PaymentRule(d: FormData, env: Env, k: Field): Option<string> {
    match k
    case CardNumber => CardRule(d.cardNumber)
    case ExpiryDate => ExpiryRule(d.expiryDate, env)
    case Cvv => CvvRule(d.cvv)
    case _ => None
  }

  // ---------------------------------------------------------------- the gate

  /** The rule of step `step` for field `k`; steps other than 0..4 have
      none. */
  function StepRule(step: int, d: FormData, env: Env, k: Field): Option<string> {
    if step == 0 then UserRule(d, k)
    else if step == 1 then TravelRule(d, env.now, k)
    else if step == 2 then PassengerRule(d, k)
    else if step == 3 then PreferencesRule(d, k)
    else if step == 4 then PaymentRule(d, env, k)
    else None
  }

  /** The keys step `step` checks one by one, in the source's order; the
      per-passenger keys of step 2 come from its two loops instead. */
  function FieldsOf(step: int): seq<Field> {
    if step == 0 then [FullName, Email, Password, PhoneNumber, Age, Gender]
    else if step == 1 then [DepartureCity, DestinationCity, TravelDate, TravelTime]
    else if step == 2 then [PassengerNames, PassengerAges, IdentityProof, IdentityProofNumber, File]
    else if step == 3 then [SeatType]
    else if step == 4 then [CardNumber, ExpiryDate, Cvv]
    else []
  }

  /** Running the checks of `fields` in order. */
  function Apply(c: Check, step: int, d: FormData, env: Env, fields: seq<Field>): (r: Check)
    ensures Consistent(c) ==> Consistent(r)
    decreases |fields|
  {
    if fields == [] then c
    else Apply(Flag(c, fields[0], StepRule(step, d, env, fields[0])), step, d, env, fields[1..])
  }

  /** `validateCurrentStep`'s findings for step `step`, before the merge. */
  function StepCheck(step: int, d: FormData, env: Env): (c: Check)
    ensures Consistent(c)
    ensures !(0 <= step < 5) ==> c == Passed
  {
    if step == 2 then
      var named := NameLoop(Passed, d.passengerNames, 0);
      Apply(AgeLoop(named, d.passengerAges, 0), step, d, env, FieldsOf(step))
    else if 0 <= step < 5 then Apply(Passed, step, d, env, FieldsOf(step))
    else Passed
  }

  /** Writing one present message changes that key alone. */
  lemma FlagMessage(c: Check, k: Field, message: Option<string>, j: Field)
    ensures MessageOf(Flag(c, k, message).errors, j) ==
      (if j == k && message.Some? then message else MessageOf(c.errors, j))
  {
  }

  /** Running a list of checks leaves each listed key with its rule's
      message when the rule fails, and every other key as it was. */
  lemma {:induction false} ApplyMessage(c: Check, step: int, d: FormData, env: Env, fields: seq<Field>, k: Field)
    ensures MessageOf(Apply(c, step, d, env, fields).errors, k) ==
      (if k in fields && StepRule(step, d, env, k).Some? then StepRule(step, d, env, k)
       else MessageOf(c.errors, k))
    decreases |fields|
  {
    if fields != [] {
      var m := StepRule(step, d, env, fields[0]);
      FlagMessage(c, fields[0], m, k);
      ApplyMessage(Flag(c, fields[0], m), step, d, env, fields[1..], k);
      assert k in fields <==> k == fields[0] || k in fields[1..];
    }
  }

  /** A rule fails only for a key its step checks. */
  lemma RuleOnlyForChecked(step: int, d: FormData, env: Env, k: Field)
    requires !k.PassengerName? && !k.PassengerAge? && k !in FieldsOf(step)
    ensures StepRule(step, d, env, k).None?
  {
    if step == 0 {
      assert StepRule(step, d, env, k) == UserRule(d, k);
    } else if step == 1 {
      assert StepRule(step, d, env, k) == TravelRule(d, env.now, k);
    } else if step == 2 {
      assert StepRule(step, d, env, k) == PassengerRule(d, k);
    } else if step == 4 {
      assert StepRule(step, d, env, k) == PaymentRule(d, env, k);
    }
  }

  /** Step 2 records, for every key, exactly the passenger rule's message. */
  lemma PassengerCheckMessage(d: FormData, env: Env, k: Field)
    ensures MessageOf(StepCheck(2, d, env).errors, k) == StepRule(2, d, env, k)
  {
    var named := NameLoop(Passed, d.passengerNames, 0);
    var aged := AgeLoop(named, d.passengerAges, 0);
    assert StepCheck(2, d, env) == Apply(aged, 2, d, env, FieldsOf(2));
    ApplyMessage(aged, 2, d, env, FieldsOf(2), k);
    AgeLoopMessage(named, d.passengerAges, 0, k);
    NameLoopMessage(Passed, d.passengerNames, 0, k);
    PassengerKeys(d, env, k);
  }

  /** Where each key's step-2 message comes from: the name loop, the age
      loop, or the list of single checks. */
  lemma PassengerKeys(d: FormData, env: Env, k: Field)
    ensures k.PassengerName? ==> k !in FieldsOf(2) && StepRule(2, d, env, k) == NameAt(d.passengerNames, k.index)
    ensures k.PassengerAge? ==> k !in FieldsOf(2) && StepRule(2, d, env, k) == AgeAt(d.passengerAges, k.index)
    ensures !k.PassengerName? && !k.PassengerAge? && k !in FieldsOf(2) ==> StepRule(2, d, env, k).None?
  {
  }

  /** Steps 0, 1, 3 and 4 record, for every key, exactly their rule's
      message. */
  lemma FieldCheckMessage(step: int, d: FormData, env: Env, k: Field)
    requires 0 <= step < 5 && step != 2
    ensures MessageOf(StepCheck(step, d, env).errors, k) == StepRule(step, d, env, k)
  {
    ApplyMessage(Passed, step, d, env, FieldsOf(step), k);
    if k !in FieldsOf(step) {
      if k.PassengerName? || k.PassengerAge? {
        assert StepRule(step, d, env, k).None?;
      } else {
        RuleOnlyForChecked(step, d, env, k);
      }
    }
  }

  /** The step records, for every key, exactly the message of the step's
      rule for it: nothing for a passing or unchecked field, the last
      applicable message for a failing one. */
  lemma StepCheckMessage(step: int, d: FormData, env: Env, k: Field)
    ensures MessageOf(StepCheck(step, d, env).errors, k) == StepRule(step, d, env, k)
  {
    if step == 2 {
      PassengerCheckMessage(d, env, k);
    } else if 0 <= step < 5 {
      FieldCheckMessage(step, d, env, k);
    }
  }

  lemma StepCheckRecords(step: int, d: FormData, env: Env)
    ensures forall k :: MessageOf(StepCheck(step, d, env).errors, k) == StepRule(step, d, env, k)
  {
    forall k ensures MessageOf(StepCheck(step, d, env).errors, k) == StepRule(step, d, env, k) {
      StepCheckMessage(step, d, env, k);
    }
  }

  /** `validateCurrentStep` returns true exactly when every rule of the
      step passes. */
  lemma StepValid(step: int, d: FormData, env: Env)
    ensures StepCheck(step, d, env).valid <==> forall k :: StepRule(step, d, env, k).None?
  {
    var c := StepCheck(step, d, env);
    StepCheckRecords(step, d, env);
    if !c.valid {
      assert c.errors != map[];
      var k :| k in c.errors;
      assert MessageOf(c.errors, k).Some?;
    }
  }

  /** The first age check's message never survives: a falsy age always
      ends with the range message, which overwrites it. */
  lemma AgeRequiredOverwritten(d: FormData, env: Env, i: nat)
    ensures MessageOf(StepCheck(2, d, env).errors, PassengerAge(i)) != Some(PassengerLabel(i) + " age required.")
    ensures i < |d.passengerAges| && Falsy(d.passengerAges[i]) ==>
      MessageOf(StepCheck(2, d, env).errors, PassengerAge(i)) == AgeRangeRule(d.passengerAges[i], i)
      && AgeRangeRule(d.passengerAges[i], i).Some?
  {
    StepCheckMessage(2, d, env, PassengerAge(i));
    var required := PassengerLabel(i) + " age required.";
    var range := PassengerLabel(i) + " age must be a valid number between 1 and 99.";
    assert |required| < |range|;
  }

  // ---------------------------------------------------------------- sequencer

  /** A notice dialog: its text and whether it reports an error. */
  datatype Notice = Notice(message: string, isError: bool)

  /** The wizard: the draft with its error map, the current step, and the
      notice on show, if any. */
  datatype Wizard = Wizard(form: Form, step: int, notice: Option<Notice>)

  /** Every rule of step `step` passes on the draft. */
  ghost predicate StepPasses(step: int, d: FormData, env: Env) {
    forall k :: StepRule(step, d, env, k).None?
  }

  /** `validateCurrentStep`'s effect on the wizard: every field the current
      step finds wrong gets its message, every other message stays as it
      was. */
  function Validated(w: Wizard, env: Env): (r: Wizard)
    ensures r.form.draft == w.form.draft && r.step == w.step && r.notice == w.notice
    ensures forall k :: (MessageOf(r.form.errors, k) ==
      if StepRule(w.step, w.form.draft, env, k).Some? then StepRule(w.step, w.form.draft, env, k)
      else MessageOf(w.form.errors, k))
  {
    StepCheckRecords(w.step, w.form.draft, env);
    var c := StepCheck(w.step, w.form.draft, env);
    w.(form := w.form.(errors := Merge(w.form.errors, c.errors)))
  }

  /** `nextStep`: advances by exactly one when the current step's rules all
      pass, stays otherwise; either way the findings are merged in. */
  function NextStep(w: Wizard, env: Env): (r: Wizard)
    ensures r.step == w.step + 1 <==> StepPasses(w.step, w.form.draft, env)
    ensures r.step == w.step || r.step == w.step + 1
    ensures r.form == Validated(w, env).form && r.notice == w.notice
  {
    StepValid(w.step, w.form.draft, env);
    var v := Validated(w, env);
    if StepCheck(w.step, w.form.draft, env).valid then v.(step := w.step + 1) else v
  }

  /** `previousStep`: back by exactly one, nothing validated. */
  function PreviousStep(w: Wizard): (r: Wizard)
    ensures r.step == w.step - 1
    ensures r.form == w.form && r.notice == w.notice
  {
    w.(step := w.step - 1)
  }

  const StepOutOfRange: Notice := Notice("Please fill in all required fields before proceeding.", true)

  /** `handleStepClick`: a target outside the six steps only raises the
      error notice; a target at or before the current step is entered
      without validating anything; a later target validates the current
      step only and, when it passes, jumps straight there, skipping the
      gates of the steps in between. */
  function StepClick(w: Wizard, target: int, env: Env): (r: Wizard)
    ensures !(0 <= target < StepCount) ==> r == w.(notice := Some(StepOutOfRange))
    ensures 0 <= target < StepCount && target <= w.step ==> r == w.(step := target)
    ensures 0 <= target < StepCount && w.step < target ==>
      r.form == Validated(w, env).form && r.notice == w.notice
      && (r.step == target <==> StepPasses(w.step, w.form.draft, env))
      && (r.step == target || r.step == w.step)
  {
    if 0 <= target < StepCount then
      if target > w.step then
        StepValid(w.step, w.form.draft, env);
        var v := Validated(w, env);
        if !StepCheck(w.step, w.form.draft, env).valid then v else v.(step := target)
      else w.(step := target)
    else w.(notice := Some(StepOutOfRange))
  }

  /** What the wizard offers: Back from step 1 on, Next before the last
      step, Submit on the last step, and one tab per step. */
  datatype Control = Back | Next | Submit | Tab(index: int)

  predicate Offered(w: Wizard, control: Control) {
    match control
    case Back => w.step > 0
    case Next => w.step < StepCount - 1
    case Submit => w.step >= StepCount - 1
    case Tab(i) => 0 <= i < StepCount
  }

  /** Pressing a control; Submit only opens the confirmation dialog. */
  function Press(w: Wizard, control: Control, env: Env): Wizard {
    match control
    case Back => PreviousStep(w)
    case Next => NextStep(w, env)
    case Submit => w
    case Tab(i) => StepClick(w, i, env)
  }

  /** Through the controls on offer the step never leaves 0..5, and the
      out-of-range notice is never raised. */
  lemma StepStaysInRange(w: Wizard, control: Control, env: Env)
    requires 0 <= w.step < StepCount && Offered(w, control)
    ensures 0 <= Press(w, control, env).step < StepCount
    ensures Press(w, control, env).notice == w.notice
  {
  }

  // ---------------------------------------------------------------- submit

  /** How many names are non-empty. */
  function NonEmptyCount(names: seq<string>): nat {
    if names == [] then 0 else (if names[0] != "" then 1 else 0) + NonEmptyCount(names[1..])
  }

  /** `getUserIds`: the non-empty names are looked up one after the other,
      in order; a lookup that fails or yields no (or a zero) id is skipped.
      `lookup` stands for `ensureUser`. Also returned, for the contract: the
      index of the name each id came from. */
  method GetUserIds(names: seq<string>, lookup: string -> Option<int>) returns (ids: seq<int>, from: seq<nat>)
    ensures |ids| == |from| <= NonEmptyCount(names)
    ensures forall k :: 0 <= k < |from| ==> from[k] < |names|
    ensures forall k, l :: 0 <= k < l < |from| ==> from[k] < from[l]
    ensures forall k :: 0 <= k < |from| ==>
      names[from[k]] != "" && lookup(names[from[k]]) == Some(ids[k]) && ids[k] != 0
    ensures forall j :: 0 <= j < |names| && names[j] != "" && lookup(names[j]).Some? && lookup(names[j]).value != 0 ==>
      j in from
  {
    ids, from := [], [];
    var i := 0;
    while i < |names|
      invariant 0 <= i <= |names|
      invariant |ids| == |from| <= NonEmptyCount(names[..i])
      invariant forall k :: 0 <= k < |from| ==> from[k] < i
      invariant forall k, l :: 0 <= k < l < |from| ==> from[k] < from[l]
      invariant forall k :: 0 <= k < |from| ==>
        names[from[k]] != "" && lookup(names[from[k]]) == Some(ids[k]) && ids[k] != 0
      invariant forall j :: 0 <= j < i && names[j] != "" && lookup(names[j]).Some? && lookup(names[j]).value != 0 ==>
        j in from
    {
      CountStep(names, i);
      var name := names[i];
      if name != "" {
        var user := lookup(name);
        if user.Some? && user.value != 0 {
          ids := ids + [user.value];
          from := from + [i];
        }
      }
      i := i + 1;
    }
    assert names[..|names|] == names;
  }

  /** Counting one more name. */
  lemma CountStep(names: seq<string>, i: nat)
    requires i < |names|
    ensures NonEmptyCount(names[..i + 1]) == NonEmptyCount(names[..i]) + (if names[i] != "" then 1 else 0)
  {
    CountAppend(names[..i], [names[i]]);
    assert names[..i + 1] == names[..i] + [names[i]];
  }

  lemma {:induction false} CountAppend(a: seq<string>, b: seq<string>)
    ensures NonEmptyCount(a + b) == NonEmptyCount(a) + NonEmptyCount(b)
  {
    if a != [] {
      assert (a + b)[1..] == a[1..] + b;
      CountAppend(a[1..], b);
    } else {
      assert a + b == b;
    }
  }

  /** One passenger age as `Array.prototype.join` writes it: undefined as
      the empty text, a number as `String(n)`. */
  function AgeText(age: Option<int>): string {
    match age
    case None => ""
    case Some(v) => IntToString(v)
  }

  function AgeTexts(ages: seq<Option<int>>): (r: seq<string>)
    ensures |r| == |ages|
    ensures forall k :: 0 <= k < |ages| ==> r[k] == AgeText(ages[k])
  {
    if ages == [] then [] else [AgeText(ages[0])] + AgeTexts(ages[1..])
  }

  /** `passengerAges.join("\n")`, the stored form of the ages. */
  function AgesText(ages: seq<Option<int>>): string {
    Join(AgeTexts(ages), '\n')
  }

  /** How the file upload went: the stored file's URL, or a failure. */
  datatype UploadOutcome = Uploaded(url: string) | UploadFailed

  /** The text the upload helper returns, after raising its own error
      notice, when the upload fails. */
  const UploadFailedText: string := "File upload faild"

  /** The list item `handleSubmit` sends. Dates are kept as moments; their
      ISO text is not modelled. */
  datatype BookingItem = BookingItem(
    title: string, email: string, phone: string, password: string, genderType: string,
    userAge: Option<int>, departureCity: string, destinationCity: string,
    travelDate: Option<Moment>, returnDate: Option<Moment>, travelTime: string,
    numberOfPassengers: int, passengerIds: seq<int>, passengerAges: string,
    identityProof: string, identityProofNumber: string, seatTypes: string,
    windowPreference: bool, food: string, insurance: bool,
    cardNumber: string, expiryDate: string, cvv: string, additionalInfo: string,
    documentFile: Option<string>)

  function ItemOf(d: FormData, ids: seq<int>, fileUrl: string): BookingItem {
    BookingItem(
      d.fullName, d.email, d.phoneNumber, d.password, d.gender,
      d.age, d.departureCity, d.destinationCity,
      d.travelDate, d.returnDate, d.travelTime,
      d.numberOfPassengers, ids, AgesText(d.passengerAges),
      d.identityProof, d.identityProofNumber, d.seatType,
      d.windowSeatPreference, d.foodPreference, d.insuranceOption,
      d.cardNumber, d.expiryDate, d.cvv, d.additionalInfo,
      if fileUrl != "" then Some(fileUrl) else None)
  }

  const SubmittedNotice: Notice := Notice("Form Submitted Successfully!", false)

  /** `handleSubmit`. The upload (when a file is attached), the id lookup
      and the save are outcomes passed in. A failed upload does not stop
      the submission: the item is still sent, carrying the failure text as
      its document link. A successful save resets the draft to the initial
      one and returns to step 0; a failed one leaves draft and step alone.
      Whatever happened, the notice left on show is the success notice of
      `confirmSubmit`. */
  method HandleSubmit(w: Wizard, upload: UploadOutcome, lookup: string -> Option<int>, saved: bool)
    returns (r: Wizard, item: BookingItem)
    ensures saved ==> r.form.draft == InitialFormData() && r.step == 0
    ensures !saved ==> r.form.draft == w.form.draft && r.step == w.step
    ensures r.form.errors == w.form.errors
    ensures r.notice == Some(SubmittedNotice)
    ensures item.passengerAges == AgesText(w.form.draft.passengerAges)
    ensures |item.passengerIds| <= NonEmptyCount(w.form.draft.passengerNames)
    ensures w.form.draft.uploadedFile.None? ==> item.documentFile.None?
    ensures w.form.draft.uploadedFile.Some? && upload.UploadFailed? ==> item.documentFile == Some(UploadFailedText)
    ensures w.form.draft.uploadedFile.Some? && upload.Uploaded? && upload.url != "" ==> item.documentFile == Some(upload.url)
  {
    var fileUrl := "";
    r := w;
    if w.form.draft.uploadedFile.Some? {
      match upload
      case Uploaded(url) =>
        fileUrl := url;
      case UploadFailed =>
        r := r.(notice := Some(Notice("File upload failed. Please try again.", true)));
        fileUrl := UploadFailedText;
    }
    var ids, _ := GetUserIds(w.form.draft.passengerNames, lookup);
    item := ItemOf(w.form.draft, ids, fileUrl);
    if saved {
      r := r.(notice := Some(Notice("Booking successful!", false)));
      r := r.(form := r.form.(draft := InitialFormData()), step := 0);
    } else {
      r := r.(notice := Some(Notice("An error occurred while saving data.", true)));
    }
    r := r.(notice := Some(SubmittedNotice));
  }
}
