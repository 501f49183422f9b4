// Step 1 of the booking wizard: the live validators and normalisers that
// run on every keystroke of the user-information fields.

module UserInfo {
  import opened JsValues
  import opened Text
  import opened FormDataTypes
  import opened FieldErrors

  // ---------------------------------------------------------------- formatName

  /** One word of `formatName`: the first character upper-cased and the rest
      lower-cased; the empty word stays empty. */
  function FormatWord(w: string): (r: string)
    ensures |r| == |w|
  {
    if |w| > 0 then [UpperChar(w[0])] + LowerCase(w[1..]) else w
  }

  /** `words.map(formatWord)`. */
  function FormatWords(words: seq<string>): (r: seq<string>)
    ensures |r| == |words|
    ensures forall k :: 0 <= k < |words| ==> r[k] == FormatWord(words[k])
  {
    if words == [] then [] else [FormatWord(words[0])] + FormatWords(words[1..])
  }

  /** `formatName`: split at single spaces, format every word, join the
      words back with single spaces. */
  function FormatName(value: string): string {
    Join(FormatWords(Split(value, ' ')), ' ')
  }

  /** Reference reading of `formatName`, one character at a time: the
      character at a word start (the first one when `atWordStart`, or any
      one right after a space) is upper-cased, every other one is
      lower-cased. */
  function CaseByPosition(s: string, atWordStart: bool): (r: string)
    ensures |r| == |s|
  {
    if s == [] then []
    else [if atWordStart then UpperChar(s[0]) else LowerChar(s[0])] + CaseByPosition(s[1..], s[0] == ' ')
  }

  /** Each character of the reference reading, by position. */
  lemma {:induction false} CaseByPositionAt(s: string, atWordStart: bool)
    ensures forall i :: 0 <= i < |s| ==>
      CaseByPosition(s, atWordStart)[i]
        == (if (i == 0 && atWordStart) || (i > 0 && s[i - 1] == ' ') then UpperChar(s[i]) else LowerChar(s[i]))
  {
    if s != [] {
      CaseByPositionAt(s[1..], s[0] == ' ');
      var rest := CaseByPosition(s[1..], s[0] == ' ');
      assert CaseByPosition(s, atWordStart)[1..] == rest;
      assert forall i :: 1 <= i < |s| ==> s[1..][i - 1] == s[i];
    }
  }

  /** What follows the first formatted word: a space and the remaining
      formatted words, or nothing. */
  function AfterFirstWord(parts: seq<string>): string
    requires |parts| >= 1
  {
    if |parts| > 1 then [' '] + Join(FormatWords(parts[1..]), ' ') else []
  }

  /** The per-character reading agrees with split/map/join on `s`, both at
      a word start and in the middle of a word. */
  predicate ReadingsAgree(s: string) {
    CaseByPosition(s, true) == FormatWord(Split(s, ' ')[0]) + AfterFirstWord(Split(s, ' '))
    && CaseByPosition(s, false) == LowerCase(Split(s, ' ')[0]) + AfterFirstWord(Split(s, ' '))
  }

  /** The readings agree on every text. */
  lemma {:induction false} CaseByPositionSplit(s: string)
    ensures ReadingsAgree(s)
  {
    if s != [] {
      CaseByPositionSplit(s[1..]);
      if s[0] == ' ' {
        SpaceStep(s);
      } else {
        LetterStep(s);
      }
    }
  }

  /** A leading space starts a new, empty first word. */
  lemma SpaceStep(s: string)
    requires s != [] && s[0] == ' ' && ReadingsAgree(s[1..])
    ensures ReadingsAgree(s)
  {
    var q := Split(s[1..], ' ');
    var p := Split(s, ' ');
    var rest := [' '] + CaseByPosition(s[1..], true);
    assert p == [[]] + q;
    assert AfterFirstWord(p) == rest by {
      assert p[1..] == q;
      JoinFormatted(q);
    }
    assert FormatWord(p[0]) + AfterFirstWord(p) == rest;
    assert LowerCase(p[0]) + AfterFirstWord(p) == rest;
    assert CaseByPosition(s, true) == rest;
    assert CaseByPosition(s, false) == rest;
  }

  /** Joining formatted words is the first formatted word followed by
      the rest. */
  lemma JoinFormatted(q: seq<string>)
    requires |q| >= 1
    ensures Join(FormatWords(q), ' ') == FormatWord(q[0]) + AfterFirstWord(q)
  {
    if |q| == 1 {
      assert FormatWords(q) == [FormatWord(q[0])];
      assert FormatWord(q[0]) + [] == FormatWord(q[0]);
    } else {
      JoinFormattedLonger(q);
    }
  }

  lemma JoinFormattedLonger(q: seq<string>)
    requires |q| >= 2
    ensures Join(FormatWords(q), ' ') == FormatWord(q[0]) + AfterFirstWord(q)
  {
    var rest := FormatWords(q[1..]);
    assert FormatWords(q) == [FormatWord(q[0])] + rest;
    JoinCons(FormatWord(q[0]), rest, ' ');
  }

  /** Any other leading character joins the first word. */
  lemma LetterStep(s: string)
    requires s != [] && s[0] != ' ' && ReadingsAgree(s[1..])
    ensures ReadingsAgree(s)
  {
    var q := Split(s[1..], ' ');
    var after := AfterFirstWord(q);
    LetterSplit(s);
    WordCons(s[0], q[0]);
    LetterStepStart(s, q[0], after);
    LetterStepInside(s, q[0], after);
  }

  /** Split of a text starting with a non-space: the first character
      joins the first piece of the rest, and the later pieces stay. */
  lemma LetterSplit(s: string)
    requires s != [] && s[0] != ' '
    ensures Split(s, ' ')[0] == [s[0]] + Split(s[1..], ' ')[0]
    ensures AfterFirstWord(Split(s, ' ')) == AfterFirstWord(Split(s[1..], ' '))
  {
    var q := Split(s[1..], ' ');
    var p := Split(s, ' ');
    assert p == [[s[0]] + q[0]] + q[1..];
    assert p[1..] == q[1..];
  }

  /** Formatting and lower-casing a word, by its first character. */
  lemma WordCons(c: char, rest: string)
    ensures FormatWord([c] + rest) == [UpperChar(c)] + LowerCase(rest)
    ensures LowerCase([c] + rest) == [LowerChar(c)] + LowerCase(rest)
  {
    var w := [c] + rest;
    assert w[0] == c && w[1..] == rest;
    LowerCons(c, rest);
  }

  lemma LowerCons(c: char, rest: string)
    ensures LowerCase([c] + rest) == [LowerChar(c)] + LowerCase(rest)
  {
    var l := LowerCase([c] + rest);
    var r := [LowerChar(c)] + LowerCase(rest);
    assert |l| == |r|;
    forall i | 0 <= i < |l| ensures l[i] == r[i] {
      if i > 0 {
        assert ([c] + rest)[i] == rest[i - 1];
      }
    }
  }

  lemma LetterStepStart(s: string, first: string, after: string)
    requires s != [] && s[0] != ' '
    requires CaseByPosition(s[1..], false) == LowerCase(first) + after
    ensures CaseByPosition(s, true) == [UpperChar(s[0])] + LowerCase(first) + after
  {
    assert CaseByPosition(s, true) == [UpperChar(s[0])] + CaseByPosition(s[1..], false);
  }

  lemma LetterStepInside(s: string, first: string, after: string)
    requires s != [] && s[0] != ' '
    requires CaseByPosition(s[1..], false) == LowerCase(first) + after
    ensures CaseByPosition(s, false) == [LowerChar(s[0])] + LowerCase(first) + after
  {
    assert CaseByPosition(s, false) == [LowerChar(s[0])] + CaseByPosition(s[1..], false);
  }

  /** `formatName` keeps the length and changes each character only in
      case: a character at a word start (the first one, or one right after
      a space) is upper-cased, every other one lower-cased. So spaces stay
      where they were. */
  lemma FormatNameByPosition(s: string)
    ensures |FormatName(s)| == |s|
    ensures forall i :: 0 <= i < |s| ==>
      FormatName(s)[i] == (if i == 0 || s[i - 1] == ' ' then UpperChar(s[i]) else LowerChar(s[i]))
  {
    CaseByPositionSplit(s);
    CaseByPositionAt(s, true);
    var p := Split(s, ' ');
    var fp := FormatWords(p);
    assert fp[1..] == FormatWords(p[1..]);
    assert Join(fp, ' ') == FormatWord(p[0]) + AfterFirstWord(p);
  }

  /** Formatting an already formatted name changes nothing. */
  lemma FormatNameIdempotent(s: string)
    ensures FormatName(FormatName(s)) == FormatName(s)
  {
    var r := FormatName(s);
    FormatNameByPosition(s);
    FormatNameByPosition(r);
    forall i | 0 <= i < |r|
      ensures FormatName(r)[i] == r[i]
    {
      CaseMapping(s[i]);
      if i > 0 {
        CaseMapping(s[i - 1]);
        assert r[i - 1] == (if i - 1 == 0 || s[i - 2] == ' ' then UpperChar(s[i - 1]) else LowerChar(s[i - 1]));
      }
    }
  }

  /** Formatting changes letters only, so it neither creates nor removes
      whitespace: a formatted name is blank exactly when the input is. */
  lemma FormatNameBlank(s: string)
    ensures IsBlank(FormatName(s)) <==> IsBlank(s)
  {
    FormatNameByPosition(s);
    var r := FormatName(s);
    forall i | 0 <= i < |s|
      ensures IsSpace(r[i]) <==> IsSpace(s[i])
    {
      CaseMapping(s[i]);
      assert r[i] == (if i == 0 || s[i - 1] == ' ' then UpperChar(s[i]) else LowerChar(s[i]));
    }
  }

  /** The facts about a formatted name the full-name handler relies on. */
  lemma FormattedName(s: string)
    ensures |FormatName(s)| == |s|
    ensures FormatName(FormatName(s)) == FormatName(s)
    ensures IsBlank(FormatName(s)) <==> IsBlank(s)
  {
    FormatNameByPosition(s);
    FormatNameIdempotent(s);
    FormatNameBlank(s);
  }

  // ---------------------------------------------------------------- validators

  /** `validateFullName`: empty text and whitespace-only text each have
      their own message; anything else is accepted. */
  function ValidateFullName(value: string): (r: string)
    ensures r == "" <==> !IsBlank(value)
    ensures value == [] ==> r == "Please enter your full name."
    ensures value != [] && IsBlank(value) ==> r == "Name should not be empty or consist only of spaces."
  {
    TrimEmptyIffBlank(value);
    if value == [] then "Please enter your full name."
    else if Trim(value) == [] then "Name should not be empty or consist only of spaces."
    else ""
  }

  /** `[^\s@]`: a character allowed in each part of an address. */
  predicate AddressChar(c: char) {
    !IsSpace(c) && c != '@'
  }

  /** `[^\s@]+`. */
  predicate AddressPart(w: string) {
    w != [] && forall i :: 0 <= i < |w| ==> AddressChar(w[i])
  }

  /** `/^[^\s@]+@[^\s@]+\.[^\s@]+$/`: a local part, `@`, then a domain
      with a dot that has an address character on each side. */
  predicate LiveEmailShape(s: string) {
    exists at, dot :: 0 <= at < dot < |s| && s[at] == '@' && s[dot] == '.'
      && AddressPart(s[..at]) && AddressPart(s[at + 1..dot]) && AddressPart(s[dot + 1..])
  }

  /** `validateEmail`: blank text is missing; otherwise the trimmed,
      lower-cased text must have the address shape. */
  function ValidateEmail(value: string): (r: string)
    ensures r == "" <==> LiveEmailShape(LowerCase(Trim(value)))
    ensures r == "Please enter your email." <==> IsBlank(value)
    ensures r == "Please enter a valid email address" <==>
      !IsBlank(value) && !LiveEmailShape(LowerCase(Trim(value)))
  {
    TrimEmptyIffBlank(value);
    var t := Trim(value);
    if t == [] then "Please enter your email."
    else if !LiveEmailShape(LowerCase(t)) then "Please enter a valid email address"
    else ""
  }

  /** `validatePhoneNumber`: blank text is missing; otherwise exactly ten
      digits are needed, and the first may not be `0`. */
  function ValidatePhoneNumber(value: string): (r: string)
    ensures r == "" <==> |value| == 10 && AllDigits(value) && value[0] != '0'
    ensures r == "Phone number is required" <==> IsBlank(value)
    ensures r == "Phone number must be exactly 10 digits" <==>
      !IsBlank(value) && !(|value| == 10 && AllDigits(value))
    ensures r == "Phone number should not start with 0." <==>
      |value| == 10 && AllDigits(value) && value[0] == '0'
  {
    TrimEmptyIffBlank(value);
    DigitsTrimmed(value);
    var t := Trim(value);
    if t == [] then "Phone number is required"
    else if !(|value| == 10 && AllDigits(value)) then "Phone number must be exactly 10 digits"
    else if t[0] == '0' then "Phone number should not start with 0."
    else ""
  }

  /** Trimming a non-empty digit string changes nothing. */
  lemma DigitsTrimmed(value: string)
    ensures value != [] && AllDigits(value) ==> Trim(value) == value
  {
    if value != [] && AllDigits(value) {
      assert NoSpace(value);
      TrimNoSpace(value);
    }
  }

  /** `validateAge`: blank text is missing; otherwise `Number(value)` must
      lie in (0, 100] -- 100 itself is accepted. */
  function ValidateAge(value: string): (r: string)
    ensures r == "" <==> NumberOf(value).Some? && 0 < NumberOf(value).value <= 100
    ensures r == "Age is required" <==> IsBlank(value)
    ensures r == "Please enter a valid age." <==>
      !IsBlank(value) && !(NumberOf(value).Some? && 0 < NumberOf(value).value <= 100)
  {
    TrimEmptyIffBlank(value);
    var ageNum := NumberOf(value);
    if Trim(value) == [] then "Age is required"
    else if ageNum.None? || ageNum.value <= 0 || ageNum.value > 100 then "Please enter a valid age."
    else ""
  }

  /** `[!@#$%^&*]`. */
  predicate IsSpecial(c: char) {
    c == '!' || c == '@' || c == '#' || c == '$' || c == '%' || c == '^' || c == '&' || c == '*'
  }

  predicate HasLower(s: string) { exists i :: 0 <= i < |s| && IsLower(s[i]) }
  predicate HasUpper(s: string) { exists i :: 0 <= i < |s| && IsUpper(s[i]) }
  predicate HasDigit(s: string) { exists i :: 0 <= i < |s| && IsDigit(s[i]) }
  predicate HasSpecial(s: string) { exists i :: 0 <= i < |s| && IsSpecial(s[i]) }

  /** The live password rule: 8 to 16 characters with a lower-case letter,
      an upper-case letter, a digit and a special character. */
  predicate StrongPassword(t: string) {
    8 <= |t| <= 16 && HasLower(t) && HasUpper(t) && HasDigit(t) && HasSpecial(t)
  }

  /** The five rules of the live password check, in the source's order. */
  datatype Fault = BadLength | NoLower | NoUpper | NoDigit | NoSpecial

  /** Position of a rule in the source's order. */
  function Rank(f: Fault): nat {
    match f
    case BadLength => 0
    case NoLower => 1
    case NoUpper => 2
    case NoDigit => 3
    case NoSpecial => 4
  }

  /** The messages share their opening words. */
  const MustText: string := "Password must "
  const AtLeastOne: string := "contain at least one "

  const LengthMessage: string := MustText + "be 8-16 " + "characters long."
  const LowerMessage: string := MustText + AtLeastOne + "lowercase letter."
  const UpperMessage: string := MustText + AtLeastOne + "uppercase letter."
  const DigitMessage: string := MustText + AtLeastOne + "digit."
  const SpecialMessage: string := MustText + AtLeastOne + "special character."

  function Message(f: Fault): string {
    match f
    case BadLength => LengthMessage
    case NoLower => LowerMessage
    case NoUpper => UpperMessage
    case NoDigit => DigitMessage
    case NoSpecial => SpecialMessage
  }

  /** The rules stand in strictly increasing source order: each at most
      once, none out of order. */
  predicate RankOrdered(fs: seq<Fault>) {
    forall i, j :: 0 <= i < j < |fs| ==> Rank(fs[i]) < Rank(fs[j])
  }

  /** The rule at a position of the source's order. */
  function FaultAt(k: nat): (f: Fault)
    requires k < 5
    ensures Rank(f) == k
  {
    [BadLength, NoLower, NoUpper, NoDigit, NoSpecial][k]
  }

  /** Text `t` breaks rule `f`. */
  predicate Broken(f: Fault, t: string) {
    match f
    case BadLength => !(8 <= |t| <= 16)
    case NoLower => !HasLower(t)
    case NoUpper => !HasUpper(t)
    case NoDigit => !HasDigit(t)
    case NoSpecial => !HasSpecial(t)
  }

  /** The rules from position `k` on that `t` breaks, in order. */
  function FaultsFrom(t: string, k: nat): (fs: seq<Fault>)
    requires k <= 5
    ensures forall f :: f in fs <==> k <= Rank(f) && Broken(f, t)
    ensures RankOrdered(fs)
    decreases 5 - k
  {
    if k == 5 then []
    else
      var rest := FaultsFrom(t, k + 1);
      var f := FaultAt(k);
      if Broken(f, t) then [f] + rest else rest
  }

  /** The rules `t` breaks, in the source's order: length, lower case,
      upper case, digit, special character. */
  function Faults(t: string): (fs: seq<Fault>)
    ensures forall f :: f in fs <==> Broken(f, t)
    ensures RankOrdered(fs)
    ensures fs == [] <==> StrongPassword(t)
  {
    StrongIffUnbroken(t);
    FaultsFrom(t, 0)
  }

  /** A password is strong exactly when it breaks none of the rules. */
  lemma StrongIffUnbroken(t: string)
    ensures StrongPassword(t) <==> forall f :: !Broken(f, t)
  {
    if !StrongPassword(t) {
      if !(8 <= |t| <= 16) {
        assert Broken(BadLength, t);
      } else if !HasLower(t) {
        assert Broken(NoLower, t);
      } else if !HasUpper(t) {
        assert Broken(NoUpper, t);
      } else if !HasDigit(t) {
        assert Broken(NoDigit, t);
      } else {
        assert Broken(NoSpecial, t);
      }
    }
  }

  /** The messages of a list of rules. */
  function Messages(fs: seq<Fault>): (r: seq<string>)
    ensures |r| == |fs|
    ensures forall i :: 0 <= i < |fs| ==> r[i] == Message(fs[i])
  {
    if fs == [] then [] else [Message(fs[0])] + Messages(fs[1..])
  }

  /** No message is empty or holds a line break. */
  lemma MessageOneLine(f: Fault)
    ensures Message(f) != [] && !Contains(Message(f), '\n')
  {
    MessageHeadsOneLine();
    MessageTailsOneLine();
    var m := Message(f);
    assert '\n' !in m;
    assert m[0] == 'P';
  }

  /** No piece of a message holds a line break. */
  lemma MessageHeadsOneLine()
    ensures '\n' !in MustText && '\n' !in AtLeastOne
    ensures '\n' !in "be 8-16 " && '\n' !in "characters long."
  {
  }

  lemma MessageTailsOneLine()
    ensures '\n' !in "lowercase letter." && '\n' !in "uppercase letter."
    ensures '\n' !in "digit." && '\n' !in "special character."
  {
  }

  /** `validatePassword`: the messages of every rule the trimmed text
      breaks, one per line; empty exactly when the password is strong.
      Read back line by line, a non-empty result gives exactly those
      messages, in the source's order. */
  function ValidatePassword(value: string): (r: string)
    ensures r == "" <==> StrongPassword(Trim(value))
    ensures r != "" ==> Split(r, '\n') == Messages(Faults(Trim(value)))
  {
    var issues := Messages(Faults(Trim(value)));
    if issues == [] then "" else
      forall i | 0 <= i < |issues| ensures !Contains(issues[i], '\n') {
        MessageOneLine(Faults(Trim(value))[i]);
      }
      MessageOneLine(Faults(Trim(value))[0]);
      JoinNonEmpty(issues, '\n');
      SplitJoin(issues, '\n');
      Join(issues, '\n')
  }

  // ---------------------------------------------------------------- handlers

  /** `handleFullNameChange`: the typed text (empty when undefined) is
      stored formatted, and the name's message is that of the stored text.
      The stored name keeps the typed length, is its own formatting, and
      is in error exactly when the typed text is blank. */
  function FullNameChange(f: Form, newValue: Option<string>): (r: Form)
    ensures r.draft == f.draft.(fullName := FormatName(newValue.GetOr("")))
    ensures |r.draft.fullName| == |newValue.GetOr("")|
    ensures FormatName(r.draft.fullName) == r.draft.fullName
    ensures OnlyKeyWritten(f.errors, r.errors, FullName)
    ensures r.errors[FullName] == "" <==> !IsBlank(newValue.GetOr(""))
  {
    var formatted := FormatName(newValue.GetOr(""));
    FormattedName(newValue.GetOr(""));
    WriteKey(f.errors, FullName, ValidateFullName(formatted));
    Form(f.draft.(fullName := formatted), f.errors[FullName := ValidateFullName(formatted)])
  }

  /** `handleEmailChange`: every whitespace character is removed before the
      text is checked and stored. The stored address has no whitespace,
      keeps every other character typed, and is in error exactly when it
      lacks the address shape once lower-cased. */
  function EmailChange(f: Form, newValue: Option<string>): (r: Form)
    ensures r.draft == f.draft.(email := StripSpaces(newValue.GetOr("")))
    ensures NoSpace(r.draft.email) && StripSpaces(r.draft.email) == r.draft.email
    ensures forall c :: !IsSpace(c) ==> multiset(r.draft.email)[c] == multiset(newValue.GetOr(""))[c]
    ensures OnlyKeyWritten(f.errors, r.errors, Email)
    ensures r.errors[Email] == "" <==> LiveEmailShape(LowerCase(r.draft.email))
  {
    var stripped := StripSpaces(newValue.GetOr(""));
    TrimNoSpace(stripped);
    WriteKey(f.errors, Email, ValidateEmail(stripped));
    Form(f.draft.(email := stripped), f.errors[Email := ValidateEmail(stripped)])
  }

  /** `handlePhoneNumberChange`: the text is stored as typed; its message
      is empty exactly for ten digits not starting with `0`. */
  function PhoneNumberChange(f: Form, newValue: Option<string>): (r: Form)
    ensures r.draft == f.draft.(phoneNumber := newValue.GetOr(""))
    ensures OnlyKeyWritten(f.errors, r.errors, PhoneNumber)
    ensures r.errors[PhoneNumber] == "" <==>
      |r.draft.phoneNumber| == 10 && AllDigits(r.draft.phoneNumber) && r.draft.phoneNumber[0] != '0'
  {
    var value := newValue.GetOr("");
    WriteKey(f.errors, PhoneNumber, ValidatePhoneNumber(value));
    Form(f.draft.(phoneNumber := value), f.errors[PhoneNumber := ValidatePhoneNumber(value)])
  }

  /** `handleAgeChange`: empty text clears the age, any other text stores
      `Number(text)`; the message is that of the text. An accepted entry
      always leaves an age in (0, 100] stored. */
  function AgeChange(f: Form, newValue: Option<string>): (r: Form)
    ensures r.draft == f.draft.(age := r.draft.age)
    ensures newValue.GetOr("") == "" ==> r.draft.age.None?
    ensures newValue.GetOr("") != "" ==> r.draft.age == NumberOf(newValue.GetOr(""))
    ensures OnlyKeyWritten(f.errors, r.errors, Age)
    ensures r.errors[Age] == ValidateAge(newValue.GetOr(""))
    ensures r.errors[Age] == "" ==> r.draft.age.Some? && 0 < r.draft.age.value <= 100
    ensures r.errors[Age] == "Age is required" <==> IsBlank(newValue.GetOr(""))
  {
    var value := newValue.GetOr("");
    var age := if value != "" then NumberOf(value) else None;
    WriteKey(f.errors, Age, ValidateAge(value));
    Form(f.draft.(age := age), f.errors[Age := ValidateAge(value)])
  }

  /** `handlePasswordChange`: whitespace is removed before the text is
      checked and stored; the message is empty exactly for a strong
      password. */
  function PasswordChange(f: Form, newValue: Option<string>): (r: Form)
    ensures r.draft == f.draft.(password := StripSpaces(newValue.GetOr("")))
    ensures NoSpace(r.draft.password) && StripSpaces(r.draft.password) == r.draft.password
    ensures forall c :: !IsSpace(c) ==> multiset(r.draft.password)[c] == multiset(newValue.GetOr(""))[c]
    ensures OnlyKeyWritten(f.errors, r.errors, Password)
    ensures r.errors[Password] == "" <==> StrongPassword(r.draft.password)
  {
    var stripped := StripSpaces(newValue.GetOr(""));
    TrimNoSpace(stripped);
    WriteKey(f.errors, Password, ValidatePassword(stripped));
    Form(f.draft.(password := stripped), f.errors[Password := ValidatePassword(stripped)])
  }

  /** `handleGenderChange`: the chosen option's key is stored (nothing
      chosen stores the empty text); the message is empty exactly when an
      option was chosen. */
  function GenderChange(f: Form, option: Option<string>): (r: Form)
    ensures r.draft == f.draft.(gender := option.GetOr(""))
    ensures OnlyKeyWritten(f.errors, r.errors, Gender)
    ensures r.errors[Gender] == "" <==> option.Some?
  {
    var message := if option.Some? then "" else "Gender is required.";
    WriteKey(f.errors, Gender, message);
    Form(f.draft.(gender := option.GetOr("")), f.errors[Gender := message])
  }
}
