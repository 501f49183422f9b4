# TicketApp booking core in Dafny

This project models the logic under the TicketApp SharePoint web parts.

- **The registration wizard.** It has six steps: user information, travel details, passenger information, ticket preferences, payment details and additional information.
  - One validator per step records field messages in an error map and answers whether the step passes.
  - The sequencer offers next, back and a click on a step tab.
  - The submit looks up passenger ids, sends the booking item and resets the draft.
- **The live field handlers** of the user-information, travel-details and passenger-information steps. These validate and normalise each field as it is typed.
- **The user-data page.** Per-record edits, adding and removing passengers, deleting a record, saving, the date fields' `YYYY-MM-DD` text form and the stored passenger ages.
- **The outer container's view-mode machine.**

Modules follow the source files:

| module | file | contents |
|---|---|---|
| `JsValues` | `js_values.dfy` | `undefined`-or-value, and JavaScript `Date` as `Invalid` or a millisecond count. Every comparison with an invalid date is false. |
| `Text` | `text.dfy` | ASCII stand-ins for the regular-expression classes `\s`, `\d` and letters; `trim`, `toLowerCase`, `split`/`join`; `String(n)`, `Number(s)` and `parseInt(s)` on integers |
| `CivilDate` | `civil_date.dfy` | The proleptic Gregorian UTC calendar, `Date.UTC`, `formatDate` and the `YYYY-MM-DD` parse of the date fields |
| `FormDataTypes` | `form_data.dfy` | `IFormData` and the initial draft |
| `FieldErrors` | `field_errors.dfy` | The error map, keyed by a datatype of fields (`passengerName<i>` becomes `PassengerName(i)`), and the `{...prev, ...new}` merge |
| `Registration` | `registration.dfy` | The step rules, `validateCurrentStep`, `nextStep`, `previousStep`, `handleStepClick`, `getUserIds` and `handleSubmit` |
| `UserInfo` | `user_info.dfy` | `formatName`, the five live validators and the field handlers |
| `PassengerInfo` | `passenger_info.dfy` | The count dropdown, people picker, age field, identity proof and number, and file input |
| `TravelDetails` | `travel_details.dfy` | The travel-date, return-date, city and travel-time handlers |
| `UserDataPage` | `user_data_page.dfy` | The booking list's edit handlers, `formatDate`/`handleDateChange` and the ages decode |
| `AuthContainer` | `auth_container.dfy` | The view modes, their handlers and the panels each mode renders |
| `RuleDivergence` | `rule_divergence.dfy` | Where the live checks and the step gates disagree about the same value |

Modelling choices:

- **Inputs from outside.** The current time, today's local midnight, what `new Date(text)` makes of the typed expiry date, the upload outcome, `ensureUser` and the save outcome are all parameters.
- **Card number and CVV.** The payment step stores `parseInt(text)` as a number. The model keeps the text `String(n)` of that number, which is what the step-4 gate tests (`PaymentNumberText`).
- **Ages.** An age is `Option<int>`. `None` stands for both `undefined` and `NaN`: every check modelled treats the two alike, since `!age` is true and `NaN <= 0` is false.
- **Failed uploads.** A failed upload does not abort the submission. `uploadFileToDocumentLibrary` (`Registration.tsx:283-304`) catches the failure and returns the text `"File upload faild"`, and `handleSubmit` stores that text as the document link (`Registration.HandleSubmit`).

## Model

| member | source | states |
|---|---|---|
| FormDataTypes.InitialFormData | src/webparts/registration/components/Registration.tsx:25-52 | The starting draft has one passenger with an empty name and no age, a passenger count of 1 that agrees with both lists, empty user texts, card number and CVV 0, and no age, dates or file. |
| FieldErrors.Merge | src/webparts/registration/components/Registration.tsx:247 | Merging new messages over the old map: every new message wins, every other old message stays, and no key appears that was in neither map. |
| Registration.Flag | src/webparts/registration/components/Registration.tsx:78-244 | Recording a failing check writes its message and clears the validity flag; a passing check changes nothing; the flag stays "true exactly when nothing was recorded". |
| Registration.IdNumberAccepted | src/webparts/registration/components/Registration.tsx:189-201 | The identity number passes exactly when it is non-empty and fits its document type: Aadhar needs 12 digits, Passport the passport pattern, Voter ID three capitals and seven digits. Any other type accepts any non-empty number. |
| Registration.NameLoopMessage | src/webparts/registration/components/Registration.tsx:146-157 | The name loop leaves each passenger's name key with exactly the first applicable message: required, then only alphabets, then at least 3 characters. It touches no other key. |
| Registration.AgeLoopMessage | src/webparts/registration/components/Registration.tsx:159-170 | The age loop leaves each passenger's age key with the range message when the age is missing, zero or outside 1..99, and touches no other key. |
| Registration.AgeRequiredOverwritten | src/webparts/registration/components/Registration.tsx:160-169 | The "age required." message never survives validation: for a missing or zero age, the range check on the same key always overwrites it. |
| Registration.ApplyMessage | src/webparts/registration/components/Registration.tsx:83-244 | Running a step's checks in order leaves each checked key with its rule's message when the rule fails, and every other key as it was. |
| Registration.StepCheckMessage | src/webparts/registration/components/Registration.tsx:78-249 | For every key, the message a step records is exactly what that step's rule says for the key. Steps 5 and beyond record nothing. |
| Registration.StepValid | src/webparts/registration/components/Registration.tsx:78-249 | `validateCurrentStep` returns true exactly when every rule of the current step passes. |
| Registration.StepCheck | src/webparts/registration/components/Registration.tsx:78-249 | The returned flag is true exactly when no message was recorded, and any step outside 0..4 falls to the default case and passes with nothing recorded. |
| Registration.Validated | src/webparts/registration/components/Registration.tsx:247 | After validation, each key the step finds wrong holds its message and every other key keeps its old message. Old messages are never cleared. |
| Registration.NextStep | src/webparts/registration/components/Registration.tsx:252-256 | Next advances the step by exactly one when the current step passes and leaves it unchanged otherwise; in both cases the step's findings are merged. |
| Registration.PreviousStep | src/webparts/registration/components/Registration.tsx:258-260 | Back lowers the step by exactly one and changes nothing else. |
| Registration.StepClick | src/webparts/registration/components/Registration.tsx:262-274 | A tab outside 0..5 only raises the error notice. A tab at or before the current step is entered without validating. A later tab validates only the current step and, when that passes, jumps there, skipping the steps in between. |
| Registration.StepStaysInRange | src/webparts/registration/components/Registration.tsx:450-511 | Through the offered tabs and Back/Next buttons the step never leaves 0..5, and the out-of-range notice never appears. |
| Registration.GetUserIds | src/webparts/registration/components/Registration.tsx:306-323 | Lookup skips empty names. Each returned id is non-zero, comes from a lookup of a non-empty name, and keeps the names' order. Every name whose lookup yields a non-zero id contributes one. There are never more ids than non-empty names. |
| Registration.HandleSubmit | src/webparts/registration/components/Registration.tsx:332-419 | A successful save resets the draft to the initial one at step 0; a failed save leaves draft and step alone. Without a file the item has no document link, and after a failed upload its link is the failure text. The ages are sent joined by line breaks, and the notice on show is always the success notice. |
| Registration.AgeTexts | src/webparts/registration/components/Registration.tsx:366 | Each age's text is the empty text for an undefined age and `String(n)` for a number, in list order. |
| UserInfo.FormatWords | src/webparts/registration/components/UserInfo.tsx:25-33 | Formatting the words of a name maps the one-word format over the list, position for position. |
| UserInfo.CaseByPositionSplit | src/webparts/registration/components/UserInfo.tsx:21-37 | Splitting at spaces, formatting each word and joining agrees with a per-character reading: upper-case at a word start, lower-case elsewhere. |
| UserInfo.FormatNameByPosition | src/webparts/registration/components/UserInfo.tsx:21-37 | `formatName` keeps the length and the spaces. It upper-cases the first character and every character after a space, and lower-cases all others. |
| UserInfo.FormatNameIdempotent | src/webparts/registration/components/UserInfo.tsx:21-37 | Formatting an already formatted name changes nothing. |
| UserInfo.FormatNameBlank | src/webparts/registration/components/UserInfo.tsx:21-37 | A name is blank after formatting exactly when it was blank before. |
| UserInfo.ValidateFullName | src/webparts/registration/components/UserInfo.tsx:39-46 | The full name passes exactly when it is not all whitespace, with one message for the empty text and another for whitespace only. |
| UserInfo.ValidateEmail | src/webparts/registration/components/UserInfo.tsx:48-56 | The address passes exactly when its trimmed, lower-cased form is a local part, `@`, and a domain with a dot that has a non-space, non-`@` character on each side. Blank text gets the "enter" message; every other failure gets the "valid address" message. |
| UserInfo.ValidatePhoneNumber | src/webparts/registration/components/UserInfo.tsx:58-68 | Blank text gets the required message. Text other than exactly 10 digits gets the length message. Ten digits starting with 0 get the leading-zero message. Ten digits starting otherwise pass. |
| UserInfo.ValidateAge | src/webparts/registration/components/UserInfo.tsx:70-78 | Blank text gets the required message. The age passes exactly when it reads as a number in 1..100, with 100 itself accepted. Any other text gets the "valid age" message. |
| UserInfo.Faults | src/webparts/registration/components/UserInfo.tsx:80-97 | The list holds exactly the password rules the text breaks, each once, in the source's order: length 8-16, lower case, upper case, digit, special character. It is empty exactly when the password is strong. |
| UserInfo.ValidatePassword | src/webparts/registration/components/UserInfo.tsx:80-98 | The result is empty exactly when the trimmed password is strong. Otherwise, read back line by line, it gives exactly the messages of the broken rules, in order. |
| UserInfo.FullNameChange | src/webparts/registration/components/UserInfo.tsx:101-109 | The stored name is `formatName` of the typed text: same length, and formatting again changes nothing. The full-name key alone is written, and it is empty exactly when the typed text is not blank. |
| UserInfo.EmailChange | src/webparts/registration/components/UserInfo.tsx:112-120 | The stored address is the typed text with its whitespace removed: none is left, and the other characters keep their counts and, through `Text.StripSpacesAppend`, their order. Stripping it again changes nothing. Only the email key is written, and it is empty exactly when the stored address has the live shape. |
| UserInfo.PhoneNumberChange | src/webparts/registration/components/UserInfo.tsx:123-130 | The phone number is stored as typed. Only its key is written, and it is empty exactly for ten digits not starting with 0. |
| UserInfo.AgeChange | src/webparts/registration/components/UserInfo.tsx:133-152 | Empty text clears the age, and any other text stores `Number(text)`. Only the age key is written, and it holds the message `validateAge` gives the text: the required message exactly for blank text. A cleared message means the stored age is in 1..100. |
| UserInfo.PasswordChange | src/webparts/registration/components/UserInfo.tsx:154-162 | The stored password is the typed text with its whitespace removed: none is left, and the other characters keep their counts and their order. Stripping it again changes nothing. Only the password key is written, and it is empty exactly when the stored password is strong. |
| UserInfo.GenderChange | src/webparts/registration/components/UserInfo.tsx:165-168 | The chosen key is stored, and the gender message is empty exactly when an option was chosen. |
| PassengerInfo.CountChange | src/webparts/registration/components/PassengerInfo.tsx:70-79 | Choosing `n` passengers stores `n` and both lists of length `n`, blank and undefined throughout; it discards the old entries and clears the whole error map. |
| PassengerInfo.CountChangeBlocksGate | src/webparts/registration/components/PassengerInfo.tsx:70-79 | Right after a count change every passenger's name is flagged as required and every age as out of range, so step 2 cannot pass. |
| PassengerInfo.PickerChange | src/webparts/registration/components/PassengerInfo.tsx:38-47 | The first selection's text, or the empty text, goes to the one index. Other names and the list length are unchanged, and the lists stay parallel. The name's error key is written with the required message exactly for an empty selection and deleted otherwise. |
| PassengerInfo.AgeChange | src/webparts/registration/components/PassengerInfo.tsx:116-135 | The typed age goes to the one index, and empty text becomes undefined. Other ages and the list length are unchanged. The age's error key is present exactly when the age is defined and at most 0 or at least 100, and no other key changes. |
| PassengerInfo.AgeChecksAgree | src/webparts/registration/components/PassengerInfo.tsx:116-135 | The live age check and the step-2 gate flag the same defined ages. Only an undefined age separates them, and the gate alone rejects it. |
| PassengerInfo.ProofChange | src/webparts/registration/components/PassengerInfo.tsx:151-158 | The chosen proof is stored, and its message is empty exactly when a proof was chosen. |
| PassengerInfo.ProofNumberChange | src/webparts/registration/components/PassengerInfo.tsx:167-174 | The number is stored as typed, and its message is empty exactly when it is non-empty. |
| PassengerInfo.FileChange | src/webparts/registration/components/PassengerInfo.tsx:183-190 | The chosen file is stored, and the file message is empty exactly when a file was chosen. |
| TravelDetails.TravelDateChange | src/webparts/registration/components/TravelDetails.tsx:44-64 | A date before today's midnight sets the past-date message and keeps the old date. Anything else, an emptied field included, is stored and clears the message. No other key changes. |
| TravelDetails.ReturnDateChange | src/webparts/registration/components/TravelDetails.tsx:66-86 | A return date at or before now, or at or before a set travel date, sets the message and keeps the old date. Anything else is stored and clears the message, and clearing the field is always accepted. |
| TravelDetails.ReturnAfterTravel | src/webparts/registration/components/TravelDetails.tsx:72-84 | A return date the handler newly stores is after the current time and strictly after a set travel date. |
| TravelDetails.CityChange | src/webparts/registration/components/TravelDetails.tsx:88-112 | Only the chosen city is changed. Both city messages are set together: to the same-city message exactly when both cities are chosen and equal, otherwise cleared. |
| TravelDetails.CityClash | src/webparts/registration/components/TravelDetails.tsx:88-112 | Choosing the city already chosen on the other side raises the same-city message on both. |
| TravelDetails.TravelTimeChange | src/webparts/registration/components/TravelDetails.tsx:114-124 | The chosen time is stored, and its message is empty exactly when a time was chosen. |
| UserDataPage.InputChange | src/webparts/userLogin/components/UserDataPage.tsx:95-108 | A text input changes its one field of its one record; the age is stored as `Number(text)`. |
| UserDataPage.DropdownChange | src/webparts/userLogin/components/UserDataPage.tsx:110-125 | No option leaves the page unchanged; an option's key goes into the one field of the one record. |
| UserDataPage.CheckboxChange | src/webparts/userLogin/components/UserDataPage.tsx:191-202 | A check box sets its one flag of its one record. |
| UserDataPage.ExpiryChange | src/webparts/userLogin/components/UserDataPage.tsx:204-213 | The expiry text is stored as typed in the one record. |
| UserDataPage.DateChange | src/webparts/userLogin/components/UserDataPage.tsx:127-141 | The typed text's parse goes into the one date field of the one record. |
| UserDataPage.DateChangeShown | src/webparts/userLogin/components/UserDataPage.tsx:127-151 | A typed `YYYY-MM-DD` date whose four-digit year does not start with 0 is shown back in the field exactly as typed. |
| UserDataPage.PassengerNameChange | src/webparts/userLogin/components/UserDataPage.tsx:153-162 | The picker's name goes to the one passenger of the one record; other names and the list length are unchanged. |
| UserDataPage.WriteAge | src/webparts/userLogin/components/UserDataPage.tsx:170 | A JavaScript array write puts the value at the index and keeps every other entry. Past the end, it grows the array with holes. |
| UserDataPage.PassengerAgeChange | src/webparts/userLogin/components/UserDataPage.tsx:164-172 | The age, read as `parseInt(text) \|\| 0`, goes to the one passenger of the one record. Text that does not parse stores 0. |
| UserDataPage.AddPassenger | src/webparts/userLogin/components/UserDataPage.tsx:174-179 | Adding appends an empty name and the age 0 to the one record. |
| UserDataPage.AddKeepsBounds | src/webparts/userLogin/components/UserDataPage.tsx:463 | Through the Add button, which is shown only below three passengers, a record never exceeds three passengers, and parallel lists stay parallel. |
| UserDataPage.Splice | src/webparts/userLogin/components/UserDataPage.tsx:186-187 | `splice(i, 1)` removes entry `i` and keeps the others in order; an index past the end changes nothing. |
| UserDataPage.DeletePassenger | src/webparts/userLogin/components/UserDataPage.tsx:181-189 | Removing a passenger removes that index from both lists of the one record, keeping parallel lists parallel. |
| UserDataPage.FilterOutRemoves | src/webparts/userLogin/components/UserDataPage.tsx:222 | Filtering out an index removes exactly that record and keeps the others in order. |
| UserDataPage.Delete | src/webparts/userLogin/components/UserDataPage.tsx:220-224 | The deleted record's id goes to the delete callback, and the list loses exactly that record. |
| UserDataPage.Save | src/webparts/userLogin/components/UserDataPage.tsx:215-218 | Each record goes to the update callback once, in list order, and edit mode is left. |
| UserDataPage.CancelKeepsEdits | src/webparts/userLogin/components/UserDataPage.tsx:621-629 | Cancel leaves edit mode without undoing anything: a field edited and then cancelled stays edited. |
| UserDataPage.AgesRoundTrip | src/webparts/userLogin/components/UserDataPage.tsx:72 | Decoding the ages with `split("\n").map(Number)` gives back any non-empty list of defined ages that the submit joined. |
| UserDataPage.AgesRoundTripFails | src/webparts/userLogin/components/UserDataPage.tsx:72 | An empty age list, and a single undefined age, both come back as the one age 0. |
| CivilDate.CivilRoundTrip | src/webparts/userLogin/components/UserDataPage.tsx:144-151 | Reading back the UTC year, month and day of a valid date's day number gives the date again. |
| CivilDate.DaysRoundTrip | src/webparts/userLogin/components/UserDataPage.tsx:144-151 | The day number of the UTC calendar date of any day number is that day number. |
| CivilDate.ParseIsoText | src/webparts/userLogin/components/UserDataPage.tsx:134-136 | A `YYYY-MM-DD` text is parsed as `Date.UTC` of its year, its month minus one and its day. |
| CivilDate.DateUtcTwoDigitYear | src/webparts/userLogin/components/UserDataPage.tsx:136 | `Date.UTC` reads a year 0..99 as 1900 plus that year. |
| CivilDate.FormatParseRoundTrip | src/webparts/userLogin/components/UserDataPage.tsx:134-151 | Formatting the parse of a valid `YYYY-MM-DD` date whose year does not start with 0 gives the typed text back. |
| CivilDate.LeadingZeroYearNotRestored | src/webparts/userLogin/components/UserDataPage.tsx:134-151 | A `YYYY-MM-DD` date whose year is typed with a leading zero never comes back as typed. |
| CivilDate.IsoDateMoment | src/webparts/registration/components/Registration.tsx:231 | The reading of `new Date` assumed for a date input's value (empty or a real `YYYY-MM-DD` date): a real calendar date is read as UTC midnight of that date, and any other text as an invalid date. |
| Text.JoinSplit | src/webparts/registration/components/UserInfo.tsx:23-34 | Joining the pieces of a split gives the text back. |
| Text.SplitJoin | src/webparts/userLogin/components/UserDataPage.tsx:72 | Splitting a join of pieces without the separator gives the pieces back. |
| Text.StripSpaces | src/webparts/registration/components/UserInfo.tsx:116 | Removing whitespace leaves none, keeps the count of every other character, and leaves whitespace-free text alone. |
| Text.StripSpacesIdempotent | src/webparts/registration/components/UserInfo.tsx:158 | Stripping whitespace twice is stripping it once. |
| Text.StripSpacesAppend | src/webparts/registration/components/UserInfo.tsx:116 | Removing whitespace keeps the remaining characters in their order: stripping a concatenation concatenates the stripped parts. |
| Text.StripSpacesSnoc | src/webparts/registration/components/UserInfo.tsx:158 | Typing one more character adds it to the end of the stripped text, unless it is whitespace. |
| Text.TrimEmptyIffBlank | src/webparts/registration/components/UserInfo.tsx:41-42 | `trim()` is empty exactly for text that is all whitespace. |
| Text.NumberOfIntToString | src/webparts/registration/components/Registration.tsx:366 | `Number(String(n))` is `n` for every integer. |
| Text.ParseIntIntToString | src/webparts/registration/components/PaymentDetails.tsx:30-31 | `parseInt(String(n))` is `n` for every integer. |
| Text.ParseIntDigitsThen | src/webparts/userLogin/components/UserDataPage.tsx:452 | `parseInt` reads leading digits followed by a non-digit as the value of those digits. |
| Text.CanonicalDigits | src/webparts/registration/components/PaymentDetails.tsx:60-61 | A digit string without a leading zero is the `String` of its own value. |
| RuleDivergence.PasswordRulesDiverge | src/webparts/registration/components/Registration.tsx:96-102 | A password strong enough for the live check always passes the gate. The gate also passes every password of 6 or 7 characters, which the live check refuses. |
| RuleDivergence.PhoneRulesDiverge | src/webparts/registration/components/Registration.tsx:103-109 | The live check accepts exactly those numbers the gate accepts that do not start with 0. |
| RuleDivergence.AgeRulesDiverge | src/webparts/registration/components/Registration.tsx:110-116 | For an age stored from typed text, the live check accepts exactly what the gate accepts, plus 100. |
| RuleDivergence.TravelDateRulesDiverge | src/webparts/registration/components/Registration.tsx:132-138 | A travel date earlier today is stored by the field without complaint, then refused by the gate. |
| RuleDivergence.TravelDateBreaksReturnOrder | src/webparts/registration/components/TravelDetails.tsx:44-64 | The travel-date handler accepts a date after the stored return date and leaves the return-date message untouched. |
| RuleDivergence.SameCityPassesGate | src/webparts/registration/components/Registration.tsx:122-143 | Two equal chosen cities pass the step-1 gate, which has no same-city rule. |
| RuleDivergence.LiveEmailPassesGate | src/webparts/registration/components/Registration.tsx:89-95 | Every address the live check accepts, as the email handler stores it, passes the gate's address pattern. |
| RuleDivergence.GateAcceptsTwoAts | src/webparts/registration/components/Registration.tsx:92 | The gate's pattern lets `a@b@c.d` through, and the live check refuses it. |
| RuleDivergence.LeadingZeroNumberRejected | src/webparts/registration/components/Registration.tsx:220-241 | A card number or CVV typed with a leading zero is stored shorter than typed. So a 3-digit CVV or 16-digit card number starting with 0 never passes the gate. |
| RuleDivergence.IsoExpiryRule | src/webparts/registration/components/Registration.tsx:228-234 | When `new Date` reads a `YYYY-MM-DD` expiry as UTC midnight, the gate refuses the expiry exactly when that midnight is before the current time. |
| RuleDivergence.UnreadableExpiryPasses | src/webparts/registration/components/Registration.tsx:228-234 | A non-empty expiry that such a `new Date` reads as an invalid date passes the gate. |
| RuleDivergence.TabSkipsGates | src/webparts/registration/components/Registration.tsx:262-274 | From step 0, clicking the last tab needs only step 0 to pass, and then Submit is offered. |
| AuthContainer.Initial | src/webparts/authContainer/components/AuthContainer.tsx:17-19 | The container starts on the welcome buttons with nobody signed in. |
| AuthContainer.Step | src/webparts/authContainer/components/AuthContainer.tsx:27-41 | Both clicks and a failed log-in set the mode, from any mode, and keep the user. A log-in success records the user and moves to the user-data mode. |
| AuthContainer.Panels | src/webparts/authContainer/components/AuthContainer.tsx:50-110 | The welcome, log-in and register modes each render exactly one panel, and the user-data mode renders none. |
| AuthContainer.UserDataUnreachable | src/webparts/authContainer/components/AuthContainer.tsx:88-96 | Using only events that rendered panels can raise, the user-data mode is never reached and no user is recorded, because no panel is given the success callback. |
| AuthContainer.InitialNeverShowsUserData | src/webparts/authContainer/components/AuthContainer.tsx:17-19 | From the initial state, no run of offered events reaches the user-data mode. |

## Left out

- SharePoint calls are left out: the list reads, `add`, `update` and `delete`, `ensureUser` and the file upload. They appear only as outcomes passed in.
- The log-in page and the user-login web part, which hold the credential check, are not part of this model.
- Host integration is left out: the web-part classes, property panes and localised strings.
- Rendering is left out: JSX, styling, dialogs' visibility and spinners. So are the key-press filters on the name and phone fields, which only stop keystrokes.
- Ticket references and additional information are left out. Their handlers are plain field setters, and the step-3 rule covers what is checked.
- The payment step's handlers are reduced to the text they store (`Registration.PaymentNumberText`). The floating-point value `parseInt` yields for 16-digit card numbers is not modelled: card number and CVV are digit texts.
- `Number` and `parseInt` are modelled on integers only. Fractions, exponents, hexadecimal, `Infinity` and the 2^53 precision limit are left out. `NaN` is `None`.
- Whitespace and case mapping are ASCII only, with no Unicode classes.
- JavaScript `Date` string parsing is left out, and so are time zones, local `setHours`, and the ISO text written to the list. `now`, today's midnight and `new Date(expiry)` are parameters. Only the `YYYY-MM-DD` parse of the user-data page is modelled in full.
- The user-data page's load mapping is left out, except the passenger-ages decode.
- React state aliasing is left out. The source mutates shared arrays in place and reads possibly stale state in closures; the model treats each handler as a pure update of the state it reads.
- The dropdown handlers store the empty text where the source stores `undefined` as the key.
- UserDataPage.PassengerNameChange, UserDataPage.InputChange and the other per-record handlers require their record index, and where relevant the passenger index, to be in range. The source would write past the end of the array.
- CivilDate.IsoDateMoment: texts other than a real `YYYY-MM-DD` date, such as out-of-range days or other date formats, are treated as invalid dates, although JavaScript engines differ and may read them as valid dates. A date input only yields the empty text or a real date, so the model covers every value the expiry field can hold.
- Registration.HandleSubmit: the booking item's date fields hold the moments, not their ISO text. `passengerIds` is stated only as at most one id per non-empty name, the contract `Registration.GetUserIds` gives.
- AuthContainer.Panels: the booking form and the user-data page behind the panels are not rendered by the model; each panel is only a name.

## Findings

None claimed. The places where two checks of the same value disagree are stated as lemmas in `RuleDivergence`, and the round trips that fail as lemmas in `CivilDate` and `UserDataPage`. The source gives no evidence which side was intended.
