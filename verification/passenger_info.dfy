// The passenger-information step's field handlers: the passenger count, the
// per-passenger name picker and age field, the identity proof and its
// number, and the uploaded document.

module PassengerInfo {
  import opened JsValues
  import opened Text
  import opened FormDataTypes
  import opened FieldErrors
  import opened Registration

  /** The count dropdown: `n` empty names and `n` undefined ages replace
      the old lists, and the whole error map is cleared. */
  function CountChange(f: Form, n: nat): (r: Form)
    ensures r.draft == f.draft.(numberOfPassengers := n, passengerNames := r.draft.passengerNames,
                                passengerAges := r.draft.passengerAges)
    ensures PassengersParallel(r.draft) && r.draft.numberOfPassengers == n
    ensures forall i :: 0 <= i < n ==> r.draft.passengerNames[i] == "" && r.draft.passengerAges[i].None?
    ensures r.errors == map[]
  {
    Form(f.draft.(numberOfPassengers := n, passengerNames := seq(n, _ => ""), passengerAges := seq(n, _ => None)), map[])
  }

  /** After a count change every passenger is blank, so the step-2 gate
      flags each name as missing and each age as out of range. */
  lemma CountChangeBlocksGate(f: Form, n: nat, env: Env, i: nat)
    requires i < n
    ensures StepRule(2, CountChange(f, n).draft, env, PassengerName(i)) == Some(PassengerLabel(i) + " name is required.")
    ensures StepRule(2, CountChange(f, n).draft, env, PassengerAge(i)).Some?
    ensures !StepPasses(2, CountChange(f, n).draft, env)
  {
    var d := CountChange(f, n).draft;
    BlankPassengerFlagged(d.passengerNames, d.passengerAges, i);
    assert StepRule(2, d, env, PassengerName(i)) == NameAt(d.passengerNames, i);
    assert StepRule(2, d, env, PassengerAge(i)) == AgeAt(d.passengerAges, i);
  }

  /** A passenger with an empty name and an undefined age is flagged on
      both. */
  lemma BlankPassengerFlagged(names: seq<string>, ages: seq<Option<int>>, i: nat)
    requires i < |names| && names[i] == "" && i < |ages| && ages[i].None?
    ensures NameAt(names, i) == Some(PassengerLabel(i) + " name is required.")
    ensures AgeAt(ages, i).Some?
  {
    assert Trim(names[i]) == [] by {
      TrimEmptyIffBlank(names[i]);
    }
  }

  /** The name the picker yields: the first selection's text, or the empty
      text when nothing (or a selection without text) is chosen. */
  function SelectedName(items: seq<Option<string>>): string {
    if items == [] then "" else items[0].GetOr("")
  }

  /** `handlePeoplePickerChange` with its error bookkeeping: the selected
      name is written at `index` alone; the name's error key is written
      with the required message when the selection is empty and deleted
      otherwise. */
  function PickerChange(f: Form, items: seq<Option<string>>, index: nat): (r: Form)
    requires index < |f.draft.passengerNames|
    ensures r.draft == f.draft.(passengerNames := r.draft.passengerNames)
    ensures |r.draft.passengerNames| == |f.draft.passengerNames|
    ensures r.draft.passengerNames[index] == SelectedName(items)
    ensures forall i :: 0 <= i < |f.draft.passengerNames| && i != index ==>
      r.draft.passengerNames[i] == f.draft.passengerNames[i]
    ensures PassengersParallel(f.draft) ==> PassengersParallel(r.draft)
    ensures items == [] ==>
      OnlyKeyWritten(f.errors, r.errors, PassengerName(index))
      && r.errors[PassengerName(index)] == PassengerLabel(index) + " name is required."
    ensures items != [] ==> OnlyKeyDeleted(f.errors, r.errors, PassengerName(index))
  {
    var names := f.draft.passengerNames[index := SelectedName(items)];
    var key := PassengerName(index);
    if items == [] then
      var message := PassengerLabel(index) + " name is required.";
      WriteKey(f.errors, key, message);
      Form(f.draft.(passengerNames := names), f.errors[key := message])
    else
      DeleteKey(f.errors, key);
      Form(f.draft.(passengerNames := names), f.errors - {key})
  }

  /** The age typed for a passenger: the empty text is undefined, any
      other text is `Number(text)`. */
  function AgeValue(newValue: Option<string>): Option<int> {
    var text := newValue.GetOr("");
    if text == "" then None else NumberOf(text)
  }

  /** The live age check: a defined age of zero or less, or of 100 or
      more. An undefined age (and `NaN`, which the model also holds as no
      number) is not flagged here. */
  predicate AgeOutOfRange(age: Option<int>) {
    age.Some? && (age.value <= 0 || age.value >= 100)
  }

  /** The per-passenger age field: the typed age is written at `index`
      alone; the age's error key is written when the age is defined and
      out of range, and deleted otherwise. */
  function AgeChange(f: Form, index: nat, newValue: Option<string>): (r: Form)
    requires index < |f.draft.passengerAges|
    ensures r.draft == f.draft.(passengerAges := r.draft.passengerAges)
    ensures |r.draft.passengerAges| == |f.draft.passengerAges|
    ensures r.draft.passengerAges[index] == AgeValue(newValue)
    ensures newValue.GetOr("") == "" ==> r.draft.passengerAges[index].None?
    ensures forall i :: 0 <= i < |f.draft.passengerAges| && i != index ==>
      r.draft.passengerAges[i] == f.draft.passengerAges[i]
    ensures PassengersParallel(f.draft) ==> PassengersParallel(r.draft)
    ensures PassengerAge(index) in r.errors <==> AgeOutOfRange(r.draft.passengerAges[index])
    ensures AgeOutOfRange(AgeValue(newValue)) ==>
      OnlyKeyWritten(f.errors, r.errors, PassengerAge(index))
      && r.errors[PassengerAge(index)] == PassengerLabel(index) + " age must be between 1 and 99."
    ensures !AgeOutOfRange(AgeValue(newValue)) ==> OnlyKeyDeleted(f.errors, r.errors, PassengerAge(index))
  {
    var age := AgeValue(newValue);
    var ages := f.draft.passengerAges[index := age];
    var key := PassengerAge(index);
    if AgeOutOfRange(age) then
      var message := PassengerLabel(index) + " age must be between 1 and 99.";
      WriteKey(f.errors, key, message);
      Form(f.draft.(passengerAges := ages), f.errors[key := message])
    else
      DeleteKey(f.errors, key);
      Form(f.draft.(passengerAges := ages), f.errors - {key})
  }

  /** The live age check and the step-2 gate agree on every defined age:
      the field is flagged exactly when the gate would flag it. They part
      only on an undefined age, which the gate alone rejects. */
  lemma AgeChecksAgree(age: Option<int>, i: nat)
    ensures age.Some? ==> (AgeOutOfRange(age) <==> AgeRangeRule(age, i).Some?)
    ensures age.None? ==> !AgeOutOfRange(age) && AgeRangeRule(age, i).Some?
  {
  }

  /** The identity-proof dropdown: the chosen key is stored (nothing chosen
      stores the empty text); the message is empty exactly when a
      non-empty key was chosen. */
  function ProofChange(f: Form, option: Option<string>): (r: Form)
    ensures r.draft == f.draft.(identityProof := option.GetOr(""))
    ensures OnlyKeyWritten(f.errors, r.errors, IdentityProof)
    ensures r.errors[IdentityProof] == "" <==> r.draft.identityProof != ""
    ensures r.errors[IdentityProof] != "" ==> r.errors[IdentityProof] == "Identity proof is required."
  {
    var proof := option.GetOr("");
    var message := if proof != "" then "" else "Identity proof is required.";
    WriteKey(f.errors, IdentityProof, message);
    Form(f.draft.(identityProof := proof), f.errors[IdentityProof := message])
  }

  /** The identity-number field: the text is stored as typed; the message
      is empty exactly when it is non-empty. */
  function ProofNumberChange(f: Form, newValue: Option<string>): (r: Form)
    ensures r.draft == f.draft.(identityProofNumber := newValue.GetOr(""))
    ensures OnlyKeyWritten(f.errors, r.errors, IdentityProofNumber)
    ensures r.errors[IdentityProofNumber] == "" <==> r.draft.identityProofNumber != ""
  {
    var number := newValue.GetOr("");
    var message := if number != "" then "" else "Identity proof number is required.";
    WriteKey(f.errors, IdentityProofNumber, message);
    Form(f.draft.(identityProofNumber := number), f.errors[IdentityProofNumber := message])
  }

  /** The file input: the first chosen file (or none) is stored; the
      message is empty exactly when a file was chosen. Its type is left to
      the step-2 gate. */
  function FileChange(f: Form, file: Option<UploadedFile>): (r: Form)
    ensures r.draft == f.draft.(uploadedFile := file)
    ensures OnlyKeyWritten(f.errors, r.errors, File)
    ensures r.errors[File] == "" <==> file.Some?
  {
    var message := if file.Some? then "" else "File is required.";
    WriteKey(f.errors, File, message);
    Form(f.draft.(uploadedFile := file), f.errors[File := message])
  }
}
