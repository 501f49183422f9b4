// The booking list a signed-in user sees: edits to one record at a time,
// adding and removing passengers, deleting a record, saving all of them,
// the date fields' text form, and the passenger ages as stored in the list.

module UserDataPage {
  import opened JsValues
  import opened Text
  import opened FormDataTypes
  import opened CivilDate
  import opened Registration
  import opened PassengerInfo

  /** The loaded bookings and whether the page is in edit mode. */
  datatype Page = Page(records: seq<FormData>, editing: bool)

  /** Record `index` alone may differ; the list length and the mode stay. */
  predicate OnlyRecordChanged(p: Page, r: Page, index: nat) {
    r.editing == p.editing && |r.records| == |p.records|
    && forall j :: 0 <= j < |p.records| && j != index ==> r.records[j] == p.records[j]
  }

  function WithRecord(p: Page, index: nat, d: FormData): (r: Page)
    requires index < |p.records|
    ensures OnlyRecordChanged(p, r, index) && r.records[index] == d
  {
    p.(records := p.records[index := d])
  }

  // ---------------------------------------------------------------- field edits

  /** The text inputs of a record. */
  datatype Input = FullNameInput | EmailInput | PhoneInput | AgeInput | IdNumberInput
                 | CardInput | CvvInput | AdditionalInput

  /** `handleInputChange`: the typed text goes into the one field, except
      the age, which is stored as `Number(text)`. */
  function InputChange(p: Page, index: nat, field: Input, text: string): (r: Page)
    requires index < |p.records|
    ensures OnlyRecordChanged(p, r, index)
    ensures field == AgeInput ==> r.records[index] == p.records[index].(age := NumberOf(text))
    ensures field == FullNameInput ==> r.records[index] == p.records[index].(fullName := text)
    ensures field == EmailInput ==> r.records[index] == p.records[index].(email := text)
    ensures field == PhoneInput ==> r.records[index] == p.records[index].(phoneNumber := text)
    ensures field == IdNumberInput ==> r.records[index] == p.records[index].(identityProofNumber := text)
    ensures field == CardInput ==> r.records[index] == p.records[index].(cardNumber := text)
    ensures field == CvvInput ==> r.records[index] == p.records[index].(cvv := text)
    ensures field == AdditionalInput ==> r.records[index] == p.records[index].(additionalInfo := text)
  {
    var d := p.records[index];
    WithRecord(p, index, match field
      case FullNameInput => d.(fullName := text)
      case EmailInput => d.(email := text)
      case PhoneInput => d.(phoneNumber := text)
      case AgeInput => d.(age := NumberOf(text))
      case IdNumberInput => d.(identityProofNumber := text)
      case CardInput => d.(cardNumber := text)
      case CvvInput => d.(cvv := text)
      case AdditionalInput => d.(additionalInfo := text))
  }

  /** The dropdowns of a record. */
  datatype Choice = GenderChoice | DepartureChoice | DestinationChoice | TimeChoice
                  | ProofChoice | SeatChoice | FoodChoice

  /** `handleDropdownChange`: no option leaves the page alone; an option's
      key goes into the one field. */
  function DropdownChange(p: Page, index: nat, field: Choice, option: Option<string>): (r: Page)
    requires index < |p.records|
    ensures option.None? ==> r == p
    ensures OnlyRecordChanged(p, r, index)
    ensures option.Some? && field == GenderChoice ==> r.records[index] == p.records[index].(gender := option.value)
    ensures option.Some? && field == DepartureChoice ==> r.records[index] == p.records[index].(departureCity := option.value)
    ensures option.Some? && field == DestinationChoice ==> r.records[index] == p.records[index].(destinationCity := option.value)
    ensures option.Some? && field == TimeChoice ==> r.records[index] == p.records[index].(travelTime := option.value)
    ensures option.Some? && field == ProofChoice ==> r.records[index] == p.records[index].(identityProof := option.value)
    ensures option.Some? && field == SeatChoice ==> r.records[index] == p.records[index].(seatType := option.value)
    ensures option.Some? && field == FoodChoice ==> r.records[index] == p.records[index].(foodPreference := option.value)
  {
    match option
    case None => p
    case Some(key) =>
      var d := p.records[index];
      WithRecord(p, index, match field
        case GenderChoice => d.(gender := key)
        case DepartureChoice => d.(departureCity := key)
        case DestinationChoice => d.(destinationCity := key)
        case TimeChoice => d.(travelTime := key)
        case ProofChoice => d.(identityProof := key)
        case SeatChoice => d.(seatType := key)
        case FoodChoice => d.(foodPreference := key))
  }

  /** The two check boxes of a record. */
  datatype Flag = WindowSeat | Insurance

  /** `handleCheckboxChange`. */
  function CheckboxChange(p: Page, index: nat, field: Flag, checked: bool): (r: Page)
    requires index < |p.records|
    ensures OnlyRecordChanged(p, r, index)
    ensures field == WindowSeat ==> r.records[index] == p.records[index].(windowSeatPreference := checked)
    ensures field == Insurance ==> r.records[index] == p.records[index].(insuranceOption := checked)
  {
    var d := p.records[index];
    WithRecord(p, index, if field == WindowSeat then d.(windowSeatPreference := checked) else d.(insuranceOption := checked))
  }

  /** `handleExpiryDateChange`: the text is stored as typed. */
  function ExpiryChange(p: Page, index: nat, text: string): (r: Page)
    requires index < |p.records|
    ensures OnlyRecordChanged(p, r, index)
    ensures r.records[index] == p.records[index].(expiryDate := text)
  {
    WithRecord(p, index, p.records[index].(expiryDate := text))
  }

  /** The two date fields of a record. */
  datatype DateField = TravelDay | ReturnDay

  /** `handleDateChange`: the typed `YYYY-MM-DD` text becomes the UTC
      midnight of that day, or an invalid date for text of another shape;
      the field shows it again through `formatDate`. */
  function DateChange(p: Page, index: nat, field: DateField, text: string): (r: Page)
    requires index < |p.records|
    ensures OnlyRecordChanged(p, r, index)
    ensures field == TravelDay ==> r.records[index] == p.records[index].(travelDate := Some(ParseDateInput(text)))
    ensures field == ReturnDay ==> r.records[index] == p.records[index].(returnDate := Some(ParseDateInput(text)))
  {
    var m := ParseDateInput(text);
    var d := p.records[index];
    WithRecord(p, index, if field == TravelDay then d.(travelDate := Some(m)) else d.(returnDate := Some(m)))
  }

  /** The date field shows a typed `YYYY-MM-DD` with a four-digit year
      not starting with `0` exactly as it was typed. */
  lemma DateChangeShown(p: Page, index: nat, field: DateField, text: string)
    requires index < |p.records| && IsIsoDateText(text) && text[0] != '0'
    ensures var d := DateChange(p, index, field, text).records[index];
      FormatDate(if field == TravelDay then d.travelDate else d.returnDate) == text
  {
    FormatParseRoundTrip(text);
  }

  // ---------------------------------------------------------------- passengers

  /** `handlePassengerNameChange`: the picker's name (or the empty text)
      is written at `passengerIndex` of record `index` alone. */
  function PassengerNameChange(p: Page, index: nat, passengerIndex: nat, items: seq<Option<string>>): (r: Page)
    requires index < |p.records| && passengerIndex < |p.records[index].passengerNames|
    ensures OnlyRecordChanged(p, r, index)
    ensures r.records[index] == p.records[index].(passengerNames := r.records[index].passengerNames)
    ensures |r.records[index].passengerNames| == |p.records[index].passengerNames|
    ensures r.records[index].passengerNames[passengerIndex] == SelectedName(items)
    ensures forall j :: 0 <= j < |p.records[index].passengerNames| && j != passengerIndex ==>
      r.records[index].passengerNames[j] == p.records[index].passengerNames[j]
  {
    var d := p.records[index];
    WithRecord(p, index, d.(passengerNames := d.passengerNames[passengerIndex := SelectedName(items)]))
  }

  /** A JavaScript array write `ages[i] = v`: past the end the array grows
      to `i + 1`, the gap reading as undefined. */
  function WriteAge(ages: seq<Option<int>>, i: nat, v: int): (r: seq<Option<int>>)
    ensures |r| == if i < |ages| then |ages| else i + 1
    ensures r[i] == Some(v)
    ensures forall j :: 0 <= j < |ages| && j != i ==> r[j] == ages[j]
    ensures forall j :: |ages| <= j < i ==> r[j].None?
  {
    if i < |ages| then ages[i := Some(v)]
    else ages + seq(i - |ages|, _ => None) + [Some(v)]
  }

  /** `handlePassengerAgeChange` as the age field calls it, with
      `parseInt(text) || 0`: the age at `passengerIndex` of record `index`
      becomes the text's leading integer, or 0 when it has none. */
  function PassengerAgeChange(p: Page, index: nat, passengerIndex: nat, text: string): (r: Page)
    requires index < |p.records|
    ensures OnlyRecordChanged(p, r, index)
    ensures r.records[index] == p.records[index].(passengerAges := r.records[index].passengerAges)
    ensures r.records[index].passengerAges == WriteAge(p.records[index].passengerAges, passengerIndex, ParseIntOrZero(text))
    ensures ParseInt(text).None? ==> r.records[index].passengerAges[passengerIndex] == Some(0)
  {
    var d := p.records[index];
    WithRecord(p, index, d.(passengerAges := WriteAge(d.passengerAges, passengerIndex, ParseIntOrZero(text))))
  }

  /** Whether the Add Passenger button is shown for record `index`. */
  predicate AddOffered(p: Page, index: nat)
    requires index < |p.records|
  {
    p.editing && |p.records[index].passengerNames| < 3
  }

  /** `handleAddPassenger`: an empty name and the age 0 are appended. */
  function AddPassenger(p: Page, index: nat): (r: Page)
    requires index < |p.records|
    ensures OnlyRecordChanged(p, r, index)
    ensures r.records[index] == p.records[index].(passengerNames := p.records[index].passengerNames + [""],
                                                  passengerAges := p.records[index].passengerAges + [Some(0)])
  {
    var d := p.records[index];
    WithRecord(p, index, d.(passengerNames := d.passengerNames + [""], passengerAges := d.passengerAges + [Some(0)]))
  }

  /** Through the button, a record never gets more than three passengers,
      and equal-length name and age lists stay equal in length. */
  lemma AddKeepsBounds(p: Page, index: nat)
    requires index < |p.records| && AddOffered(p, index)
    ensures |AddPassenger(p, index).records[index].passengerNames| <= 3
    ensures |p.records[index].passengerNames| == |p.records[index].passengerAges| ==>
      |AddPassenger(p, index).records[index].passengerNames| == |AddPassenger(p, index).records[index].passengerAges|
  {
  }

  /** `splice(i, 1)` at a non-negative index: the entry at `i` is removed,
      or nothing when `i` is past the end. */
  function Splice<T>(s: seq<T>, i: nat): (r: seq<T>)
    ensures i < |s| ==>
      |r| == |s| - 1
      && (forall j :: 0 <= j < i ==> r[j] == s[j])
      && (forall j :: i <= j < |r| ==> r[j] == s[j + 1])
    ensures i >= |s| ==> r == s
  {
    if i < |s| then s[..i] + s[i + 1..] else s
  }

  /** `handleDeletePassenger`: passenger `passengerIndex` is removed from
      both lists of record `index`; lists of equal length stay equal. */
  function DeletePassenger(p: Page, index: nat, passengerIndex: nat): (r: Page)
    requires index < |p.records|
    ensures OnlyRecordChanged(p, r, index)
    ensures r.records[index] == p.records[index].(passengerNames := Splice(p.records[index].passengerNames, passengerIndex),
                                                  passengerAges := Splice(p.records[index].passengerAges, passengerIndex))
    ensures |p.records[index].passengerNames| == |p.records[index].passengerAges| ==>
      |r.records[index].passengerNames| == |r.records[index].passengerAges|
  {
    var d := p.records[index];
    WithRecord(p, index, d.(passengerNames := Splice(d.passengerNames, passengerIndex),
                            passengerAges := Splice(d.passengerAges, passengerIndex)))
  }

  // ---------------------------------------------------------------- records

  /** `records.filter((_, i) => i !== index)`, walked from position
      `from` on. */
  function FilterOut(records: seq<FormData>, index: nat, from: nat): seq<FormData>
    decreases records
  {
    if records == [] then []
    else (if from == index then [] else [records[0]]) + FilterOut(records[1..], index, from + 1)
  }

  /** Filtering out position `index` removes exactly that record and keeps
      the others in order. */
  lemma {:induction false} FilterOutRemoves(records: seq<FormData>, index: nat, from: nat)
    requires from <= index < from + |records|
    ensures FilterOut(records, index, from) == records[..index - from] + records[index - from + 1..]
    decreases records
  {
    var m := index - from;
    if from == index {
      FilterOutKeeps(records[1..], index, from + 1);
      assert records[..0] + records[1..] == records[1..];
    } else {
      var tail := records[1..];
      FilterOutRemoves(tail, index, from + 1);
      var front, back := tail[..m - 1], tail[m..];
      assert FilterOut(records, index, from) == [records[0]] + (front + back);
      assert records[..m] == [records[0]] + front;
      assert records[m + 1..] == back;
      assert [records[0]] + (front + back) == ([records[0]] + front) + back;
    }
  }

  /** Past the index, the filter keeps everything. */
  lemma {:induction false} FilterOutKeeps(records: seq<FormData>, index: nat, from: nat)
    requires from > index
    ensures FilterOut(records, index, from) == records
    decreases records
  {
    if records != [] {
      FilterOutKeeps(records[1..], index, from + 1);
      assert records == [records[0]] + records[1..];
    }
  }

  /** `handleDelete`: the record's id goes to the delete callback, and the
      record, alone, leaves the list; the others stay in order. */
  function Delete(p: Page, index: nat): (r: (Page, string))
    requires index < |p.records|
    ensures r.1 == p.records[index].id
    ensures r.0.editing == p.editing
    ensures r.0.records == p.records[..index] + p.records[index + 1..]
  {
    FilterOutRemoves(p.records, index, 0);
    (p.(records := FilterOut(p.records, index, 0)), p.records[index].id)
  }

  /** `handleSave`: each record is handed to the update callback once, in
      list order, and edit mode ends. The records handed over are
      returned. */
  method Save(p: Page) returns (r: Page, updates: seq<FormData>)
    ensures updates == p.records
    ensures r == p.(editing := false)
  {
    updates := [];
    var i := 0;
    while i < |p.records|
      invariant 0 <= i <= |p.records|
      invariant updates == p.records[..i]
    {
      updates := updates + [p.records[i]];
      i := i + 1;
    }
    r := p.(editing := false);
  }

  /** The Edit button. */
  function Edit(p: Page): (r: Page)
    ensures r.editing && r.records == p.records
  {
    p.(editing := true)
  }

  /** The Cancel button leaves edit mode but keeps every edit made: the
      records are not restored. */
  function Cancel(p: Page): (r: Page)
    ensures !r.editing && r.records == p.records
  {
    p.(editing := false)
  }

  /** Editing a field and cancelling does not undo the edit. */
  lemma CancelKeepsEdits(p: Page, index: nat, text: string)
    requires index < |p.records| && p.records[index].fullName != text
    ensures Cancel(InputChange(Edit(p), index, FullNameInput, text)).records != p.records
  {
    var r := Cancel(InputChange(Edit(p), index, FullNameInput, text));
    assert r.records[index].fullName == text;
  }

  // ---------------------------------------------------------------- stored ages

  /** `PassengerAges.split("\n").map(Number)`: the load-time decoding of
      the stored ages. */
  function DecodeAges(text: string): (r: seq<Option<int>>)
    ensures |r| >= 1
  {
    var parts := Split(text, '\n');
    seq(|parts|, i requires 0 <= i < |parts| => NumberOf(parts[i]))
  }

  /** No age text holds a line break. */
  lemma AgeTextOneLine(age: Option<int>)
    ensures !Contains(AgeText(age), '\n')
  {
    if age.Some? {
      var s := NatToString(if age.value < 0 then -age.value else age.value);
      assert forall i :: 0 <= i < |s| ==> IsDigit(s[i]);
      if age.value < 0 {
        assert AgeText(age) == "-" + s;
        assert forall i :: 0 < i < |AgeText(age)| ==> AgeText(age)[i] == s[i - 1];
      }
    }
  }

  /** Decoding inverts the submit-time encoding for every non-empty list
      of defined ages. */
  lemma {:induction false} AgesRoundTrip(ages: seq<Option<int>>)
    requires |ages| >= 1 && forall i :: 0 <= i < |ages| ==> ages[i].Some?
    ensures DecodeAges(AgesText(ages)) == ages
  {
    var texts := AgeTexts(ages);
    forall k | 0 <= k < |texts| ensures !Contains(texts[k], '\n') {
      AgeTextOneLine(ages[k]);
    }
    SplitJoin(texts, '\n');
    var decoded := DecodeAges(AgesText(ages));
    assert |decoded| == |ages|;
    forall i | 0 <= i < |ages| ensures decoded[i] == ages[i] {
      NumberOfIntToString(ages[i].value);
    }
  }

  /** Where the decoding does not invert the encoding: an empty list and a
      single undefined age both come back as one age of 0. */
  lemma AgesRoundTripFails()
    ensures DecodeAges(AgesText([])) == [Some(0)]
    ensures DecodeAges(AgesText([None])) == [Some(0)]
  {
    assert AgesText([]) == [];
    assert AgeTexts([None]) == [""];
    assert AgesText([None]) == [];
    assert NumberOf([]) == Some(0);
  }
}
