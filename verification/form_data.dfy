// The booking draft: one record per booking, shared by the registration
// wizard (which fills it in) and the user-data page (which edits stored
// ones).

module FormDataTypes {
  import opened JsValues

  /** The chosen identity document: its file name and MIME type. */
  datatype UploadedFile = UploadedFile(name: string, mimeType: string)

  /** `IFormData`. `age` and each passenger age are `None` when undefined.
      `cardNumber` and `cvv` hold the text `String(n)` of the number the
      payment step stores (`"0"` for zero, `"NaN"` for an unparsable entry);
      the user-data page stores the typed text there instead. */
  datatype FormData = FormData(
    id: string,
    fullName: string,
    email: string,
    password: string,
    phoneNumber: string,
    gender: string,
    age: Option<int>,
    departureCity: string,
    destinationCity: string,
    travelDate: Option<Moment>,
    returnDate: Option<Moment>,
    travelTime: string,
    numberOfPassengers: int,
    passengerNames: seq<string>,
    passengerAges: seq<Option<int>>,
    identityProof: string,
    identityProofNumber: string,
    seatType: string,
    windowSeatPreference: bool,
    foodPreference: string,
    insuranceOption: bool,
    cardNumber: string,
    expiryDate: string,
    cvv: string,
    additionalInfo: string,
    uploadedFile: Option<UploadedFile>)

  /** The passenger count agrees with both passenger lists. */
  predicate PassengersParallel(f: FormData) {
    |f.passengerNames| == |f.passengerAges| == f.numberOfPassengers
  }

  /** The empty draft the wizard starts from and returns to after a
      successful booking: one passenger with an empty name and no age,
      every text empty, both flags off, zero card number and CVV. */
  function InitialFormData(): (f: FormData)
    ensures PassengersParallel(f) && f.numberOfPassengers == 1
    ensures f.passengerNames == [""] && f.passengerAges == [None]
    ensures f.fullName == f.email == f.password == f.phoneNumber == f.gender == ""
    ensures f.age.None? && f.travelDate.None? && f.returnDate.None? && f.uploadedFile.None?
    ensures f.cardNumber == "0" && f.cvv == "0"
  {
    FormData(
      id := "", fullName := "", email := "", password := "", phoneNumber := "",
      gender := "", age := None, departureCity := "", destinationCity := "",
      travelDate := None, returnDate := None, travelTime := "",
      numberOfPassengers := 1, passengerNames := [""], passengerAges := [None],
      identityProof := "", identityProofNumber := "", seatType := "",
      windowSeatPreference := false, foodPreference := "", insuranceOption := false,
      cardNumber := "0", expiryDate := "", cvv := "0", additionalInfo := "",
      uploadedFile := None)
  }
}
