// The travel-details step's field handlers: travel date, return date, the
// two cities and the travel time. Dates arrive already parsed (`None` for
// an empty field); the current time and today's local midnight are
// parameters.

module TravelDetails {
  import opened JsValues
  import opened FormDataTypes
  import opened FieldErrors

  const PastTravelDate: string := "Travel date cannot be in the past."
  const BadReturnDate: string := "Return date should be after travel date and not the current date."
  const SameCities: string := "Departure and Destination cannot be the same."

  /** `handleTravelDateChange`: a date before today's midnight is refused
      (the message is set, the draft keeps its old date); anything else,
      an emptied field included, is stored and clears the message. */
  function TravelDateChange(f: Form, date: Option<Moment>, todayMidnight: int): (r: Form)
    ensures OnlyKeyWritten(f.errors, r.errors, TravelDate)
    ensures date.Some? && Before(date.value, At(todayMidnight)) ==>
      r.draft == f.draft && r.errors[TravelDate] == PastTravelDate
    ensures !(date.Some? && Before(date.value, At(todayMidnight))) ==>
      r.draft == f.draft.(travelDate := date) && r.errors[TravelDate] == ""
  {
    if date.Some? && Before(date.value, At(todayMidnight)) then
      WriteKey(f.errors, TravelDate, PastTravelDate);
      Form(f.draft, f.errors[TravelDate := PastTravelDate])
    else
      WriteKey(f.errors, TravelDate, "");
      Form(f.draft.(travelDate := date), f.errors[TravelDate := ""])
  }

  /** The return date is refused when it is not after the current time,
      or not after the travel date when one is set. */
  predicate ReturnRefused(date: Option<Moment>, travelDate: Option<Moment>, now: int) {
    date.Some? && (AtOrBefore(date.value, At(now)) || (travelDate.Some? && AtOrBefore(date.value, travelDate.value)))
  }

  /** `handleReturnDateChange`: a refused date sets the message and keeps
      the old return date; anything else, an emptied field included, is
      stored and clears the message. */
  function ReturnDateChange(f: Form, date: Option<Moment>, now: int): (r: Form)
    ensures OnlyKeyWritten(f.errors, r.errors, ReturnDate)
    ensures ReturnRefused(date, f.draft.travelDate, now) ==>
      r.draft == f.draft && r.errors[ReturnDate] == BadReturnDate
    ensures !ReturnRefused(date, f.draft.travelDate, now) ==>
      r.draft == f.draft.(returnDate := date) && r.errors[ReturnDate] == ""
    ensures date.None? ==> r.draft.returnDate.None?
  {
    if ReturnRefused(date, f.draft.travelDate, now) then
      WriteKey(f.errors, ReturnDate, BadReturnDate);
      Form(f.draft, f.errors[ReturnDate := BadReturnDate])
    else
      WriteKey(f.errors, ReturnDate, "");
      Form(f.draft.(returnDate := date), f.errors[ReturnDate := ""])
  }

  /** A valid return date the handler stores is after the current time
      and strictly after a valid travel date. */
  lemma ReturnAfterTravel(f: Form, date: Option<Moment>, now: int)
    requires date.Some? && date.value.At?
    requires ReturnDateChange(f, date, now).draft.returnDate == date
    requires f.draft.returnDate != date
    ensures date.value.ms > now
    ensures f.draft.travelDate.Some? && f.draft.travelDate.value.At? ==>
      date.value.ms > f.draft.travelDate.value.ms
  {
  }

  /** The two city dropdowns. */
  datatype City = Departure | Destination

  /** Both cities chosen and the same. */
  predicate SameCity(d: FormData) {
    d.departureCity != "" && d.destinationCity != "" && d.departureCity == d.destinationCity
  }

  /** `handleCityChange`: the chosen key is stored in the one city changed
      (nothing chosen stores the empty text); both city messages are then
      set together, to the same-city message exactly when both cities are
      chosen and equal, and cleared otherwise. */
  function CityChange(f: Form, city: City, option: Option<string>): (r: Form)
    ensures city == Departure ==> r.draft == f.draft.(departureCity := option.GetOr(""))
    ensures city == Destination ==> r.draft == f.draft.(destinationCity := option.GetOr(""))
    ensures r.errors.Keys == f.errors.Keys + {DepartureCity, DestinationCity}
    ensures forall k :: k in f.errors && k != DepartureCity && k != DestinationCity ==> r.errors[k] == f.errors[k]
    ensures r.errors[DepartureCity] == r.errors[DestinationCity]
    ensures r.errors[DepartureCity] == (if SameCity(r.draft) then SameCities else "")
  {
    var d := match city
      case Departure => f.draft.(departureCity := option.GetOr(""))
      case Destination => f.draft.(destinationCity := option.GetOr(""));
    var message := if SameCity(d) then SameCities else "";
    Form(d, f.errors[DepartureCity := message][DestinationCity := message])
  }

  /** Choosing the city already chosen on the other side always raises the
      same-city message on both. */
  lemma CityClash(f: Form, city: City, name: string)
    requires name != ""
    requires city == Departure ==> f.draft.destinationCity == name
    requires city == Destination ==> f.draft.departureCity == name
    ensures CityChange(f, city, Some(name)).errors[DepartureCity] == SameCities
    ensures CityChange(f, city, Some(name)).errors[DestinationCity] == SameCities
  {
  }

  /** `handleTravelTimeChange`: the chosen key is stored (nothing chosen
      stores the empty text); the message is empty exactly when a
      non-empty key was chosen. */
  function TravelTimeChange(f: Form, option: Option<string>): (r: Form)
    ensures r.draft == f.draft.(travelTime := option.GetOr(""))
    ensures OnlyKeyWritten(f.errors, r.errors, TravelTime)
    ensures r.errors[TravelTime] == "" <==> r.draft.travelTime != ""
  {
    var time := option.GetOr("");
    var message := if time != "" then "" else "Travel time is required.";
    WriteKey(f.errors, TravelTime, message);
    Form(f.draft.(travelTime := time), f.errors[TravelTime := message])
  }
}
