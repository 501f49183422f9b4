// The wizard's error map: field key to message. The source keys it by
// strings, with `passengerName<i>` and `passengerAge<i>` built per
// passenger; here the keys are a datatype, so distinct fields and distinct
// passengers never collide by construction.

module FieldErrors {
  import opened JsValues
  import opened FormDataTypes

  datatype Field =
    | FullName | Email | Password | PhoneNumber | Age | Gender
    | DepartureCity | DestinationCity | TravelDate | ReturnDate | TravelTime
    | PassengerName(index: int) | PassengerAge(index: int)
    | PassengerNames | PassengerAges
    | IdentityProof | IdentityProofNumber | File
    | SeatType
    | CardNumber | ExpiryDate | Cvv

  /** A message per field; an empty message displays as no error. */
  type Errors = map<Field, string>

  /** The draft together with its error map: what the wizard's field
      handlers read and write. */
  datatype Form = Form(draft: FormData, errors: Errors)

  /** The message recorded for `k`, if any. */
  function MessageOf(e: Errors, k: Field): Option<string> {
    if k in e then Some(e[k]) else None
  }

  /** `{ ...prev, ...incoming }`: every incoming message wins, every other old
      message stays, nothing else appears. */
  function Merge(prev: Errors, incoming: Errors): (r: Errors)
    ensures r.Keys == prev.Keys + incoming.Keys
    ensures forall k :: k in incoming ==> r[k] == incoming[k]
    ensures forall k :: k in prev && k !in incoming ==> r[k] == prev[k]
    ensures forall k :: MessageOf(r, k) == if k in incoming then Some(incoming[k]) else MessageOf(prev, k)
  {
    prev + incoming
  }

  /** `after` is `before` with key `k` written: `k` present, every other
      key present exactly as before and with the same message. */
  predicate OnlyKeyWritten(before: Errors, after: Errors, k: Field) {
    after.Keys == before.Keys + {k}
    && forall j :: j in before && j != k ==> after[j] == before[j]
  }

  /** `after` is `before` with key `k` removed and nothing else touched. */
  predicate OnlyKeyDeleted(before: Errors, after: Errors, k: Field) {
    after.Keys == before.Keys - {k}
    && forall j :: j in after ==> after[j] == before[j]
  }

  /** Writing one key writes only that key. */
  lemma WriteKey(e: Errors, k: Field, message: string)
    ensures OnlyKeyWritten(e, e[k := message], k)
  {
  }

  /** Deleting one key deletes only that key. */
  lemma DeleteKey(e: Errors, k: Field)
    ensures OnlyKeyDeleted(e, e - {k}, k)
  {
  }
}
