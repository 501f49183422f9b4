/** The JavaScript value shapes the booking form stores: optional values
    (`undefined` or a value) and `Date` objects, which are either invalid or
    an instant counted in milliseconds since 1970-01-01T00:00:00Z. */
module JsValues {

  /** `undefined` or a value. */
  datatype Option<+T> = None | Some(value: T) {
    function GetOr(default: T): T {
      match this
      case Some(v) => v
      case None => default
    }
  }

  /** A JavaScript `Date` object. `Invalid` is the "Invalid Date" that
      `new Date(...)` and `Date.UTC(...)` produce from unusable input; it is a
      truthy object, and every relational comparison involving it is false. */
  datatype Moment = Invalid | At(ms: int)

  /** `a < b` between two `Date` objects (both compared through their time value). */
  predicate Before(a: Moment, b: Moment) {
    a.At? && b.At? && a.ms < b.ms
  }

  /** `a <= b` between two `Date` objects. */
  predicate AtOrBefore(a: Moment, b: Moment) {
    a.At? && b.At? && a.ms <= b.ms
  }

  /** Milliseconds in one UTC day. */
  const MsPerDay: int := 86_400_000
}
