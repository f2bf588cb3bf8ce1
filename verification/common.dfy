/** Shared vocabulary of the library model: optional values, outcomes, identifiers and time. */
module Common {

  datatype Option<+T> = None | Some(value: T)

  /** Whether a step that can raise an exception went through. */
  datatype Outcome<+E> = Pass | Fail(error: E)

  datatype Result<+R, +E> = Ok(value: R) | Err(error: E)

  /** Primary keys of the three tables; the user table belongs to the framework's auth app. */
  type UserId = nat
  type BookId = nat
  type CheckoutId = nat

  /** Time is whole seconds since an arbitrary epoch; a duration of one day is this many seconds. */
  const SecondsPerDay: int := 86400

  /** Default loan length used by Checkout.save and by the checkout view. */
  const LoanDays: int := 14

  /** Late fee per whole day late, in currency units. */
  const FeePerDay: int := 1

  /** `timedelta.days`: whole days in a duration, rounded toward minus infinity. */
  function WholeDays(seconds: int): (d: int)
    ensures d * SecondsPerDay <= seconds < (d + 1) * SecondsPerDay
  {
    seconds / SecondsPerDay
  }

  function Max(a: int, b: int): int { if a < b then b else a }

  function Min(a: int, b: int): int { if a < b then a else b }
}
