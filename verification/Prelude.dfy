/** Values shared by every module: results, identities and UTC time. */
module Prelude {

  datatype Option<+T> = None | Some(value: T) {
    function GetOr(default: T): T {
      if Some? then value else default
    }
  }

  /** A value, or the exception the original raises. */
  datatype Result<+T, +E> = Ok(value: T) | Err(error: E) {
    predicate IsFailure() {
      Err?
    }

    function PropagateFailure<U>(): Result<U, E>
      requires Err?
    {
      Err(error)
    }

    function Extract(): T
      requires Ok?
    {
      value
    }
  }

  /** A UUID by its 128-bit number; the order of that number is the order of its text. */
  type Uuid = nat

  /** A digest by the number its hexadecimal text denotes. */
  type Digest = nat

  /** Microseconds on the UTC clock. */
  type Instant = int

  /** A calendar day, counted from the same origin as Instant. */
  type Date = int

  const MICROSECONDS_PER_DAY: int := 86_400_000_000

  function DateOf(t: Instant): Date {
    t / MICROSECONDS_PER_DAY
  }

  function Days(microseconds: int): real {
    microseconds as real / MICROSECONDS_PER_DAY as real
  }
}
