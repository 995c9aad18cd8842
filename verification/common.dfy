/** Value types shared by the whole model: identifiers, timestamps, Java's nullable
    references and `java.util.Optional`, and the failures an operation can end with. */
module Common {

  /** A `java.util.UUID`: a 128-bit value the model never looks inside. */
  newtype Uuid = x: int | 0 <= x < 0x1_0000_0000_0000_0000_0000_0000_0000_0000

  /** A `java.time.LocalDateTime`, abstracted to a totally ordered value:
      `a.isAfter(b)` is `a > b`. */
  type Time = int

  /** A `java.time.Instant`; it only appears in the audit fields. */
  type Instant = int

  /** A Java reference that may be `null`. */
  datatype Nullable<+T> = Null | Ref(value: T)

  /** A `java.util.Optional`: absent means "leave unchanged" in an update request. */
  datatype Option<+T> = None | Some(value: T) {

    /** `Optional.orElse`: the present value, or `other` when absent. */
    function OrElse(other: T): T {
      match this
      case Some(v) => v
      case None => other
    }
  }

  /** The ways an operation of the core can fail. */
  datatype Failure =
    | NullPointer                              // a required argument was null
    | StartIsAfterEnd(start: Time, end: Time)  // domain/StartIsAfterEndException
    | ConstraintViolation(field: string)       // a bean-validation annotation rejected `field`

  /** The outcome of constructing a value that may throw. */
  datatype Result<+T> = Ok(value: T) | Err(failure: Failure)
}
