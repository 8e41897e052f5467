/**
  Outcomes of the engine's operations. The Java code reports failure by
  throwing; here every throw becomes an `Err` carrying which exception and
  which argument the message names.
 */
module Errors {

  /** The argument an `IllegalArgumentException` message complains about. */
  datatype Arg =
    | StartAddress   // sellTicket: start index out of range
    | EndAddress     // sellTicket: end index out of range
    | Seat           // sellTicket: seat index out of range
    | BefStart       // befContainAft: befStart out of range
    | BefEnd         // befContainAft: befEnd out of range
    | AftStart       // befContainAft: the message that names aftStart
    | AftEnd         // befContainAft: aftEnd out of range
    | BefInterval    // befContainAft: befStart >= befEnd
    | AftInterval    // befContainAft: aftStart >= aftEnd

  datatype Error =
    | IllegalArgument(arg: Arg)
    | IndexOutOfBounds          // java.util.List.add(index, e) or get(i) with a bad index

  datatype Option<T> = None | Some(value: T)

  /** The value a Java call returns, or the exception it throws. */
  datatype Result<T> = Ok(value: T) | Err(error: Error)
}
