/**
 The run-time failures of a student record.

 The record keeps its mark history in an `ArrayList<int[]>` and reads it by
 index; reading past the end of the list or past the end of one year's array
 throws. Those two exceptions are the only ways its operations fail, and they
 are modelled here as values rather than as preconditions.
 */
module Outcomes {

  /** Why an operation on a record could not complete. */
  datatype Fault =
      /** The history has no mark set for year index `year` (the list read fails). */
    | MissingYear(year: nat)
      /** The mark set of year index `year` has only `length` entries (the array read fails). */
    | MissingModule(year: nat, length: nat)

  /** The value of an operation, or the fault that stopped it. */
  datatype Result<+T> = Success(value: T) | Failure(fault: Fault)
}
