/** Small failure-carrying datatypes shared by the handlers. */
module Wrappers {

  datatype Option<+T> = None | Some(value: T)

  /** The outcome of a handler: a value, or a fatal error that ends the invocation
      (the handlers call log.Fatalf on every infrastructure error). */
  datatype Outcome<+T> = Done(value: T) | Fatal(reason: string)
}
