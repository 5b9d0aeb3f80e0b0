/** Small failure-carrying datatypes shared by every module. */
module Wrappers {

  /** A value that may be absent: Python's `None` or a present value. */
  datatype Option<+T> = None | Some(value: T)

  /** The outcome of a call that may raise: `Raised` stands for any exception
      escaping the call, `Returned(v)` for a normal return of `v`. */
  datatype Outcome<+T> = Raised | Returned(value: T)

  /** Python truthiness of an optional string: `None` and `""` are falsy. */
  predicate Truthy(s: Option<string>) {
    s.Some? && s.value != ""
  }
}
