/** The Ruby exceptions that the study converter can raise, and the
    failure-carrying datatypes the model uses in their place. */
module RubyErrors {

  /** An exception that aborts the conversion. */
  datatype Error =
    /** A method called on `nil`, such as `nil.size` or `nil.chomp`. */
    | NoMethodError(name: string)
    /** `Array#transpose` on rows of different lengths: "element size differs (got should be expected)". */
    | IndexError(got: nat, expected: nat)

  datatype Option<T> = None | Some(value: T)

  datatype Result<T> = Ok(value: T) | Err(error: Error)
}
