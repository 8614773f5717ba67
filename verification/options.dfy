/** The optional-value datatype used for operations that can fail. */
module Options {

  /** `None` stands for a failure (in the codec: a `UnicodeDecodeError`),
      `Some(v)` for a successful result `v`. */
  datatype Option<+T> = None | Some(value: T)
}
