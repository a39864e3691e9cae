/** The absent-or-present value used throughout the model: JavaScript's
    `undefined` (or a failed lookup) is `None`. */
module Optional {
  datatype Option<+T> = None | Some(value: T)
}
