/** The nullable values of the two pages: an optional rule detail string and an
    upload slot that may be empty. */
module Options {

  /** `None` stands for JavaScript's `null` / `undefined`. */
  datatype Option<+T> = None | Some(value: T)
}
