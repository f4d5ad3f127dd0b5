/** The optional value used for every fallible platform call and every Swift optional. */
module Options {

  /** `None` stands for Swift's `nil` and for a call that threw. */
  datatype Option<+T> = None | Some(value: T)
}
