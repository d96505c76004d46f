/** Small failure-compatible wrapper types shared by the other modules. */
module Options {

  datatype Option<+T> = None | Some(value: T)

  /** Outcome of a visitor call or of a whole enumeration. */
  datatype Status = Ok | Failed(code: int)
}
