/** Types shared by the whole model of the file server. */
module Common {

  /** A Go `byte`. */
  newtype byte = x: int | 0 <= x < 256

  /** The usual Some/None datatype; `None` stands for a Go call that returned an error. */
  datatype Option<+T> = None | Some(value: T)
}
