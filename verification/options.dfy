/** The optional value used where the source writes `T | null`. */
module Options {

  datatype Option<+T> = None | Some(value: T)
}
