/** The Some/None datatype the other modules use where the programs use null or None. */
module Options {
  datatype Option<+T> = None | Some(value: T)
}
