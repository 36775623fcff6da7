/** The usual optional value, used where the C code returns NULL for "nothing". */
module Options {
  datatype Option<+T> = None | Some(value: T)
}
