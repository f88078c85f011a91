/** The optional value used for empty cells, pending draws and detector results. */
module Options {

  /** `None` plays the part of the source's `null`. */
  datatype Option<+T> = None | Some(value: T)
}
