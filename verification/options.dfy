/** The optional value used wherever the generator may find nothing
    (Python's `None`). */
module Options {

  datatype Option<+T> = None | Some(value: T)
}
