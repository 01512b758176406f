/** The optional value used for empty board slots, missing neighbours and the
    absent best move. */
module Options {

  datatype Option<+T> = None | Some(value: T)
}
