/** The optional value used where the model may have nothing to return:
    a mine field whose candidate positions ran out, or a game that could not restart. */
module Options {

  datatype Option<+T> = None | Some(value: T)
}
