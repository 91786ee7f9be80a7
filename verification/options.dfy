/** The optional value the game code signals with `null`: no winner yet,
    no move available. */
module Options {

  datatype Option<+T> = None | Some(value: T)

}
