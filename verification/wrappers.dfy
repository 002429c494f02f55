/** The optional value the ranking search returns where the program answers
    with `None` (no matching row, no parse). */
module Wrappers {

  datatype Option<+T> = None | Some(value: T)
}
