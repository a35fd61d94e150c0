/** The optional value used where the game keeps `None` or a value:
    the pending direction and the last vacated cell of the snake. */
module Optional {

  datatype Option<+T> = None | Some(value: T)
}
