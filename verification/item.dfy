/** A physical object the players bring to the game. */
module Items {

  /** An immutable value: the object's name and a description of its shape.
      Any strings are accepted; nothing is validated. */
  datatype Item = Item(title: string, shape: string)
}
