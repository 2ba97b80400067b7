/** Values shared by every store of the model. */
module Common {

  /** Java's Optional: a value that may be absent. */
  datatype Option<+T> = None | Some(value: T)

  /**
   * The id of an entity that has not been persisted yet. Java leaves the
   * id field null until the database assigns one; every store hands out
   * ids greater than this value.
   */
  const UnsavedId: int := 0
}
