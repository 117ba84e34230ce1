/** What several modules share. */
module Common {
  datatype Option<+T> = None | Some(value: T)

  /** The number of values of a uint64. */
  const TWO64: int := 0x1_0000_0000_0000_0000
}
