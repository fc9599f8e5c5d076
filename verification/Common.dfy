/**
 * What several modules share: an optional value and the widths of the machine's integers.
 */
module Common {
  datatype Option<T> = None | Some(value: T)

  const INT_MAX := 0x7fff_ffff
  const TWO_TO_THE_32 := 0x1_0000_0000
  const TWO_TO_THE_64 := 0x1_0000_0000_0000_0000
}
