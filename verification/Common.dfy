/** Definitions that the models share. */
module Common {
  datatype Option<T> = None | Some(value: T)

  const INT_MAX: nat := 0x7fff_ffff
  const U32: nat := 0x1_0000_0000
  const U64: nat := 0x1_0000_0000_0000_0000
}
