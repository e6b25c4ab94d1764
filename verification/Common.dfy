// What every component uses.
module Common {

  datatype Option<T> = None | Some(value: T)

  // Machine words have 32 bits.
  const WORD_RANGE: nat := 0x1_0000_0000
}
