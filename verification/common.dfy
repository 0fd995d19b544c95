/** What several parts of the model share. */
module Common {
  // uint64_t, size_t and unsigned long count modulo this.
  const UINT64_RANGE: nat := 0x1_0000_0000_0000_0000

  datatype Option<T> = None | Some(value: T)
}
