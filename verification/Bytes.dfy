/** Bytes, 32-bit words, and optional results. */
module Bytes {
  const TWO_32: nat := 0x1_0000_0000

  type Byte = x: int | 0 <= x < 256

  datatype Option<+T> = None | Some(value: T) {
    predicate IsFailure() { None? }
    function PropagateFailure<U>(): Option<U>
      requires None?
    {
      None
    }
    function Extract(): T
      requires Some?
    {
      value
    }
  }
}
