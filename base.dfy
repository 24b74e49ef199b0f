/** Machine integer widths and the failure-carrying results shared by the model. */
module Base {

  const TwoTo31: int := 0x8000_0000
  const TwoTo32: int := 0x1_0000_0000
  const TwoTo64: int := 0x1_0000_0000_0000_0000
  const TwoTo128: int := 0x1_0000_0000_0000_0000_0000_0000_0000_0000

  /** C `uint` (32-bit unsigned). */
  type uint32 = x: int | 0 <= x < TwoTo32

  /** C `ullong` (64-bit unsigned). */
  type uint64 = x: int | 0 <= x < TwoTo64

  /** C `uint` subtraction, which wraps modulo 2^32. */
  function Sub32(x: uint32, y: uint32): (r: uint32)
    ensures x >= y ==> r == x - y
    ensures x < y ==> r == x - y + TwoTo32
  {
    (x - y) % TwoTo32
  }

  datatype Option<+T> = None | Some(value: T)

  /** Errors the engine reports; `TableFull` is the source's "The hash table is full!" exit. */
  datatype Error = TableFull

  datatype Result<+T> = Ok(value: T) | Err(error: Error)

  datatype Outcome = Pass | Fail(error: Error)
}
