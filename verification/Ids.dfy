/** Identifiers and clock readings. */
module Ids {
  const UUID_COUNT: nat := 0x1_0000_0000_0000_0000_0000_0000_0000_0000

  /** A UUID, ordered as its 128-bit number. */
  type Uuid = n: nat | n < UUID_COUNT

  /** A clock reading in microseconds. */
  type Time = int

  const SECOND: int := 1_000_000
}
