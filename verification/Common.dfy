/** What the other modules share: optional values, powers of two, and instants counted in nanoseconds. */
module Common {

  datatype Option<+T> = None | Some(value: T)

  const TWO_16: nat := 0x1_0000
  const TWO_32: nat := 0x1_0000_0000
  const TWO_63: int := 0x8000_0000_0000_0000
  const TWO_64: int := 0x1_0000_0000_0000_0000

  const SECOND: int := 1_000_000_000

  /** `time.Time.Unix()`: the whole second an instant lies in. */
  function Unix(now: int): int {
    now / SECOND
  }
}
