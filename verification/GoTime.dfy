/** Package time as the SDK uses it: instants in nanoseconds since the Unix epoch, 64-bit Durations. */
module GoTime {
  const SECOND := 1_000_000_000
  const MAX_DURATION := 0x7FFF_FFFF_FFFF_FFFF
  const MIN_DURATION := -0x8000_0000_0000_0000

  /** Time.Sub, saturated at the bounds of a Duration. */
  function Sub(t: int, u: int): int {
    var d := t - u;
    if d > MAX_DURATION then MAX_DURATION else if d < MIN_DURATION then MIN_DURATION else d
  }
}
