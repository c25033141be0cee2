/** Durations of the socket proxy, in nanoseconds. */
module Timing {
  const SECOND: int := 1_000_000_000
  const DIAL_TIMEOUT: int := 10 * SECOND
  const FAILOVER_COOLDOWN: int := 30 * SECOND
  const PROBE_INTERVAL: int := 15 * SECOND
  const PROBE_TIMEOUT: int := 5 * SECOND
}
