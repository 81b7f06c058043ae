/**
 * Process-wide configuration of the monitor (poe_monitor.py:17-22).
 * Times are in seconds; the model never waits, it only records the
 * durations it would wait for.
 */
module Config {
  /** Consecutive failed probes that trigger a power cycle (poe_monitor.py:21). */
  const FAIL_THRESHOLD: int := 3
  /** How long a port is held unpowered during a power cycle (poe_monitor.py:22, 81). */
  const POE_OFF_TIME: nat := 10
}
