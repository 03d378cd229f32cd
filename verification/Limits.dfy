/** Build-time limits of the forwarder. */
module Limits {

  /** RTE_MAX_ETHPORTS */
  const MAX_PORTS := 32
  const MAX_PKT_BURST := 32
  /** Groups of at least this size may bypass an empty TX buffer. */
  const MAX_TX_BURST := MAX_PKT_BURST / 2
}
