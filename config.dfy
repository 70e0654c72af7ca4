/**
 * The protocol's parameters: the peer capacity, the interval between
 * discovery broadcasts, the two UDP ports and the read timeout.
 */
module Config {
  /** Go's `time.Duration`: a signed 64-bit count of nanoseconds. */
  type Duration = int

  const Nanosecond: Duration := 1
  const Millisecond: Duration := 1_000_000 * Nanosecond
  const Second: Duration := 1000 * Millisecond
  const Minute: Duration := 60 * Second

  predicate IsInt64(x: int) {
    -0x8000_0000_0000_0000 <= x < 0x8000_0000_0000_0000
  }

  const DefaultMaxPeers: int := 64
  const DefaultBroadcastInterval: Duration := 5 * Second

  /** The UDP port discovery broadcasts are sent to and received on. */
  const BroadcastPort: int := 21451
  /** The UDP port peers are addressed on directly. */
  const UnicastPort: int := 21450

  /** How long a connection read waits before giving up. */
  const ConnReadTimeout: Duration := 200 * Millisecond

  datatype Config = Config(
    maxPeers: int,               // once this many peers are registered, no more are added
    broadcastInterval: Duration) // the time between two discovery broadcasts

  /** A usable configuration: room for at least one peer and a positive
      interval that a `time.Duration` can hold. */
  predicate Valid(c: Config) {
    && 0 < c.maxPeers
    && 0 < c.broadcastInterval && IsInt64(c.broadcastInterval)
  }

  /** The configuration built from the protocol's defaults. */
  function MakeDefaultConfig(): (c: Config)
    ensures Valid(c)
    ensures c.maxPeers == 64 && c.broadcastInterval == 5_000_000_000
    ensures ConnReadTimeout < c.broadcastInterval
  {
    Config(DefaultMaxPeers, DefaultBroadcastInterval)
  }

  /** The configuration the tests use: a single peer, and broadcasts rare
      enough that only the first one matters. */
  function MakeTestingConfig(): (c: Config)
    ensures Valid(c)
    ensures c.maxPeers == 1 && c.broadcastInterval == 600_000_000_000
    ensures ConnReadTimeout < c.broadcastInterval
  {
    Config(1, 10 * Minute)
  }

  /** The two ports are distinct valid UDP ports, next to each other. */
  lemma PortsDistinct()
    ensures 0 < UnicastPort < BroadcastPort <= 65535
    ensures BroadcastPort == UnicastPort + 1
  {
  }

  /** The read timeout is shorter than both configured broadcast intervals,
      by a factor of 25 for the defaults. */
  lemma ReadTimeoutShorterThanIntervals()
    ensures ConnReadTimeout == 200_000_000
    ensures ConnReadTimeout * 25 == MakeDefaultConfig().broadcastInterval
    ensures ConnReadTimeout < MakeTestingConfig().broadcastInterval
  {
  }
}
