# pelotari_proto — a Dafny model of the discovery primitives

pelotari_proto is a zero-configuration peer-discovery protocol for hosts on
one local network: a node broadcasts a discovery token over UDP, other nodes
answer over unicast, and a short handshake makes them peers. This project
models the parts of the repository's `prototari` package that are
implemented so far and proves their properties:

- `ips.go`: choosing this host's private IPv4 address from its network
  interfaces (first match, skipping interfaces that are down, loopback or
  unreadable) and computing the directed broadcast address of its network
  (network bits kept, all host bits set, as in section 7 of RFC 919). The
  source computes it from the mask's first 4 bytes, which is that address
  for 4-byte masks but not for a mask in 16-byte form; the model follows the
  source and records the corrected computation under "## Findings".
  The interface list is an input; `To4`, `IsPrivate` and `Equal` of Go's
  `net.IP` are modelled in `net.dfy` (private means the blocks of section 3
  of RFC 1918, proved equal to their dotted-quad ranges).
- `peer.go`: peers identified by IP address only.
- `messages.go`: the five ASCII tokens and their byte lengths.
- `config.go`: default and testing configurations, ports and read timeout;
  durations are 64-bit nanosecond counts.
- `comms_manager.go`: a manager holding a broadcast connection; starting
  discovery writes the discovery token once, stopping does nothing. The
  connection is an object that records every payload written to it.

Files: `wrappers.dfy` (Option), `net.dfy`, `ips.dfy`, `messages.dfy`,
`config.dfy`, `peer.dfy`, `comms.dfy`, one module each.

## Model

| member | source | states |
|---|---|---|
| Net.To4 | prototari/ips.go:46 | an address has an IPv4 view exactly when it has 4 bytes or is a 16-byte IPv4-mapped address; the view is its last 4 bytes |
| Net.IsPrivateV4IsRfc1918 | prototari/ips.go:34 | for an IPv4 address, the private test holds exactly when the address lies in 10.0.0.0-10.255.255.255, 172.16.0.0-172.31.255.255 or 192.168.0.0-192.168.255.255 |
| Net.EqualIffSameCanonical | prototari/peer.go:39 | two IPs are equal exactly when their IPv4 views (or, lacking one, their bytes) coincide, so a 4-byte address equals its mapped 16-byte form |
| Net.EqualReflexive | prototari/peer.go:39 | every IP equals itself |
| Net.EqualSymmetric | prototari/peer.go:39 | IP equality does not depend on argument order |
| Net.EqualTransitive | prototari/peer.go:39 | IP equality is transitive |
| Net.V4InV6RoundTrip | prototari/peer.go:39 | the mapped form of a 4-byte address has that address as IPv4 view and is equal to it |
| Ips.BroadcastAddr | prototari/ips.go:44-62 | `calculateBroadcastAddr` as written, reading the mask's first 4 bytes: no result exactly for non-IPv4 addresses, otherwise an address of 4 bytes |
| Ips.BroadcastAddrBits | prototari/ips.go:56-59 | every byte of the broadcast address keeps the network bits (those set in the mask's first 4 bytes) of the address's IPv4 view and has every host bit set |
| Ips.BroadcastAddrUnique | prototari/ips.go:56-59 | any 4 bytes that keep the network bits and set all host bits are the broadcast address |
| Ips.BroadcastAddrIdempotent | prototari/ips.go:58 | the broadcast address of the broadcast address, under the same mask, is itself |
| Ips.BroadcastAddrCoversNetwork | prototari/ips.go:58 | every address with the network bits of the given one has all its set bits within the broadcast address: it is the network's highest address |
| Ips.NetworkBroadcastAddr | prototari/ips.go:44-62 | the corrected broadcast address: no result exactly for non-IPv4 addresses, otherwise 4 bytes, computed under the IPv4 part of the mask |
| Ips.NetworkBroadcastAddrBits | prototari/ips.go:56-59 | every byte of the corrected broadcast address keeps the network bits of the IPv4 view under the IPv4 part of the mask and has every host bit set, whether the mask has 4 or 16 bytes |
| Ips.BroadcastAddrAgreesUnlessWideMask | prototari/ips.go:47-58 | the source's result equals the corrected broadcast address for every mask whose length is not 16 bytes, shorter or longer |
| Ips.NetworkBroadcastAddrMaskForm | prototari/ips.go:47-58 | the corrected broadcast address is the same under a 4-byte mask and under its 16-byte form |
| Ips.BroadcastAddrWideMask | prototari/ips.go:47-58 | as written, ::ffff:192.168.1.5 under the 16-byte form of 255.255.255.0 yields 192.168.1.5, the host itself, while the 4-byte mask yields 192.168.1.255 |
| Ips.CalculateBroadcastAddr | prototari/ips.go:44-62 | the byte-by-byte loop over a fresh 4-byte buffer yields `BroadcastAddr`, the address with the complemented first 4 mask bytes OR-ed in, and nil for a non-IPv4 address |
| Ips.FirstCandidateFrom | prototari/ips.go:32-38 | the inner loop stops at the first `*net.IPNet` address that is IPv4 and private; none before it is; no result means none is |
| Ips.FirstAcceptedAddr | prototari/ips.go:32-38 | the loop over an interface's addresses stops at the index `FirstCandidateFrom` gives, and runs to the end exactly when it gives none |
| Ips.AcceptedAddrOf | prototari/ips.go:20-38 | one round of the loop over interfaces: a down, loopback or unreadable interface yields no address; otherwise the index of its first accepted address |
| Ips.MatchFrom | prototari/ips.go:20-39 | the two nested loops stop at the first match (an accepted address of an up, non-loopback, readable interface, none before it) and run to the end exactly when no such interface has an accepted address |
| Ips.Stop | prototari/ips.go:35-36 | at the accepted address the search panics exactly when its mask is shorter than the 4 bytes `calculateBroadcastAddr` indexes; otherwise it returns that address and its broadcast address |
| Ips.FirstMatchUnique | prototari/ips.go:20-38 | there is only one first match: the search can stop in one place only |
| Ips.FirstMatchIsSelected | prototari/ips.go:20-37 | when address j of interface i is accepted, no earlier address of i is and no earlier scanned interface has one, the search returns that address with its broadcast address as `calculateBroadcastAddr` computes it, or panics when its mask has fewer than 4 bytes |
| Ips.SkipInterface | prototari/ips.go:20-39 | the search passes over an interface that is skipped or has no accepted address and goes on with the next one |
| Ips.StopAtInterface | prototari/ips.go:32-37 | the search stops at an up, non-loopback, readable interface that has an accepted address, at the first such address |
| Ips.SelectedIsFirstMatch | prototari/ips.go:20-37 | a search that does not fail stopped at a first match, and a found address is a private IPv4 address |
| Ips.SelectFailsIffNoCandidate | prototari/ips.go:20-41 | the search reports that no private IPv4 address exists exactly when no up, non-loopback, readable interface has one |
| Ips.GetPrivateIPAndBroadcastAddr | prototari/ips.go:14-42 | returns the found address and broadcast address with no error, or two nils and the error: interfaces unavailable, or no private IPv4 address |
| Messages.TokenSpellings | prototari/messages.go:6-26 | the five payloads are the ASCII spellings of `pelotari?`, `aupa!`, `dale!`, `hor?` and `hemen nago!`, one byte per character |
| Messages.SpellsInjective | prototari/messages.go:6-26 | payloads spelling different texts are different |
| Messages.TokenLengths | prototari/messages.go:6-27 | each length constant is its token's byte length: 9, 5, 5, 4 and 11 |
| Messages.TokensDistinct | prototari/messages.go:6-26 | the five token payloads are pairwise different, so an exact comparison matches at most one |
| Config.MakeDefaultConfig | prototari/config.go:27-32 | 64 peers and a 5-second interval, a valid configuration (at least one peer, a positive interval within 64 bits); the read timeout is shorter than the interval |
| Config.MakeTestingConfig | prototari/config.go:34-39 | 1 peer and a 10-minute interval, a valid configuration; the read timeout is shorter than the interval |
| Config.PortsDistinct | prototari/config.go:9-10 | the unicast port 21450 and broadcast port 21451 are distinct valid UDP ports |
| Config.ReadTimeoutShorterThanIntervals | prototari/config.go:12 | the 200 ms read timeout is a 25th of the default interval and shorter than the testing one |
| Peers.MakePeerIdentity | prototari/peer.go:21-27 | a new peer has missed no heartbeat, is reached at its IP on the unicast port, and peers made at any times are equal exactly when their IPs are |
| Peers.EqualIgnoresBookkeeping | prototari/peer.go:36-40 | peer equality does not depend on last-seen time or missed heartbeats |
| Peers.EqualIsEquivalence | prototari/peer.go:38-40 | peer equality is reflexive, symmetric and transitive |
| Peers.EqualPeersShareAddress | prototari/peer.go:29-40 | equal peers have equal address IPs and the same (unicast, not broadcast) port; a peer made from a peer's address is equal to it |
| Comms.Conn.Write | prototari/fake_connection.go:18-21 | a write appends its payload to the connection's record and answers the configured count and error |
| Comms.CommsManager.MakeManager | prototari/comms_manager.go:13-17 | the new manager's broadcast connection is the one given |
| Comms.CommsManager.StartDiscovery | prototari/comms_manager.go:19-21 | exactly one payload, the discovery token's bytes, is added to the broadcast connection's record, whatever count and error the write returns; nothing else changes |
| Comms.CommsManager.StopDiscovery | prototari/comms_manager.go:23 | neither the manager nor its connection changes |

## Left out

- The operating-system queries `net.Interfaces()` and `iface.Addrs()` are inputs: their failure is a `None` in the query or in an interface's address list.
- Ips.GetPrivateIPAndBroadcastAddr: requires that the search does not panic. The panic Go raises when `calculateBroadcastAddr` indexes past the end of a mask shorter than 4 bytes is the `Panicked` outcome of `PrivateIPAndBroadcast`, and a panicking run returns nothing.
- Ips.CalculateBroadcastAddr: requires a mask of at least 4 bytes for an IPv4 address, for the same panic.
- The tokens are Go strings, that is byte sequences; they are held as their bytes, tied to their text by `Spells`.
- `net.Flags` is a 32-bit vector here; only the up and loopback bits are read.
- `time.Now()` in `MakePeer` is a parameter; times are integers of nanoseconds, without Go's monotonic clock reading.
- The IPv6 zone of `net.UDPAddr` is not modelled.
- The connection is modelled after the test double in `prototari/fake_connection.go`: only `Write` is modelled; reads, deadlines, addresses and closing are not, as the manager never uses them.
- `prototari/udp.go` (socket setup and plumbing), `prototari/test_doubles.go` (channel-based fakes), `prototari/connections.go` (interfaces only) and `main.go` (entry point, signals, logging) are not part of this model.
- The peer registry, the discovery/response/confirmation handshake and the start/stop lifecycle exercised by `prototari/comms_manager_test.go` do not exist in `prototari/comms_manager.go`, which only holds a broadcast connection; they are not modelled.
- The heartbeat tokens and the missed-heartbeat counter have no behaviour beyond their values, which are modelled.

## Findings

| source | as written | input that shows it | evidently intended | confidence | as-written member | corrected member |
|---|---|---|---|---|---|---|
| prototari/ips.go:47-58 | `calculateBroadcastAddr` ORs the address with the complement of the mask's first 4 bytes, whatever the mask's length | the IPv4-mapped address ::ffff:192.168.1.5 with the 16-byte form of the mask 255.255.255.0 (twelve 0xff bytes, then 255.255.255.0) gives 192.168.1.5, the host itself | use the IPv4 part of the mask, its last 4 bytes when it has 16, as Go's `net.IP.Mask` does for a mask in that form; the result is then 192.168.1.255 | low, not executed: the interface tables Go builds for IPv4 carry 4-byte masks, so the case needs a 16-byte mask from elsewhere | Ips.BroadcastAddrWideMask | Ips.NetworkBroadcastAddrMaskForm |
