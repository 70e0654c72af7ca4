/**
 * Peers: other hosts running the protocol, identified by their IP address.
 */
module Peers {
  import opened Net
  import Config

  /** A point in time, in nanoseconds; the clock is read by the caller. */
  type Time = int

  datatype Peer = Peer(
    ip: IP,                 // the peer's address inside the private network
    lastSeen: Time,         // when the last message from the peer arrived
    missedHeartbeats: int)  // heartbeats the peer has not answered

  /** `MakePeer`: a peer seen at `now` that has missed no heartbeat. */
  function MakePeer(ip: IP, now: Time): Peer {
    Peer(ip, now, 0)
  }

  /** `Address`: where the peer receives unicast messages. */
  function Address(p: Peer): UDPAddr {
    UDPAddr(p.ip, Config.UnicastPort)
  }

  /** `Equal`: peers are the same when their IP addresses are. */
  predicate Equal(p: Peer, q: Peer) {
    Net.Equal(p.ip, q.ip)
  }

  /** Equality ignores when a peer was last seen and how many heartbeats it missed. */
  lemma EqualIgnoresBookkeeping(p: Peer, q: Peer, seen: Time, missed: int)
    ensures Equal(p, q) <==> Equal(p.(lastSeen := seen, missedHeartbeats := missed), q)
    ensures Equal(p, q) <==> Equal(p, q.(lastSeen := seen, missedHeartbeats := missed))
  {
  }

  /** Equality of peers is an equivalence relation. */
  lemma EqualIsEquivalence(p: Peer, q: Peer, r: Peer)
    ensures Equal(p, p)
    ensures Equal(p, q) <==> Equal(q, p)
    ensures Equal(p, q) && Equal(q, r) ==> Equal(p, r)
  {
    Net.EqualSymmetric(p.ip, q.ip);
    if Equal(p, q) && Equal(q, r) {
      Net.EqualTransitive(p.ip, q.ip, r.ip);
    }
  }

  /** A new peer has missed no heartbeat and is reached at its own address
      on the unicast port; two peers made at any times are equal exactly when
      their addresses are. */
  lemma MakePeerIdentity(ip: IP, other: IP, t1: Time, t2: Time)
    ensures MakePeer(ip, t1).missedHeartbeats == 0
    ensures Address(MakePeer(ip, t1)) == UDPAddr(ip, Config.UnicastPort)
    ensures Equal(MakePeer(ip, t1), MakePeer(other, t2)) <==> Net.Equal(ip, other)
  {
  }

  /** Equal peers are reached at equal addresses on the same port, the
      unicast one rather than the broadcast one, and a peer made from a
      peer's address, at any time, is equal to it. */
  lemma {:induction false} EqualPeersShareAddress(p: Peer, q: Peer, now: Time)
    requires Equal(p, q)
    ensures Net.Equal(Address(p).ip, Address(q).ip) && Address(p).port == Address(q).port
    ensures Address(p).port == Config.UnicastPort != Config.BroadcastPort
    ensures Equal(MakePeer(Address(p).ip, now), q)
  {
  }
}
