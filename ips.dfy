/**
 * Choosing this host's private IPv4 address and the directed broadcast
 * address of its network from the list of network interfaces.
 */
module Ips {
  import opened Wrappers
  import opened Net

  /** `net.Flags`; only the two bits below are read. */
  type Flags = bv32

  const FlagUp: Flags := 1        // net.FlagUp, 1 << 0
  const FlagLoopback: Flags := 4  // net.FlagLoopback, 1 << 2

  /** A `net.Addr` an interface reports: an `*net.IPNet`, or another kind
      (such as `*net.IPAddr`) that the type assertion rejects. */
  datatype Addr = IPNetAddr(ipNet: IPNet) | IPAddr(ip: IP)

  /** A network interface: its flags and the outcome of asking for its
      addresses (None when that query fails). */
  datatype Interface = Interface(flags: Flags, addrs: Option<seq<Addr>>)

  datatype Failure =
    | InterfacesUnavailable  // the interface list could not be obtained
    | NoPrivateIPv4          // no interface has a private IPv4 address

  /** What the search ends with: an address with its broadcast address, the
      reason none was found, or Go's index-out-of-range panic when the mask
      of the address found has fewer than 4 bytes. */
  datatype Selection = Found(ip: IP, broadcast: IP) | Failed(reason: Failure) | Panicked

  // ---------------------------------------------------------------------
  // Broadcast address

  /** The directed broadcast address of the network `ip` belongs to (RFC 919
      section 7): each byte of the IPv4 address with the bits outside the
      mask set. None when `ip` is not IPv4. */
  function BroadcastAddr(ip: IP, mask: IPMask): (r: Option<IP>)
    requires To4(ip).Some? ==> |mask| >= IPv4Len
    ensures r.None? <==> To4(ip).None?
    ensures r.Some? ==> |r.value| == IPv4Len
  {
    match To4(ip)
    case None => None
    case Some(ip4) =>
      Some([HostBitsSet(ip4[0], mask[0]), HostBitsSet(ip4[1], mask[1]),
            HostBitsSet(ip4[2], mask[2]), HostBitsSet(ip4[3], mask[3])])
  }

  /** A byte with the bits outside the mask byte set. */
  function HostBitsSet(x: byte, m: byte): byte {
    x | !m
  }

  /** `x` and `y` agree on the network bits, those set in the mask byte `m`. */
  predicate SameNetworkBits(x: byte, y: byte, m: byte) {
    x & m == y & m
  }

  /** Every host bit of `x`, those clear in the mask byte `m`, is set. */
  predicate AllHostBitsSet(x: byte, m: byte) {
    x | m == 0xff
  }

  /** Every bit set in `x` is set in `b`. */
  predicate BitsWithin(x: byte, b: byte) {
    x | b == b
  }

  /** HostBitsSet keeps the network bits and sets all host bits, and it is
      the only byte that does. */
  lemma HostBitsSetSpec(x: byte, m: byte, y: byte)
    ensures SameNetworkBits(HostBitsSet(x, m), x, m) && AllHostBitsSet(HostBitsSet(x, m), m)
    ensures SameNetworkBits(y, x, m) && AllHostBitsSet(y, m) ==> y == HostBitsSet(x, m)
  {
  }

  /** A byte with the network bits of `y` has its bits within HostBitsSet(y, m). */
  lemma WithinHostBitsSet(x: byte, y: byte, m: byte)
    requires SameNetworkBits(x, y, m)
    ensures BitsWithin(x, HostBitsSet(y, m))
  {
  }

  /** The broadcast address is the address with its host bits set, byte by byte. */
  lemma BroadcastAddrBytes(ip: IP, mask: IPMask, b: IP)
    requires To4(ip).Some? && |mask| >= IPv4Len && |b| == IPv4Len
    requires forall k :: 0 <= k < IPv4Len ==> b[k] == HostBitsSet(To4(ip).value[k], mask[k])
    ensures BroadcastAddr(ip, mask) == Some(b)
  {
    var r := BroadcastAddr(ip, mask).value;
    assert forall k :: 0 <= k < IPv4Len ==> r[k] == b[k];
    assert r == b;
  }

  /** The broadcast address keeps the network bits of the address and has
      every host bit set. */
  lemma {:induction false} BroadcastAddrBits(ip: IP, mask: IPMask)
    requires To4(ip).Some? && |mask| >= IPv4Len
    ensures var b := BroadcastAddr(ip, mask).value;
            forall k :: 0 <= k < IPv4Len ==>
              SameNetworkBits(b[k], To4(ip).value[k], mask[k]) && AllHostBitsSet(b[k], mask[k])
  {
    var b, ip4 := BroadcastAddr(ip, mask).value, To4(ip).value;
    forall k | 0 <= k < IPv4Len
      ensures SameNetworkBits(b[k], ip4[k], mask[k]) && AllHostBitsSet(b[k], mask[k])
    {
      assert b[k] == HostBitsSet(ip4[k], mask[k]);
      HostBitsSetSpec(ip4[k], mask[k], b[k]);
    }
  }

  /** Keeping the network bits of `ip` and setting all host bits determines
      the broadcast address: nothing else has both properties. */
  lemma {:induction false} BroadcastAddrUnique(ip: IP, mask: IPMask, b: IP)
    requires To4(ip).Some? && |mask| >= IPv4Len && |b| == IPv4Len
    requires forall k :: 0 <= k < IPv4Len ==>
               SameNetworkBits(b[k], To4(ip).value[k], mask[k]) && AllHostBitsSet(b[k], mask[k])
    ensures BroadcastAddr(ip, mask) == Some(b)
  {
    var ip4 := To4(ip).value;
    forall k | 0 <= k < IPv4Len
      ensures b[k] == HostBitsSet(ip4[k], mask[k])
    {
      HostBitsSetSpec(ip4[k], mask[k], b[k]);
    }
    BroadcastAddrBytes(ip, mask, b);
  }

  /** The broadcast address of a broadcast address is itself. */
  lemma {:induction false} BroadcastAddrIdempotent(ip: IP, mask: IPMask)
    requires To4(ip).Some? && |mask| >= IPv4Len
    ensures BroadcastAddr(BroadcastAddr(ip, mask).value, mask) == BroadcastAddr(ip, mask)
  {
    var b := BroadcastAddr(ip, mask).value;
    forall k | 0 <= k < IPv4Len
      ensures b[k] == HostBitsSet(b[k], mask[k])
    {
      assert b[k] == HostBitsSet(To4(ip).value[k], mask[k]);
      HostBitsSetSpec(To4(ip).value[k], mask[k], b[k]);
      HostBitsSetSpec(b[k], mask[k], b[k]);
    }
    BroadcastAddrBytes(b, mask, b);
  }

  /** Every address of the network (same network bits as `ip`) has its bits
      within the broadcast address: it is the network's highest address. */
  lemma {:induction false} BroadcastAddrCoversNetwork(ip: IP, mask: IPMask, host: IP)
    requires To4(ip).Some? && |mask| >= IPv4Len && |host| == IPv4Len
    requires forall k :: 0 <= k < IPv4Len ==> SameNetworkBits(host[k], To4(ip).value[k], mask[k])
    ensures var b := BroadcastAddr(ip, mask).value;
            forall k :: 0 <= k < IPv4Len ==> BitsWithin(host[k], b[k])
  {
    var b, ip4 := BroadcastAddr(ip, mask).value, To4(ip).value;
    forall k | 0 <= k < IPv4Len
      ensures BitsWithin(host[k], b[k])
    {
      assert b[k] == HostBitsSet(ip4[k], mask[k]);
      WithinHostBitsSet(host[k], ip4[k], mask[k]);
    }
  }

  /** The twelve leading bytes of a mask in 16-byte form for an IPv4 network
      (`net.CIDRMask(96 + n, 128)`). */
  const V4InV6MaskPrefix: seq<byte> := [0xff, 0xff, 0xff, 0xff, 0xff, 0xff, 0xff, 0xff, 0xff, 0xff, 0xff, 0xff]

  /** The 16-byte form of a 4-byte IPv4 mask. */
  function V4MaskInV6(mask4: IPMask): (r: IPMask)
    requires |mask4| == IPv4Len
    ensures |r| == IPv6Len && r[..12] == V4InV6MaskPrefix && r[12..] == mask4
  {
    V4InV6MaskPrefix + mask4
  }

  /** The IPv4 part of a mask: the last 4 bytes of a 16-byte mask, the mask
      itself otherwise. */
  function V4Mask(mask: IPMask): (r: IPMask)
    ensures |mask| >= IPv4Len ==> |r| >= IPv4Len
  {
    if |mask| == IPv6Len then mask[IPv6Len - IPv4Len..] else mask
  }

  /** The broadcast address of the network: `BroadcastAddr` under the IPv4
      part of the mask, whichever form the mask is in. */
  function NetworkBroadcastAddr(ip: IP, mask: IPMask): (r: Option<IP>)
    requires To4(ip).Some? ==> |mask| >= IPv4Len
    ensures r.None? <==> To4(ip).None?
    ensures r.Some? ==> |r.value| == IPv4Len
  {
    BroadcastAddr(ip, V4Mask(mask))
  }

  /** Reading the first 4 bytes of a 16-byte mask, as `calculateBroadcastAddr`
      does, gives a host's own address back as its broadcast address:
      ::ffff:192.168.1.5 under the 16-byte form of 255.255.255.0. */
  lemma BroadcastAddrWideMask()
    ensures BroadcastAddr(V4InV6([192, 168, 1, 5]), V4MaskInV6([255, 255, 255, 0])) == Some([192, 168, 1, 5])
    ensures BroadcastAddr([192, 168, 1, 5], [255, 255, 255, 0]) == Some([192, 168, 1, 255])
  {
    V4InV6RoundTrip([192, 168, 1, 5]);
    BroadcastAddrBytes(V4InV6([192, 168, 1, 5]), V4MaskInV6([255, 255, 255, 0]), [192, 168, 1, 5]);
    BroadcastAddrBytes([192, 168, 1, 5], [255, 255, 255, 0], [192, 168, 1, 255]);
  }

  /** The network's broadcast address does not depend on the form of the
      mask: the 16-byte form of a 4-byte mask gives the same result. */
  lemma {:induction false} NetworkBroadcastAddrMaskForm(ip: IP, mask4: IPMask)
    requires To4(ip).Some? && |mask4| == IPv4Len
    ensures NetworkBroadcastAddr(ip, V4MaskInV6(mask4)) == NetworkBroadcastAddr(ip, mask4)
  {
    assert V4Mask(V4MaskInV6(mask4)) == mask4;
  }

  /** The source's result and the network's broadcast address differ only
      for 16-byte masks: they agree for shorter and longer ones alike. */
  lemma BroadcastAddrAgreesUnlessWideMask(ip: IP, mask: IPMask)
    requires To4(ip).Some? ==> |mask| >= IPv4Len
    requires |mask| != IPv6Len
    ensures BroadcastAddr(ip, mask) == NetworkBroadcastAddr(ip, mask)
  {
  }

  /** The network's broadcast address keeps the network bits of the address
      under the IPv4 part of the mask and has every host bit set, with the
      mask in either form. */
  lemma {:induction false} NetworkBroadcastAddrBits(ip: IP, mask: IPMask)
    requires To4(ip).Some? && |mask| >= IPv4Len
    ensures var b, m := NetworkBroadcastAddr(ip, mask).value, V4Mask(mask);
            forall k :: 0 <= k < IPv4Len ==>
              SameNetworkBits(b[k], To4(ip).value[k], m[k]) && AllHostBitsSet(b[k], m[k])
  {
    BroadcastAddrBits(ip, V4Mask(mask));
  }

  /** `calculateBroadcastAddr`: fills a fresh 4-byte buffer with the address
      bytes OR-ed with the complemented first 4 bytes of the mask. */
  method CalculateBroadcastAddr(ipNet: IPNet) returns (broadcast: Option<IP>)
    requires To4(ipNet.ip).Some? ==> |ipNet.mask| >= IPv4Len
    ensures broadcast == BroadcastAddr(ipNet.ip, ipNet.mask)
  {
    var ip, mask := To4(ipNet.ip), ipNet.mask;
    if ip.None? {
      return None;
    }
    var ip4 := ip.value;
    var buffer := new byte[|ip4|];
    for i := 0 to |ip4|
      invariant forall k :: 0 <= k < i ==> buffer[k] == HostBitsSet(ip4[k], mask[k])
    {
      buffer[i] := HostBitsSet(ip4[i], mask[i]);
    }
    BroadcastAddrBytes(ipNet.ip, mask, buffer[..]);
    return Some(buffer[..]);
  }

  // ---------------------------------------------------------------------
  // Selecting the private address

  /** The loop over interfaces skips those that are down or loopback, and
      those whose addresses cannot be read. */
  predicate Scanned(iface: Interface) {
    iface.flags & FlagUp != 0 && iface.flags & FlagLoopback == 0 && iface.addrs.Some?
  }

  /** An address the search accepts: an `*net.IPNet` whose IP is IPv4 and private. */
  predicate IsCandidate(a: Addr) {
    a.IPNetAddr? && To4(a.ipNet.ip).Some? && IsPrivate(a.ipNet.ip)
  }

  /** No address of the interface is accepted (vacuously so for a skipped one). */
  predicate NoCandidateIn(iface: Interface) {
    Scanned(iface) ==> forall k :: 0 <= k < |iface.addrs.value| ==> !IsCandidate(iface.addrs.value[k])
  }

  /** The index of the first accepted address at or after `j`. */
  function FirstCandidateFrom(addrs: seq<Addr>, j: nat): (r: Option<nat>)
    requires j <= |addrs|
    decreases |addrs| - j
    ensures r.Some? ==> j <= r.value < |addrs| && IsCandidate(addrs[r.value])
    ensures r.Some? ==> forall k :: j <= k < r.value ==> !IsCandidate(addrs[k])
    ensures r.None? <==> forall k :: j <= k < |addrs| ==> !IsCandidate(addrs[k])
  {
    if j == |addrs| then None
    else if IsCandidate(addrs[j]) then Some(j)
    else FirstCandidateFrom(addrs, j + 1)
  }

  /** Address `j` of interface `i` is where the search stops: the interface is
      scanned, the address is accepted, no earlier address of it is, and no
      interface between `i0` and `i` has an accepted address. */
  predicate FirstMatch(ifaces: seq<Interface>, i0: nat, i: nat, j: nat) {
    && i0 <= i < |ifaces|
    && Scanned(ifaces[i])
    && j < |ifaces[i].addrs.value|
    && IsCandidate(ifaces[i].addrs.value[j])
    && (forall k :: 0 <= k < j ==> !IsCandidate(ifaces[i].addrs.value[k]))
    && (forall p :: i0 <= p < i ==> NoCandidateIn(ifaces[p]))
  }

  /** The two nested loops of the search over `ifaces[i0..]`: the interface
      and address indices where they stop, None when they run to the end. */
  function MatchFrom(ifaces: seq<Interface>, i0: nat): (r: Option<(nat, nat)>)
    requires i0 <= |ifaces|
    decreases |ifaces| - i0
    ensures r.Some? ==> FirstMatch(ifaces, i0, r.value.0, r.value.1)
    ensures r.None? <==> forall p :: i0 <= p < |ifaces| ==> NoCandidateIn(ifaces[p])
  {
    if i0 == |ifaces| then None
    else if !Scanned(ifaces[i0]) then MatchFrom(ifaces, i0 + 1)
    else
      match FirstCandidateFrom(ifaces[i0].addrs.value, 0)
      case Some(j) => Some((i0, j))
      case None => MatchFrom(ifaces, i0 + 1)
  }

  /** How the search ends at an accepted address: with it and its broadcast
      address, or with a panic when `calculateBroadcastAddr` indexes past
      the end of its mask. */
  function Stop(ipNet: IPNet): (r: Selection)
    requires To4(ipNet.ip).Some?
    ensures r.Panicked? <==> |ipNet.mask| < IPv4Len
    ensures r.Found? <==> |ipNet.mask| >= IPv4Len
    ensures r.Found? ==> r.ip == ipNet.ip && Some(r.broadcast) == BroadcastAddr(ipNet.ip, ipNet.mask)
  {
    if |ipNet.mask| < IPv4Len then Panicked
    else Found(ipNet.ip, BroadcastAddr(ipNet.ip, ipNet.mask).value)
  }

  /** The search over `ifaces[i0..]`. */
  function SelectFrom(ifaces: seq<Interface>, i0: nat): Selection
    requires i0 <= |ifaces|
  {
    match MatchFrom(ifaces, i0)
    case Some((i, j)) => Stop(ifaces[i].addrs.value[j].ipNet)
    case None => Failed(NoPrivateIPv4)
  }

  /** `GetPrivateIPAndBroadcastAddr` as a function of the interface query's
      outcome (None when the list of interfaces could not be obtained). */
  function PrivateIPAndBroadcast(query: Option<seq<Interface>>): Selection {
    match query
    case None => Failed(InterfacesUnavailable)
    case Some(ifaces) => SelectFrom(ifaces, 0)
  }

  /** The search stops in one place only. */
  lemma FirstMatchUnique(ifaces: seq<Interface>, i0: nat, i: nat, j: nat, i': nat, j': nat)
    requires FirstMatch(ifaces, i0, i, j) && FirstMatch(ifaces, i0, i', j')
    ensures i == i' && j == j'
  {
    // Each stopping interface has a candidate, so neither lies before the other.
    assert !NoCandidateIn(ifaces[i]) && !NoCandidateIn(ifaces[i']);
  }

  /** The search ends at the first match: with that address and its broadcast
      address, or with a panic when its mask is shorter than 4 bytes. */
  lemma FirstMatchIsSelected(ifaces: seq<Interface>, i0: nat, i: nat, j: nat)
    requires FirstMatch(ifaces, i0, i, j)
    ensures MatchFrom(ifaces, i0) == Some((i, j))
    ensures var a := ifaces[i].addrs.value[j].ipNet;
            if |a.mask| >= IPv4Len then SelectFrom(ifaces, i0) == Found(a.ip, BroadcastAddr(a.ip, a.mask).value)
            else SelectFrom(ifaces, i0) == Panicked
  {
    assert !NoCandidateIn(ifaces[i]);
    var m := MatchFrom(ifaces, i0).value;
    FirstMatchUnique(ifaces, i0, i, j, m.0, m.1);
  }

  /** Whatever the search ends with, other than a failure, happens at a first
      match; a found address is a private IPv4 address. */
  lemma SelectedIsFirstMatch(ifaces: seq<Interface>, i0: nat)
    requires i0 <= |ifaces| && !SelectFrom(ifaces, i0).Failed?
    ensures exists i, j :: FirstMatch(ifaces, i0, i, j)
    ensures SelectFrom(ifaces, i0).Found? ==>
              To4(SelectFrom(ifaces, i0).ip).Some? && IsPrivate(SelectFrom(ifaces, i0).ip)
  {
    var m := MatchFrom(ifaces, i0).value;
    assert FirstMatch(ifaces, i0, m.0, m.1);
  }

  /** The search fails exactly when no scanned interface has an accepted address. */
  lemma SelectFailsIffNoCandidate(ifaces: seq<Interface>, i0: nat)
    requires i0 <= |ifaces|
    ensures SelectFrom(ifaces, i0) == Failed(NoPrivateIPv4)
            <==> forall p :: i0 <= p < |ifaces| ==> NoCandidateIn(ifaces[p])
  {
  }

  /** An interface that is skipped or has no accepted address is passed over:
      the search goes on with the next one. */
  lemma SkipInterface(ifaces: seq<Interface>, i0: nat)
    requires i0 < |ifaces| && NoCandidateIn(ifaces[i0])
    ensures MatchFrom(ifaces, i0) == MatchFrom(ifaces, i0 + 1)
  {
    assert !Scanned(ifaces[i0]) || FirstCandidateFrom(ifaces[i0].addrs.value, 0).None?;
  }

  /** A scanned interface whose first accepted address is `j` ends the search there. */
  lemma StopAtInterface(ifaces: seq<Interface>, i: nat, j: nat)
    requires i < |ifaces| && Scanned(ifaces[i])
    requires FirstCandidateFrom(ifaces[i].addrs.value, 0) == Some(j)
    ensures MatchFrom(ifaces, i) == Some((i, j))
  {
  }

  /** The inner loop of `GetPrivateIPAndBroadcastAddr`: the index of the
      first `*net.IPNet` address that is IPv4 and private. */
  method FirstAcceptedAddr(addrs: seq<Addr>) returns (found: Option<nat>)
    ensures found == FirstCandidateFrom(addrs, 0)
  {
    var j := 0;
    while j < |addrs|
      invariant 0 <= j <= |addrs|
      invariant FirstCandidateFrom(addrs, j) == FirstCandidateFrom(addrs, 0)
    {
      var addr := addrs[j];
      if addr.IPNetAddr? && To4(addr.ipNet.ip).Some? && IsPrivate(addr.ipNet.ip) {
        return Some(j);
      }
      j := j + 1;
    }
    return None;
  }

  /** One round of the loop over interfaces: a down or loopback interface, or
      one whose addresses cannot be read, is passed over; otherwise the
      index of its first accepted address, if any. */
  method AcceptedAddrOf(iface: Interface) returns (j: Option<nat>)
    ensures if Scanned(iface) then j == FirstCandidateFrom(iface.addrs.value, 0) else j.None?
  {
    if iface.flags & FlagUp == 0 || iface.flags & FlagLoopback != 0 {
      return None;
    }
    if iface.addrs.None? {
      return None;
    }
    j := FirstAcceptedAddr(iface.addrs.value);
  }

  /** `GetPrivateIPAndBroadcastAddr`, with the operating system's answers as
      input: Go's `(ip, broadcast, err)` triple, nil where absent. A run that
      panics returns nothing, so the method is for queries that do not. */
  method GetPrivateIPAndBroadcastAddr(query: Option<seq<Interface>>)
      returns (ip: Option<IP>, broadcast: Option<IP>, err: Option<Failure>)
    requires !PrivateIPAndBroadcast(query).Panicked?
    ensures match PrivateIPAndBroadcast(query)
            case Found(a, b) => ip == Some(a) && broadcast == Some(b) && err == None
            case Failed(e) => ip == None && broadcast == None && err == Some(e)
            case Panicked => false
  {
    if query.None? {
      return None, None, Some(InterfacesUnavailable);
    }
    var interfaces := query.value;
    var i := 0;
    while i < |interfaces|
      invariant 0 <= i <= |interfaces|
      invariant MatchFrom(interfaces, i) == MatchFrom(interfaces, 0)
    {
      var j := AcceptedAddrOf(interfaces[i]);
      if j.Some? {
        var ipNet := interfaces[i].addrs.value[j.value].ipNet;
        StopAtInterface(interfaces, i, j.value);
        assert PrivateIPAndBroadcast(query) == Stop(ipNet);
        var broadcastAddr := CalculateBroadcastAddr(ipNet);
        return Some(ipNet.ip), broadcastAddr, None;
      }
      SkipInterface(interfaces, i);
      i := i + 1;
    }
    return None, None, Some(NoPrivateIPv4);
  }
}
