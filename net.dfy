/**
 * The parts of Go's `net` package that address selection and peer identity rely on: IP addresses as
 * byte slices, the IPv4 view `To4`, the private-address test `IsPrivate`,
 * address equality `Equal`, and the `IPNet` and `UDPAddr` records.
 */
module Net {
  import opened Wrappers

  type byte = bv8

  /** A `net.IP`: 4 bytes for IPv4, 16 for IPv6; an IPv4 address may also be
      held in its 16-byte IPv4-mapped form. Other lengths are not addresses. */
  type IP = seq<byte>

  /** A `net.IPMask`: as many bytes as the address it masks. */
  type IPMask = seq<byte>

  const IPv4Len := 4
  const IPv6Len := 16

  /** The twelve leading bytes of an IPv4-mapped IPv6 address (::ffff:0:0/96). */
  const V4InV6Prefix: seq<byte> := [0, 0, 0, 0, 0, 0, 0, 0, 0, 0, 0xff, 0xff]

  /** A network address with its mask, as interfaces report them. */
  datatype IPNet = IPNet(ip: IP, mask: IPMask)

  /** A UDP endpoint (the IPv6 zone is not modelled). */
  datatype UDPAddr = UDPAddr(ip: IP, port: int)

  /** `ip.To4()`: the 4-byte form of an IPv4 address, None (Go's nil) otherwise. */
  function To4(ip: IP): (r: Option<IP>)
    ensures r.Some? <==> |ip| == IPv4Len || (|ip| == IPv6Len && ip[..12] == V4InV6Prefix)
    ensures r.Some? ==> |r.value| == IPv4Len && r.value == ip[|ip| - IPv4Len..]
  {
    if |ip| == IPv4Len then Some(ip)
    else if |ip| == IPv6Len && (forall k :: 0 <= k < 10 ==> ip[k] == 0) && ip[10] == 0xff && ip[11] == 0xff then
      Some(ip[12..16])
    else
      None
  }

  /** The 16-byte IPv4-mapped form of a 4-byte address, as `net.IPv4` builds it. */
  function V4InV6(ip4: IP): (r: IP)
    requires |ip4| == IPv4Len
    ensures |r| == IPv6Len && r[..12] == V4InV6Prefix && r[12..] == ip4
  {
    V4InV6Prefix + ip4
  }

  /** `ip.IsPrivate()`: the blocks of RFC 1918 section 3 for IPv4 addresses,
      the unique local block fc00::/7 of RFC 4193 for other 16-byte addresses. */
  predicate IsPrivate(ip: IP) {
    match To4(ip)
    case Some(ip4) =>
      ip4[0] == 10 || (ip4[0] == 172 && ip4[1] & 0xf0 == 16) || (ip4[0] == 192 && ip4[1] == 168)
    case None => |ip| == IPv6Len && ip[0] & 0xfe == 0xfc
  }

  /** The 32-bit number a 4-byte address denotes, most significant byte first. */
  function V4Value(ip4: IP): (v: bv32)
    requires |ip4| == IPv4Len
    ensures v >> 24 == ip4[0] as bv32 && (v >> 16) & 0xff == ip4[1] as bv32
  {
    (ip4[0] as bv32 << 24) | (ip4[1] as bv32 << 16) | (ip4[2] as bv32 << 8) | ip4[3] as bv32
  }

  /** The three private ranges exactly as RFC 1918 section 3 lists them:
      10.0.0.0 - 10.255.255.255, 172.16.0.0 - 172.31.255.255 and
      192.168.0.0 - 192.168.255.255. */
  predicate InRfc1918Block(ip4: IP)
    requires |ip4| == IPv4Len
  {
    var v := V4Value(ip4);
    || 0x0A00_0000 <= v <= 0x0AFF_FFFF
    || 0xAC10_0000 <= v <= 0xAC1F_FFFF
    || 0xC0A8_0000 <= v <= 0xC0A8_FFFF
  }

  /** The byte test `IsPrivate` applies to an IPv4 address agrees with the
      three address ranges of RFC 1918 section 3. */
  lemma IsPrivateV4IsRfc1918(ip: IP)
    requires To4(ip).Some?
    ensures IsPrivate(ip) <==> InRfc1918Block(To4(ip).value)
  {
  }

  /** `ip.Equal(x)`: equal bytes, or a 4-byte address and its IPv4-mapped form. */
  predicate Equal(a: IP, b: IP) {
    if |a| == |b| then a == b
    else if |a| == IPv4Len && |b| == IPv6Len then b[..12] == V4InV6Prefix && a == b[12..]
    else if |a| == IPv6Len && |b| == IPv4Len then a[..12] == V4InV6Prefix && a[12..] == b
    else false
  }

  /** The form an address is compared in: its IPv4 bytes when it has them. */
  function Canonical(ip: IP): (r: IP)
    ensures To4(ip).Some? ==> |r| == IPv4Len
    ensures To4(ip).None? ==> r == ip
  {
    match To4(ip)
    case Some(ip4) => ip4
    case None => ip
  }

  /** Two addresses are equal exactly when their canonical forms are the same
      bytes; this reference definition makes `Equal` an equivalence. */
  lemma {:induction false} EqualIffSameCanonical(a: IP, b: IP)
    ensures Equal(a, b) <==> Canonical(a) == Canonical(b)
  {
    if |a| == IPv6Len && a[..12] == V4InV6Prefix && |b| == IPv6Len && b[..12] == V4InV6Prefix {
      assert a == a[..12] + a[12..] && b == b[..12] + b[12..];
    }
  }

  lemma EqualReflexive(a: IP)
    ensures Equal(a, a)
  {
  }

  lemma EqualSymmetric(a: IP, b: IP)
    ensures Equal(a, b) <==> Equal(b, a)
  {
    EqualIffSameCanonical(a, b);
    EqualIffSameCanonical(b, a);
  }

  lemma EqualTransitive(a: IP, b: IP, c: IP)
    requires Equal(a, b) && Equal(b, c)
    ensures Equal(a, c)
  {
    EqualIffSameCanonical(a, b);
    EqualIffSameCanonical(b, c);
    EqualIffSameCanonical(a, c);
  }

  /** A 4-byte address equals its IPv4-mapped form and has it as its IPv4 view. */
  lemma V4InV6RoundTrip(ip4: IP)
    requires |ip4| == IPv4Len
    ensures To4(V4InV6(ip4)) == Some(ip4) && Equal(ip4, V4InV6(ip4))
  {
  }
}
