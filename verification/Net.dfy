/** Network addresses as 16 octets, their classification, and the address/port pair that
    keys the crawler's database. */
module Net {
  import opened Bytes

  const PCH_IPV4_PREFIX: seq<byte> := [0, 0, 0, 0, 0, 0, 0, 0, 0, 0, 0xff, 0xff]
  const PCH_ONION: seq<byte> := [0xfd, 0x87, 0xd8, 0x7e, 0xeb, 0x43]
  const PCH_GARLIC: seq<byte> := [0xfd, 0x60, 0xdb, 0x4d, 0xdd, 0xb5]
  const LOOPBACK: seq<byte> := [0, 0, 0, 0, 0, 0, 0, 0, 0, 0, 0, 0, 0, 0, 0, 1]
  const ALL_ZERO: seq<byte> := [0, 0, 0, 0, 0, 0, 0, 0, 0, 0, 0, 0, 0, 0, 0, 0]

  datatype Network = Ipv4 | Ipv6 | Tor | I2p | Unroutable

  type Ip16 = ip: seq<byte> | |ip| == 16 witness ALL_ZERO

  datatype NetAddr = NetAddr(ip: Ip16) {

    predicate IsIpv4() { ip[..12] == PCH_IPV4_PREFIX }

    predicate IsTor() { ip[..6] == PCH_ONION }

    predicate IsI2p() { ip[..6] == PCH_GARLIC }

    predicate IsRfc1918() {
      && IsIpv4()
      && (|| ip[12] == 10
          || (ip[12] == 192 && ip[13] == 168)
          || (ip[12] == 172 && 16 <= ip[13] <= 31))
    }

    predicate IsLocal() {
      (IsIpv4() && (ip[12] == 127 || ip[12] == 0)) || ip == LOOPBACK
    }

    predicate IsRfc3849() { ip[..4] == [0x20, 0x01, 0x0d, 0xb8] }

    predicate IsReserved() { IsIpv4() && ip[12] >= 240 }

    predicate IsValid() {
      && ip[..9] != PCH_IPV4_PREFIX[3..]
      && ip != ALL_ZERO
      && !IsRfc3849()
      && !(IsIpv4() && (ip[12..] == [255, 255, 255, 255] || ip[12..] == [0, 0, 0, 0]))
    }

    predicate IsRoutable() {
      && IsValid()
      && !(|| IsReserved()
           || IsRfc1918()
           || ip[12..] == [169, 254, 0, 0]
           || IsLocal()
           || IsRfc3849())
    }

    function Network(): Network {
      if !IsRoutable() then Unroutable
      else if IsIpv4() then Ipv4
      else if IsTor() then Tor
      else if IsI2p() then I2p
      else Ipv6
    }

    function ToIpv4(): Option<seq<byte>> {
      if IsIpv4() then Some(ip[12..]) else None
    }

    function ToIpv6(): Option<seq<byte>> {
      if IsIpv4() || IsTor() || IsI2p() then None else Some(ip)
    }
  }

  datatype Service = Service(addr: NetAddr, port: u16) {
    predicate IsRoutable() { addr.IsRoutable() }
  }

  /** The network class of a routable address says which record type carries it, and the
      class together with that record's octets gives the address back. */
  lemma NetworkDecidesTheRecord(a: NetAddr)
    ensures a.Network() == Ipv4 <==> a.IsRoutable() && a.ToIpv4().Some?
    ensures a.Network() == Ipv6 <==> a.IsRoutable() && a.ToIpv6().Some?
    ensures a.Network() in {Tor, I2p} <==> a.IsRoutable() && a.ToIpv4().None? && a.ToIpv6().None?
    ensures a.Network() == Ipv4 ==> a.ip == PCH_IPV4_PREFIX + a.ToIpv4().value
    ensures a.Network() == Ipv6 ==> a.ip == a.ToIpv6().value
    ensures !(a.ToIpv4().Some? && a.ToIpv6().Some?)
  {
    assert a.ip == a.ip[..12] + a.ip[12..];
    if a.IsTor() {
      assert a.ip[0] == a.ip[..6][0];
      assert a.ip[..12] != PCH_IPV4_PREFIX by { assert a.ip[..12][0] == a.ip[0]; }
    }
    if a.IsI2p() {
      assert a.ip[0] == a.ip[..6][0];
      assert a.ip[..12] != PCH_IPV4_PREFIX by { assert a.ip[..12][0] == a.ip[0]; }
    }
  }

  // ---------------------------------------------------------------- address ranges

  /** An IPv4 address in its sixteen octets. */
  function Ipv4Octets(a: byte, b: byte, c: byte, d: byte): Ip16 {
    [0, 0, 0, 0, 0, 0, 0, 0, 0, 0, 0xff, 0xff, a, b, c, d]
  }

  /** Exactly which IPv4 addresses are routable: none of 0.0.0.0/8, 10.0.0.0/8, 127.0.0.0/8,
      172.16.0.0/12, 192.168.0.0/16 and 240.0.0.0/4, and not 169.254.0.0 itself, while the other
      link-local addresses are. */
  lemma RoutableIpv4(a: byte, b: byte, c: byte, d: byte)
    ensures var peer := NetAddr(Ipv4Octets(a, b, c, d));
            && (peer.IsRoutable()
                <==> && a != 0 && a != 10 && a != 127 && a < 240
                     && !(a == 192 && b == 168) && !(a == 172 && 16 <= b < 32)
                     && !(a == 169 && b == 254 && c == 0 && d == 0))
            && peer.Network() == (if peer.IsRoutable() then Ipv4 else Unroutable)
            && peer.ToIpv4() == Some([a, b, c, d]) && peer.ToIpv6() == None
  {
    var ip := Ipv4Octets(a, b, c, d);
    assert ip[..12] == PCH_IPV4_PREFIX;
    assert ip[..9][8] == 0 && PCH_IPV4_PREFIX[3..][8] == 0xff;
    assert ip[..4][0] == 0;
    assert ip[12..] == [a, b, c, d];
    assert ip[10] == 0xff && ALL_ZERO[10] == LOOPBACK[10] == 0;
  }

  /** Exactly which other addresses are routable: not `::` and `::1`, none of 2001:db8::/32, none
      that begins with the last nine octets of the IPv4 prefix, and none that ends in the octets
      of 169.254.0.0. The forms of Tor and I2P are told from the rest by six octets. */
  lemma RoutableOther(a: NetAddr)
    requires a.ip[..12] != [0, 0, 0, 0, 0, 0, 0, 0, 0, 0, 0xff, 0xff]
    ensures a.IsRoutable()
            <==> && !((forall i :: 0 <= i < 15 ==> a.ip[i] == 0) && a.ip[15] <= 1)
                 && a.ip[..4] != [0x20, 0x01, 0x0d, 0xb8]
                 && a.ip[..9] != [0, 0, 0, 0, 0, 0, 0, 0xff, 0xff]
                 && a.ip[12..] != [169, 254, 0, 0]
    ensures a.Network() == if !a.IsRoutable() then Unroutable
                           else if a.ip[..6] == [253, 135, 216, 126, 235, 67] then Tor
                           else if a.ip[..6] == [253, 96, 219, 77, 221, 181] then I2p
                           else Ipv6
  {
    ZerosButLast(a.ip);
    assert PCH_IPV4_PREFIX[3..] == [0, 0, 0, 0, 0, 0, 0, 0xff, 0xff];
  }

  lemma ZerosButLast(ip: Ip16)
    ensures ip == ALL_ZERO || ip == LOOPBACK <==> (forall i :: 0 <= i < 15 ==> ip[i] == 0) && ip[15] <= 1
  {
    if (forall i :: 0 <= i < 15 ==> ip[i] == 0) && ip[15] == 0 {
      assert ip == ALL_ZERO;
    } else if (forall i :: 0 <= i < 15 ==> ip[i] == 0) && ip[15] == 1 {
      assert ip == LOOPBACK;
    }
  }
}
