/** Stateless address autoconfiguration (include/SLAACClient.h), after
    section 5.3 of RFC 4862: a link-local address FE80::/64 and a global
    address under a fixed prefix, each with the interface MAC as the
    interface identifier. The MAC is copied as six bytes with bit 1 of the
    first toggled; no FF FE is inserted in the middle as the modified EUI-64
    of RFC 4291 Appendix A would. The ICMPv6 socket is replaced by a log of
    the packets handed to `send_icmpv6_packet`. */
module Slaac {
  import opened Bytes
  import opened Interfaces

  const RouterSolicitationType: byte := 133
  const AllRoutersGroup: string := "ff02::2"

  /** The prefix and length `handle_ra` uses whatever it receives. */
  const DefaultPrefix: seq<byte> := [0x20, 0x01, 0x0d, 0xb8, 0xac, 0x10, 0xfe, 0x01]
  const DefaultPrefixLength: byte := 64

  const LinkLocalNetwork: seq<byte> := [0xFE, 0x80, 0, 0, 0, 0, 0, 0]

  /** The interface identifier: the MAC with bit 1 of its first byte
      toggled (`^= 0x02`). */
  function InterfaceId(mac: seq<byte>): (id: seq<byte>)
    requires |mac| == 6
    ensures |id| == 6 && id[1..] == mac[1..]
  {
    [FlipBit1(mac[0])] + mac[1..]
  }

  /** The bytes `configure_global_address` builds: the first
      `prefix_length / 8` bytes of the prefix, the interface identifier,
      zeros up to 16. */
  function GlobalAddress(prefix: seq<byte>, prefixLength: byte, mac: seq<byte>): (a: seq<byte>)
    requires |mac| == 6 && prefixLength / 8 + 6 <= 16 && |prefix| >= prefixLength / 8
    ensures |a| == 16
  {
    var k := prefixLength as nat / 8;
    prefix[..k] + InterfaceId(mac) + Zeros(10 - k)
  }

  /** The bytes `create_link_local_address` builds. */
  function LinkLocalAddress(mac: seq<byte>): (a: seq<byte>)
    requires |mac| == 6
    ensures |a| == 16
  {
    [0xFE, 0x80] + Zeros(6) + InterfaceId(mac) + Zeros(2)
  }

  /** The router solicitation `send_rs` sends: 24 bytes, type 133, code 0,
      checksum left to the kernel as 0, reserved bytes 0. */
  function RouterSolicitation(): (p: seq<byte>)
    ensures |p| == 24 && p[0] == RouterSolicitationType
    ensures forall i :: 1 <= i < 24 ==> p[i] == 0
  {
    [RouterSolicitationType] + Zeros(23)
  }

  /** One call of `send_icmpv6_packet`. */
  datatype Icmpv6Send = Icmpv6Send(packet: seq<byte>, destIp: string)

  /** Copying `s` to the start of zeros. */
  lemma CopyIntoZeros(s: seq<byte>, n: nat)
    requires |s| <= n
    ensures Zeros(n)[..0] + s + Zeros(n)[|s|..] == s + Zeros(n - |s|)
  {
    assert Zeros(n)[|s|..] == Zeros(n - |s|);
  }

  /** Copying `s` just past `pre` into zeros leaves the zeros after it. */
  lemma CopyOverZeros(pre: seq<byte>, s: seq<byte>, n: nat)
    requires |s| <= n
    ensures (pre + Zeros(n))[..|pre|] + s + (pre + Zeros(n))[|pre| + |s|..] == pre + s + Zeros(n - |s|)
  {
    assert (pre + Zeros(n))[..|pre|] == pre;
    assert (pre + Zeros(n))[|pre| + |s|..] == Zeros(n - |s|);
  }

  /** Flipping bit 1 of the copied MAC's first byte turns it into the
      interface identifier. */
  lemma FlipFirstMacByte(pre: seq<byte>, mac: seq<byte>, z: seq<byte>)
    requires |mac| == 6
    ensures (pre + mac + z)[|pre| := FlipBit1((pre + mac + z)[|pre|])] == pre + InterfaceId(mac) + z
  {
    assert (pre + mac + z)[|pre|] == mac[0];
  }

  class SlaacClient {
    const netif: NetworkInterface
    /** Packets handed to `send_icmpv6_packet`, oldest first. */
    ghost var sent: seq<Icmpv6Send>

    predicate Valid()
      reads this, netif
    {
      netif.Valid()
    }

    constructor(n: NetworkInterface)
      requires n.Valid()
      ensures Valid() && netif == n && sent == []
    {
      netif := n;
      sent := [];
    }

    /** `send_rs` */
    method SendRs()
      requires Valid()
      modifies this
      ensures Valid()
      ensures sent == old(sent) + [Icmpv6Send(RouterSolicitation(), AllRoutersGroup)]
    {
      var rs := new byte[24](_ => 0);
      rs[0] := RouterSolicitationType;
      rs[1] := 0;
      rs[2] := 0;
      rs[3] := 0;
      assert rs[..] == RouterSolicitation();
      sent := sent + [Icmpv6Send(rs[..], AllRoutersGroup)];
    }

    /** `create_link_local_address` */
    method CreateLinkLocalAddress() returns (a: seq<byte>)
      requires Valid()
      ensures a == LinkLocalAddress(netif.mac[..])
    {
      var mac := netif.GetMacAddress();
      var lla := new byte[16](_ => 0);
      lla[0] := 0xFE;
      lla[1] := 0x80;
      Memcpy(lla, 8, mac);
      lla[8] := FlipBit1(lla[8]);
      a := lla[..];
      assert a == a[..8] + a[8..14] + a[14..];
    }

    /** The bytes of `configure_global_address`; the text conversion and
        the console output are not part of this model, so the address is
        returned. */
    method ConfigureGlobalAddress(prefix: seq<byte>, prefixLength: byte) returns (a: seq<byte>)
      requires Valid()
      requires prefixLength / 8 + 6 <= 16 && |prefix| >= prefixLength / 8
      ensures a == GlobalAddress(prefix, prefixLength, netif.mac[..])
    {
      var k := prefixLength as nat / 8;
      var mac := netif.GetMacAddress();
      ghost var pre := prefix[..k];
      var ga := new byte[16](_ => 0);
      assert ga[..] == Zeros(16);
      Memcpy(ga, 0, prefix[..k]);
      CopyIntoZeros(pre, 16);
      assert ga[..] == pre + Zeros(16 - k);
      Memcpy(ga, k, mac);
      CopyOverZeros(pre, mac, 16 - k);
      assert ga[..] == pre + mac + Zeros(10 - k);
      ga[k] := FlipBit1(ga[k]);
      a := ga[..];
      FlipFirstMacByte(prefix[..k], mac, Zeros(10 - k));
    }

    /** `handle_ra`: the packet is not read; the fixed prefix is used. */
    method HandleRa(packet: seq<byte>) returns (a: seq<byte>)
      requires Valid()
      ensures a == GlobalAddress(DefaultPrefix, DefaultPrefixLength, netif.mac[..])
    {
      a := ConfigureGlobalAddress(DefaultPrefix, DefaultPrefixLength);
    }
  }

  // ---------------------------------------------------------------------
  // Properties

  /** The global address holds the prefix bytes, then the MAC with only
      bit 1 of its first byte changed, then zeros. */
  lemma GlobalLayout(prefix: seq<byte>, prefixLength: byte, mac: seq<byte>)
    requires |mac| == 6 && prefixLength / 8 + 6 <= 16 && |prefix| >= prefixLength / 8
    ensures var k := prefixLength as nat / 8; var a := GlobalAddress(prefix, prefixLength, mac);
      && a[..k] == prefix[..k]
      && a[k] / 4 == mac[0] / 4 && a[k] % 2 == mac[0] % 2 && (a[k] / 2) % 2 != (mac[0] / 2) % 2
      && a[k + 1..k + 6] == mac[1..]
      && (forall i :: k + 6 <= i < 16 ==> a[i] == 0)
  {
    var k := prefixLength as nat / 8;
    var a := GlobalAddress(prefix, prefixLength, mac);
    assert a[k..k + 6] == InterfaceId(mac);
  }

  lemma FlipBit1Involutive(b: byte)
    ensures FlipBit1(FlipBit1(b)) == b
  {
  }

  /** The MAC can be read back from the interface identifier. */
  lemma MacRecoverable(prefix: seq<byte>, prefixLength: byte, mac: seq<byte>)
    requires |mac| == 6 && prefixLength / 8 + 6 <= 16 && |prefix| >= prefixLength / 8
    ensures var k := prefixLength as nat / 8; var a := GlobalAddress(prefix, prefixLength, mac);
      InterfaceId(a[k..k + 6]) == mac
  {
    var k := prefixLength as nat / 8;
    var a := GlobalAddress(prefix, prefixLength, mac);
    assert a[k..k + 6] == InterfaceId(mac);
    FlipBit1Involutive(mac[0]);
    assert mac == [mac[0]] + mac[1..];
  }

  /** The link-local address is the global construction under FE80::/64. */
  lemma LinkLocalIsGlobalUnderFe80(mac: seq<byte>)
    requires |mac| == 6
    ensures LinkLocalAddress(mac) == GlobalAddress(LinkLocalNetwork, 64, mac)
  {
    assert LinkLocalNetwork[..8] == [0xFE, 0x80] + Zeros(6);
  }

  const DriverMac: seq<byte> := [0x00, 0x0c, 0x29, 0x36, 0xbc, 0x17]

  /** With the driver's MAC the fixed prefix gives
      2001:db8:ac10:fe01:20c:2936:bc17:0. */
  lemma DriverGlobalAddress()
    ensures GlobalAddress(DefaultPrefix, DefaultPrefixLength, DriverMac)
         == [0x20, 0x01, 0x0d, 0xb8, 0xac, 0x10, 0xfe, 0x01, 0x02, 0x0c, 0x29, 0x36, 0xbc, 0x17, 0, 0]
  {
    assert FlipBit1(0) == 2;
    assert InterfaceId(DriverMac) == [0x02, 0x0c, 0x29, 0x36, 0xbc, 0x17];
  }

  /** The driver's SLAAC calls (TCP-IP-Stack.cpp): after the MAC is set, the
      solicitation goes to ff02::2 and the advertisement configures the
      address of DriverGlobalAddress. */
  method SlaacScenario(ra: seq<byte>) returns (ghost rs: seq<Icmpv6Send>, global: seq<byte>)
    ensures rs == [Icmpv6Send(RouterSolicitation(), AllRoutersGroup)]
    ensures global == [0x20, 0x01, 0x0d, 0xb8, 0xac, 0x10, 0xfe, 0x01, 0x02, 0x0c, 0x29, 0x36, 0xbc, 0x17, 0, 0]
  {
    var netif := new NetworkInterface("eth0");
    netif.SetMacAddress(DriverMac);
    var client := new SlaacClient(netif);
    client.SendRs();
    rs := client.sent;
    global := client.HandleRa(ra);
    DriverGlobalAddress();
  }
}
