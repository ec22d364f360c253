/** Simplified IPv6 Neighbour Solicitation and Advertisement messages
    (include/ND.h), after RFC 4861 sections 4.3 and 4.4: a 24-byte ICMPv6
    body whose target field holds only a raw 4-byte address copy. */
module Nd {
  import opened Bytes
  import opened Options
  import opened Ethernet

  const NeighborSolicitation: byte := 0x87
  const NeighborAdvertisement: byte := 0x88

  /** Solicited flag, bit 6 of byte 4. */
  const SolicitedBit: nat := 6

  /** 24 bytes: the type, zero code/checksum/flags, the target at 8-11
      (raw memory, low byte first on the little-endian host), zeros after. */
  function NdPacket(t: byte, target: uint32): (p: seq<byte>)
    ensures |p| == 24
  {
    [t] + Zeros(7) + LE32(target) + Zeros(12)
  }

  /** What `parse_na_packet` writes on success. */
  datatype NaFields = NaFields(srcIp: uint32, destMac: MacAddress, isSolicited: bool)

  function ParseNa(packet: seq<byte>): Option<NaFields>
  {
    if |packet| < 24 || packet[0] != NeighborAdvertisement || packet[1] != 0 then None
    else Some(NaFields(ReadLE32(packet, 8), packet[18..24], And(packet[4], 0x40) != 0))
  }

  /** Fills a zeroed 24-byte vector with the type and the target address. */
  method Build(t: byte, target: uint32) returns (packet: seq<byte>)
    ensures packet == NdPacket(t, target)
  {
    var pk := new byte[24](_ => 0);
    pk[0] := t;
    pk[1] := 0x00;
    pk[2] := 0x00;
    pk[3] := 0x00;
    assert pk[..8] == [t] + Zeros(7);
    Memcpy(pk, 8, LE32(target));
    packet := pk[..];
    assert packet == packet[..8] + packet[8..12] + packet[12..];
  }

  /** `create_ns`: the target is `dest_ip`; the MAC argument is unused. */
  method CreateNs(srcIp: uint32, srcMac: MacAddress, destIp: uint32) returns (packet: seq<byte>)
    ensures packet == NdPacket(NeighborSolicitation, destIp)
  {
    packet := Build(NeighborSolicitation, destIp);
  }

  /** `create_na`: the target is `src_ip`; the MAC arguments and `dest_ip`
      are unused. */
  method CreateNa(srcIp: uint32, srcMac: MacAddress, destIp: uint32, destMac: MacAddress)
    returns (packet: seq<byte>)
    ensures packet == NdPacket(NeighborAdvertisement, srcIp)
  {
    packet := Build(NeighborAdvertisement, srcIp);
  }

  /** `parse_na_packet`. `src_mac` and `dest_ip` are never written, so they
      are not outputs; the other reference arguments come back unchanged on
      rejection. */
  method ParseNaPacket(packet: seq<byte>, srcIp0: uint32, destMac0: MacAddress, isSolicited0: bool)
    returns (ok: bool, srcIp: uint32, destMac: MacAddress, isSolicited: bool)
    ensures ok <==> ParseNa(packet).Some?
    ensures ok ==> ParseNa(packet) == Some(NaFields(srcIp, destMac, isSolicited))
    ensures !ok ==> srcIp == srcIp0 && destMac == destMac0 && isSolicited == isSolicited0
  {
    srcIp, destMac, isSolicited := srcIp0, destMac0, isSolicited0;
    if |packet| < 24 {
      return false, srcIp, destMac, isSolicited;
    }
    var tp, code := packet[0], packet[1];
    if tp != NeighborAdvertisement || code != 0x00 {
      return false, srcIp, destMac, isSolicited;
    }
    srcIp := ReadLE32(packet, 8);
    destMac := packet[18..24];
    isSolicited := And(packet[4], 0x40) != 0;
    ok := true;
  }

  // ---------------------------------------------------------------------
  // Properties

  /** Only the type and the target are non-zero in a built message. */
  lemma NdLayout(t: byte, target: uint32)
    ensures var p := NdPacket(t, target);
      && p[0] == t && ReadLE32(p, 8) == target
      && (forall i :: 1 <= i < 8 || 12 <= i < 24 ==> p[i] == 0)
  {
    var p := NdPacket(t, target);
    assert p[8..12] == LE32(target);
    LE32Read(target);
    assert ReadLE32(p, 8) == ReadLE32(p[8..12], 0);
  }

  /** A solicitation is rejected by the advertisement parser. */
  lemma ParseNaRejectsNs(target: uint32)
    ensures ParseNa(NdPacket(NeighborSolicitation, target)) == None
  {
  }

  /** Parsing a built advertisement recovers the target, with the solicited
      flag clear and a zero MAC. */
  lemma ParseNaRoundTrip(target: uint32)
    ensures ParseNa(NdPacket(NeighborAdvertisement, target)) == Some(NaFields(target, Zeros(6), false))
  {
    NdLayout(NeighborAdvertisement, target);
    var p := NdPacket(NeighborAdvertisement, target);
    assert p[18..24] == Zeros(6);
  }

  /** `is_solicited` is exactly bit 6 (0x40) of byte 4. */
  lemma SolicitedIsBit6(packet: seq<byte>)
    requires ParseNa(packet).Some?
    ensures ParseNa(packet).value.isSolicited <==> Bit(packet[4], SolicitedBit) == 1
  {
    AndPow2(packet[4], SolicitedBit);
    assert Pow2(SolicitedBit) == 0x40;
  }
}
