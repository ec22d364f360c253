/** ARP requests and replies for IPv4 over Ethernet (include/ARP.h),
    RFC 826: a 28-byte packet. The header fields are written big-endian
    byte by byte; the IPv4 addresses are copied as raw 4-byte memory, so on
    the little-endian host a uint32 appears low byte first. */
module Arp {
  import opened Bytes
  import opened Options
  import opened Ethernet

  const OpRequest: uint16 := 1
  const OpReply: uint16 := 2

  /** Hardware type 1 (Ethernet), protocol 0x0800 (IPv4), sizes 6 and 4,
      then the opcode. */
  function FixedHeader(op: uint16): (h: seq<byte>)
    ensures |h| == 8
  {
    [0x00, 0x01, 0x08, 0x00, 0x06, 0x04] + BE16(op)
  }

  /** The 28 bytes of an ARP packet with the given opcode and addresses. */
  function ArpPacket(op: uint16, srcIp: uint32, srcMac: MacAddress, destIp: uint32, destMac: MacAddress)
    : (p: seq<byte>)
    ensures |p| == 28
  {
    FixedHeader(op) + srcMac + LE32(srcIp) + destMac + LE32(destIp)
  }

  /** What `parse_arp_packet` writes through its reference arguments on success. */
  datatype ArpFields = ArpFields(srcIp: uint32, srcMac: MacAddress, destIp: uint32, destMac: MacAddress, isRequest: bool)

  /** `parse_arp_packet`: at least 28 bytes and the Ethernet/IPv4 header
      values, or nothing is written; any opcode is accepted. */
  function ParseArp(packet: seq<byte>): Option<ArpFields>
  {
    if |packet| < 28 || ReadBE16(packet, 0) != 1 || ReadBE16(packet, 2) != 0x0800
       || packet[4] != 6 || packet[5] != 4
    then None
    else Some(ArpFields(ReadLE32(packet, 14), packet[8..14], ReadLE32(packet, 24), packet[18..24],
                        ReadBE16(packet, 6) == OpRequest))
  }

  /** Fills a zeroed 28-byte vector as both builders do; `target` is what
      goes to bytes 18-23 (the memset of the request or the memcpy of the
      reply). */
  method Build(op: uint16, srcIp: uint32, srcMac: MacAddress, destIp: uint32, target: MacAddress)
    returns (packet: seq<byte>)
    ensures packet == ArpPacket(op, srcIp, srcMac, destIp, target)
  {
    ghost var want := ArpPacket(op, srcIp, srcMac, destIp, target);
    ArpPieces(op, srcIp, srcMac, destIp, target);
    var pk := new byte[28](_ => 0);
    StoreInto(pk, 0, 0x00, want);
    StoreInto(pk, 1, 0x01, want);
    StoreInto(pk, 2, 0x08, want);
    StoreInto(pk, 3, 0x00, want);
    StoreInto(pk, 4, 0x06, want);
    StoreInto(pk, 5, 0x04, want);
    StoreInto(pk, 6, op / 0x100, want);
    StoreInto(pk, 7, op % 0x100, want);
    CopyInto(pk, 8, srcMac, want);
    CopyInto(pk, 14, LE32(srcIp), want);
    CopyInto(pk, 18, target, want);
    CopyInto(pk, 24, LE32(destIp), want);
    packet := pk[..];
    assert packet == packet[..28];
  }

  /** Where each field sits in a built packet. */
  lemma ArpPieces(op: uint16, srcIp: uint32, srcMac: MacAddress, destIp: uint32, destMac: MacAddress)
    ensures var p := ArpPacket(op, srcIp, srcMac, destIp, destMac);
      && p[0] == 0x00 && p[1] == 0x01 && p[2] == 0x08 && p[3] == 0x00 && p[4] == 0x06 && p[5] == 0x04
      && p[6] == op / 0x100 && p[7] == op % 0x100
      && p[8..14] == srcMac && p[14..18] == LE32(srcIp) && p[18..24] == destMac && p[24..28] == LE32(destIp)
  {
  }

  /** `create_arp_request`: opcode 1 and a zero target MAC. */
  method CreateArpRequest(srcIp: uint32, srcMac: MacAddress, destIp: uint32) returns (packet: seq<byte>)
    ensures packet == ArpPacket(OpRequest, srcIp, srcMac, destIp, Zeros(6))
  {
    packet := Build(OpRequest, srcIp, srcMac, destIp, Zeros(6));
  }

  /** `create_arp_reply`: opcode 2 and the target MAC at bytes 18-23. */
  method CreateArpReply(srcIp: uint32, srcMac: MacAddress, destIp: uint32, destMac: MacAddress)
    returns (packet: seq<byte>)
    ensures packet == ArpPacket(OpReply, srcIp, srcMac, destIp, destMac)
  {
    packet := Build(OpReply, srcIp, srcMac, destIp, destMac);
  }

  /** `parse_arp_packet`. The inputs ending in 0 are the caller's variables
      and buffers; they come back unchanged when the packet is rejected. */
  method ParseArpPacket(packet: seq<byte>, srcIp0: uint32, srcMac0: MacAddress, destIp0: uint32,
                        destMac0: MacAddress, isRequest0: bool)
    returns (ok: bool, srcIp: uint32, srcMac: MacAddress, destIp: uint32, destMac: MacAddress, isRequest: bool)
    ensures ok <==> ParseArp(packet).Some?
    ensures ok ==> ParseArp(packet) == Some(ArpFields(srcIp, srcMac, destIp, destMac, isRequest))
    ensures !ok ==> srcIp == srcIp0 && srcMac == srcMac0 && destIp == destIp0
                    && destMac == destMac0 && isRequest == isRequest0
  {
    srcIp, srcMac, destIp, destMac, isRequest := srcIp0, srcMac0, destIp0, destMac0, isRequest0;
    if |packet| < 28 {
      return false, srcIp, srcMac, destIp, destMac, isRequest;
    }
    var hardwareType := (packet[0] as int) * 0x100 + packet[1];
    var protocolType := (packet[2] as int) * 0x100 + packet[3];
    var hardwareSize := packet[4];
    var protocolSize := packet[5];
    var opcode := (packet[6] as int) * 0x100 + packet[7];
    if hardwareType != 1 || protocolType != 0x0800 || hardwareSize != 6 || protocolSize != 4 {
      return false, srcIp, srcMac, destIp, destMac, isRequest;
    }
    srcMac := packet[8..14];
    srcIp := ReadLE32(packet, 14);
    destMac := packet[18..24];
    destIp := ReadLE32(packet, 24);
    isRequest := opcode == 1;
    ok := true;
  }

  // ---------------------------------------------------------------------
  // Properties

  /** Layout of a built packet. */
  lemma ArpLayout(op: uint16, srcIp: uint32, srcMac: MacAddress, destIp: uint32, destMac: MacAddress)
    ensures var p := ArpPacket(op, srcIp, srcMac, destIp, destMac);
      && p[..6] == [0x00, 0x01, 0x08, 0x00, 0x06, 0x04] && ReadBE16(p, 6) == op
      && p[8..14] == srcMac && ReadLE32(p, 14) == srcIp
      && p[18..24] == destMac && ReadLE32(p, 24) == destIp
  {
    var p := ArpPacket(op, srcIp, srcMac, destIp, destMac);
    assert p[14..18] == LE32(srcIp) && p[24..28] == LE32(destIp);
    LE32Read(srcIp);
    LE32Read(destIp);
    assert ReadLE32(p, 14) == ReadLE32(p[14..18], 0);
    assert ReadLE32(p, 24) == ReadLE32(p[24..28], 0);
  }

  /** Parsing a built request recovers both IPs and the sender MAC, reports
      a request and gives a zero target MAC. */
  lemma ParseRequestRoundTrip(srcIp: uint32, srcMac: MacAddress, destIp: uint32)
    ensures ParseArp(ArpPacket(OpRequest, srcIp, srcMac, destIp, Zeros(6)))
         == Some(ArpFields(srcIp, srcMac, destIp, Zeros(6), true))
  {
    ArpLayout(OpRequest, srcIp, srcMac, destIp, Zeros(6));
  }

  /** Parsing a built reply recovers all four addresses and reports a
      non-request. */
  lemma ParseReplyRoundTrip(srcIp: uint32, srcMac: MacAddress, destIp: uint32, destMac: MacAddress)
    ensures ParseArp(ArpPacket(OpReply, srcIp, srcMac, destIp, destMac))
         == Some(ArpFields(srcIp, srcMac, destIp, destMac, false))
  {
    ArpLayout(OpReply, srcIp, srcMac, destIp, destMac);
  }

  /** The opcode only decides `is_request`: any opcode is accepted, and it
      is a request exactly when the opcode is 1. */
  lemma ParseAcceptsAnyOpcode(op: uint16, srcIp: uint32, srcMac: MacAddress, destIp: uint32, destMac: MacAddress)
    ensures ParseArp(ArpPacket(op, srcIp, srcMac, destIp, destMac))
         == Some(ArpFields(srcIp, srcMac, destIp, destMac, op == OpRequest))
  {
    ArpLayout(op, srcIp, srcMac, destIp, destMac);
  }

  /** The sizes checked: a packet is rejected when shorter than 28 bytes
      or when any of the four header values differs. */
  lemma ParseRejects(packet: seq<byte>)
    ensures ParseArp(packet).Some? <==>
      (|packet| >= 28 && packet[..6] == [0x00, 0x01, 0x08, 0x00, 0x06, 0x04])
  {
    if |packet| >= 28 {
      var h := packet[..6];
      assert packet[0] == h[0] && packet[1] == h[1] && packet[2] == h[2];
      assert packet[3] == h[3] && packet[4] == h[4] && packet[5] == h[5];
    }
  }

  /** The driver's ARP check (TCP-IP-Stack.cpp): a request built from the
      interface's address and MAC parses successfully as a request. */
  method ArpScenario(srcIp: uint32, srcMac: MacAddress, destIp: uint32)
    returns (ok: bool, isRequest: bool, targetMac: MacAddress)
    ensures ok && isRequest && targetMac == Zeros(6)
  {
    var request := CreateArpRequest(srcIp, srcMac, destIp);
    var sIp, sMac, dIp;
    ParseRequestRoundTrip(srcIp, srcMac, destIp);
    ok, sIp, sMac, dIp, targetMac, isRequest := ParseArpPacket(request, 0, Zeros(6), 0, Zeros(6), false);
  }
}
