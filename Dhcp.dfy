/** The DHCP client (include/DHCPClient.h), after RFC 2131 and the options
    of RFC 2132: it broadcasts DISCOVER and REQUEST messages and applies an
    OFFER or ACK whose transaction id matches its own. The socket is
    replaced by a log of the datagrams handed to `send_udp_packet`. */
module Dhcp {
  import opened Bytes
  import opened Addresses
  import opened Interfaces

  /** `sizeof(DHCPMessage)`: every field is naturally aligned, so there is
      no padding. */
  const MessageSize: nat := 548
  const OptionsOffset: nat := 236
  const OptionsSize: nat := 312

  const TransactionId: uint32 := 0x1234_5678

  /** Values of option 53, the DHCP message type. */
  const MsgDiscover: byte := 1
  const MsgRequest: byte := 3

  /** Option codes the walker acts on, and the end marker. */
  const OptSubnetMask: byte := 1
  const OptRouter: byte := 3
  const OptDnsServers: byte := 6
  const OptEnd: byte := 0xFF

  type Chaddr = s: seq<byte> | |s| == 16 witness seq(16, _ => 0)
  type Sname = s: seq<byte> | |s| == 64 witness seq(64, _ => 0)
  type BootFile = s: seq<byte> | |s| == 128 witness seq(128, _ => 0)
  type OptionsArea = s: seq<byte> | |s| == 312 witness seq(312, _ => 0)

  /** `struct DHCPMessage`, holding the stored values: `xid` and the
      addresses are whatever the code assigned, `htonl` included. */
  datatype DhcpMessage = DhcpMessage(
    op: byte, htype: byte, hlen: byte, hops: byte,
    xid: uint32, secs: uint16, flags: uint16,
    ciaddr: uint32, yiaddr: uint32, siaddr: uint32, giaddr: uint32,
    chaddr: Chaddr, sname: Sname, file: BootFile, options: OptionsArea)

  /** The default constructor's memset: every field zero. */
  function Blank(): DhcpMessage
  {
    DhcpMessage(0, 0, 0, 0, 0, 0, 0, 0, 0, 0, 0, Zeros(16), Zeros(64), Zeros(128), Zeros(312))
  }

  /** `serialize_dhcp_message`: the struct's memory, each word low byte
      first on the little-endian host. */
  function Image(m: DhcpMessage): (b: seq<byte>)
    ensures |b| == MessageSize
    ensures b[..4] == [m.op, m.htype, m.hlen, m.hops] && b[4..8] == LE32(m.xid)
    ensures b[16..20] == LE32(m.yiaddr)
    ensures b[28..44] == m.chaddr && b[OptionsOffset..] == m.options
  {
    HeadImage(m) + m.chaddr + m.sname + m.file + m.options
  }

  /** The 28 bytes before `chaddr`. */
  function HeadImage(m: DhcpMessage): (h: seq<byte>)
    ensures |h| == 28
  {
    ([m.op, m.htype, m.hlen, m.hops] + LE32(m.xid)) + (LE16(m.secs) + LE16(m.flags))
    + (LE32(m.ciaddr) + LE32(m.yiaddr)) + (LE32(m.siaddr) + LE32(m.giaddr))
  }

  /** `deserialize_dhcp_message`: a memcpy of the first 548 bytes. */
  function Parse(data: seq<byte>): (m: DhcpMessage)
    requires |data| >= MessageSize
    ensures LE32(m.xid) == data[4..8] && LE32(m.yiaddr) == data[16..20]
    ensures m.chaddr == data[28..44] && m.options == data[OptionsOffset..MessageSize]
  {
    LE32OfRead(data, 4);
    LE32OfRead(data, 16);
    DhcpMessage(data[0], data[1], data[2], data[3],
                ReadLE32(data, 4), ReadLE16(data, 8), ReadLE16(data, 10),
                ReadLE32(data, 12), ReadLE32(data, 16), ReadLE32(data, 20), ReadLE32(data, 24),
                data[28..44], data[44..108], data[108..236], data[236..548])
  }

  /** What the two senders fill in: op 1 (BOOTREQUEST), htype 1 (Ethernet),
      hlen 6, `xid = htonl(transaction_id)`, the MAC at the start of
      `chaddr`, and options `53, 1, t`. */
  function ClientMessage(t: byte, mac: seq<byte>): DhcpMessage
    requires |mac| == 6
  {
    Blank().(op := 1, htype := 1, hlen := 6, xid := Swap32(TransactionId),
             chaddr := mac + Zeros(10), options := [53, 1, t] + Zeros(309))
  }

  /** One call of `send_udp_packet`. */
  datatype Datagram = Datagram(payload: seq<byte>, srcPort: uint16, destPort: uint16, destIp: string)

  /** Client port 68 to server port 67, to the limited broadcast address. */
  function Broadcast(payload: seq<byte>): Datagram
  {
    Datagram(payload, 68, 67, "255.255.255.255")
  }

  /** The setters' record on the interface: what a handler may change. */
  datatype Settings = Settings(ipAddress: IPAddress, subnetMask: IPAddress, gateway: IPAddress,
                               dnsServers: seq<IPAddress>)

  function SettingsOf(n: NetworkInterface): Settings
    reads n
  {
    Settings(n.ipAddress, n.subnetMask, n.gateway, n.dnsServers)
  }

  // ---------------------------------------------------------------------
  // The option walk

  /** `IPAddress(ntohl(v))` for v copied out of four option bytes at i. */
  function OptionAddress(data: seq<byte>, i: nat): IPAddress
    requires i + 4 <= |data|
  {
    FromUint32(Swap32(ReadLE32(data, i)))
  }

  /** Option 6 from value byte i on: one server per whole four-byte
      group, in order. */
  function DnsFrom(data: seq<byte>, i: nat): (r: seq<IPAddress>)
    requires i <= |data|
    decreases |data| - i
  {
    if i + 4 > |data| then [] else [OptionAddress(data, i)] + DnsFrom(data, i + 4)
  }

  function DnsList(data: seq<byte>): (r: seq<IPAddress>)
  {
    DnsFrom(data, 0)
  }

  /** Every read `parse_dhcp_options` makes from `offset` on stays inside
      the options field: each record's length byte and value lie in it,
      and an option 6 value holds whole four-byte addresses. */
  predicate WellFormed(opts: seq<byte>, offset: nat)
    decreases |opts| - offset
  {
    || offset >= |opts| || opts[offset] == OptEnd
    || (&& offset + 1 < |opts|
        && offset + 2 + opts[offset + 1] <= |opts|
        && (opts[offset] == OptDnsServers ==> opts[offset + 1] % 4 == 0)
        && WellFormed(opts, offset + 2 + opts[offset + 1]))
  }

  /** The effect of one record with code `code` and value `data`. */
  function ApplyOption(code: byte, data: seq<byte>, s: Settings): Settings
  {
    if code == OptSubnetMask && |data| == 4 then s.(subnetMask := OptionAddress(data, 0))
    else if code == OptRouter && |data| == 4 then s.(gateway := OptionAddress(data, 0))
    else if code == OptDnsServers then s.(dnsServers := s.dnsServers + DnsList(data))
    else s
  }

  /** Reference definition of the walk: every code, 0 included, is a code,
      a length and that many value bytes; it stops at code 0xFF or at the
      end of the field. */
  function ApplyOptions(opts: seq<byte>, offset: nat, s: Settings): Settings
    requires WellFormed(opts, offset)
    decreases |opts| - offset
  {
    if offset >= |opts| || opts[offset] == OptEnd then s
    else
      var len := opts[offset + 1];
      ApplyOptions(opts, offset + 2 + len, ApplyOption(opts[offset], opts[offset + 2..offset + 2 + len], s))
  }

  lemma NextGroupFits(n: nat, i: nat)
    requires n % 4 == 0 && i % 4 == 0 && i < n
    ensures i + 4 <= n && (i + 4) % 4 == 0
  {
  }

  lemma AppendOne<T>(before: seq<T>, x: T, rest: seq<T>)
    ensures (before + [x]) + rest == before + ([x] + rest)
  {
  }

  /** The `for (i = 0; i < length; i += 4)` loop of option 6. */
  method AddDnsServers(netif: NetworkInterface, data: seq<byte>)
    requires |data| % 4 == 0
    modifies netif
    ensures netif.dnsServers == old(netif.dnsServers) + DnsList(data)
    ensures netif.name == old(netif.name) && netif.ipAddress == old(netif.ipAddress)
    ensures netif.subnetMask == old(netif.subnetMask) && netif.gateway == old(netif.gateway)
    ensures netif.mtu == old(netif.mtu)
  {
    ghost var want := old(netif.dnsServers) + DnsList(data);
    var i := 0;
    while i < |data|
      invariant 0 <= i <= |data| && i % 4 == 0
      invariant netif.dnsServers + DnsFrom(data, i) == want
      invariant netif.name == old(netif.name) && netif.ipAddress == old(netif.ipAddress)
      invariant netif.subnetMask == old(netif.subnetMask) && netif.gateway == old(netif.gateway)
      invariant netif.mtu == old(netif.mtu)
      decreases |data| - i
    {
      NextGroupFits(|data|, i);
      ghost var before := netif.dnsServers;
      var dns := OptionAddress(data, i);
      netif.AddDnsServer(dns);
      AppendOne(before, dns, DnsFrom(data, i + 4));
      i := i + 4;
    }
  }

  /** `parse_dhcp_options` over the 312 option bytes of a message. */
  method ParseDhcpOptions(netif: NetworkInterface, opts: seq<byte>)
    requires WellFormed(opts, 0)
    modifies netif
    ensures SettingsOf(netif) == ApplyOptions(opts, 0, old(SettingsOf(netif)))
    ensures netif.name == old(netif.name) && netif.mtu == old(netif.mtu)
  {
    var offset: nat := 0;
    while offset < |opts| && opts[offset] != OptEnd
      invariant WellFormed(opts, offset)
      invariant ApplyOptions(opts, offset, SettingsOf(netif)) == ApplyOptions(opts, 0, old(SettingsOf(netif)))
      invariant netif.name == old(netif.name) && netif.mtu == old(netif.mtu)
      decreases |opts| - offset
    {
      ghost var s := SettingsOf(netif);
      var option := opts[offset];
      offset := offset + 1;
      var length := opts[offset];
      offset := offset + 1;
      var data := opts[offset..offset + length];
      offset := offset + length;
      if option == OptSubnetMask {
        if length == 4 {
          netif.SetSubnetMask(OptionAddress(data, 0));
        }
      } else if option == OptRouter {
        if length == 4 {
          netif.SetGateway(OptionAddress(data, 0));
        }
      } else if option == OptDnsServers {
        AddDnsServers(netif, data);
      }
      assert SettingsOf(netif) == ApplyOption(option, data, s);
    }
  }

  // ---------------------------------------------------------------------
  // The client

  /** The handlers' gate: a full-size message whose stored `xid` equals
      `htonl(transaction_id)`. */
  predicate Accepts(packet: seq<byte>)
  {
    |packet| >= MessageSize && Parse(packet).xid == Swap32(TransactionId)
  }

  /** What the source leaves to undefined behaviour stays out: an accepted
      message must have an in-bounds option chain. */
  predicate Handleable(packet: seq<byte>)
  {
    Accepts(packet) ==> WellFormed(Parse(packet).options, 0)
  }

  /** `IPAddress(ntohl(message.yiaddr))` */
  function OfferedAddress(packet: seq<byte>): IPAddress
    requires |packet| >= MessageSize
  {
    FromUint32(Swap32(Parse(packet).yiaddr))
  }

  /** The interface record after an offer or an ack: untouched unless
      accepted; otherwise the options are applied and the IP is set from
      `yiaddr`. */
  function Handled(packet: seq<byte>, s: Settings): Settings
    requires Handleable(packet)
  {
    if !Accepts(packet) then s
    else ApplyOptions(Parse(packet).options, 0, s).(ipAddress := OfferedAddress(packet))
  }

  class DhcpClient {
    const netif: NetworkInterface
    const transactionId: uint32
    /** Datagrams handed to `send_udp_packet`, oldest first. */
    ghost var sent: seq<Datagram>

    predicate Valid()
      reads this, netif
    {
      netif.Valid() && transactionId == TransactionId
    }

    constructor(n: NetworkInterface)
      requires n.Valid()
      ensures Valid() && netif == n && sent == []
    {
      netif := n;
      transactionId := TransactionId;
      sent := [];
    }

    /** `send_dhcp_discover` */
    method SendDhcpDiscover()
      requires Valid()
      modifies this
      ensures Valid()
      ensures sent == old(sent) + [Broadcast(Image(ClientMessage(MsgDiscover, netif.mac[..])))]
    {
      var mac := netif.GetMacAddress();
      var packet := Image(ClientMessage(MsgDiscover, mac));
      sent := sent + [Broadcast(packet)];
    }

    /** `send_dhcp_request` */
    method SendDhcpRequest()
      requires Valid()
      modifies this
      ensures Valid()
      ensures sent == old(sent) + [Broadcast(Image(ClientMessage(MsgRequest, netif.mac[..])))]
    {
      var mac := netif.GetMacAddress();
      var packet := Image(ClientMessage(MsgRequest, mac));
      sent := sent + [Broadcast(packet)];
    }

    /** `handle_dhcp_offer`: a short packet is only reported, and a foreign
        xid is ignored; an accepted offer is applied and answered with a
        request. */
    method HandleDhcpOffer(packet: seq<byte>)
      requires Valid() && Handleable(packet)
      modifies this, netif
      ensures Valid()
      ensures SettingsOf(netif) == Handled(packet, old(SettingsOf(netif)))
      ensures netif.name == old(netif.name) && netif.mtu == old(netif.mtu)
      ensures sent == if Accepts(packet) then old(sent) + [Broadcast(Image(ClientMessage(MsgRequest, netif.mac[..])))]
                      else old(sent)
    {
      if |packet| < MessageSize {
        return;
      }
      var offer := Parse(packet);
      if offer.xid == Swap32(transactionId) {
        ParseDhcpOptions(netif, offer.options);
        var ipAddr := FromUint32(Swap32(offer.yiaddr));
        netif.SetIpAddress(ipAddr);
        SendDhcpRequest();
      }
    }

    /** `handle_dhcp_ack`: as an offer, but nothing is sent. */
    method HandleDhcpAck(packet: seq<byte>)
      requires Valid() && Handleable(packet)
      modifies netif
      ensures Valid()
      ensures SettingsOf(netif) == Handled(packet, old(SettingsOf(netif)))
      ensures netif.name == old(netif.name) && netif.mtu == old(netif.mtu)
    {
      if |packet| < MessageSize {
        return;
      }
      var ack := Parse(packet);
      if ack.xid == Swap32(transactionId) {
        ParseDhcpOptions(netif, ack.options);
        var ipAddr := FromUint32(Swap32(ack.yiaddr));
        netif.SetIpAddress(ipAddr);
      }
    }
  }

  // ---------------------------------------------------------------------
  // Properties

  lemma HeadRead(m: DhcpMessage, b: seq<byte>)
    requires |b| >= 28 && b[..28] == HeadImage(m)
    ensures b[0] == m.op && b[1] == m.htype && b[2] == m.hlen && b[3] == m.hops
    ensures ReadLE32(b, 4) == m.xid && ReadLE16(b, 8) == m.secs && ReadLE16(b, 10) == m.flags
    ensures ReadLE32(b, 12) == m.ciaddr && ReadLE32(b, 16) == m.yiaddr
    ensures ReadLE32(b, 20) == m.siaddr && ReadLE32(b, 24) == m.giaddr
  {
    var h := HeadImage(m);
    assert b[4..8] == h[4..8] == LE32(m.xid);
    assert b[8..10] == h[8..10] == LE16(m.secs);
    assert b[10..12] == h[10..12] == LE16(m.flags);
    assert b[12..16] == h[12..16] == LE32(m.ciaddr);
    assert b[16..20] == h[16..20] == LE32(m.yiaddr);
    assert b[20..24] == h[20..24] == LE32(m.siaddr);
    assert b[24..28] == h[24..28] == LE32(m.giaddr);
    ReadLE32At(b, 4, m.xid);
    ReadLE32At(b, 12, m.ciaddr);
    ReadLE32At(b, 16, m.yiaddr);
    ReadLE32At(b, 20, m.siaddr);
    ReadLE32At(b, 24, m.giaddr);
  }

  /** `deserialize` undoes `serialize`: the memcpy round trip holds on any
      host. */
  lemma ParseImage(m: DhcpMessage)
    ensures Parse(Image(m)) == m
  {
    var b := Image(m);
    assert b[..28] == HeadImage(m);
    HeadRead(m, b);
    assert b[28..44] == m.chaddr && b[44..108] == m.sname;
    assert b[108..236] == m.file && b[236..548] == m.options;
  }

  lemma HeadParse(data: seq<byte>)
    requires |data| >= MessageSize
    ensures HeadImage(Parse(data)) == data[..28]
  {
    var m := Parse(data);
    LE32OfRead(data, 4);
    LE32OfRead(data, 12);
    LE32OfRead(data, 16);
    LE32OfRead(data, 20);
    LE32OfRead(data, 24);
    assert [m.op, m.htype, m.hlen, m.hops] + LE32(m.xid) == data[..8];
    assert LE16(m.secs) + LE16(m.flags) == data[8..12];
    assert LE32(m.ciaddr) + LE32(m.yiaddr) == data[12..20];
    assert LE32(m.siaddr) + LE32(m.giaddr) == data[20..28];
    var d := data[..28];
    assert d == d[..8] + d[8..12] + d[12..20] + d[20..28];
  }

  /** ... and `serialize` undoes `deserialize` on the bytes it copies. */
  lemma ImageParse(data: seq<byte>)
    requires |data| >= MessageSize
    ensures Image(Parse(data)) == data[..MessageSize]
  {
    HeadParse(data);
    var d := data[..MessageSize];
    assert d == d[..28] + d[28..44] + d[44..108] + d[108..236] + d[236..548];
  }

  /** Both client messages carry op 1, htype 1, hlen 6, the xid bytes
      12 34 56 78, the MAC at bytes 28-33 and the message-type option at
      236-238; every other byte is zero. */
  lemma ClientMessageLayout(t: byte, mac: seq<byte>)
    requires |mac| == 6
    ensures var b := Image(ClientMessage(t, mac));
      && b[..4] == [1, 1, 6, 0]
      && b[4..8] == [0x12, 0x34, 0x56, 0x78]
      && b[28..34] == mac
      && b[OptionsOffset..OptionsOffset + 3] == [53, 1, t]
      && (forall i :: 8 <= i < 28 || 34 <= i < 236 || 239 <= i < 548 ==> b[i] == 0)
  {
    StoredSwap32(TransactionId);
    assert BE32(TransactionId) == [0x12, 0x34, 0x56, 0x78];
  }

  /** The gate compares the raw bytes 4-7 with 12 34 56 78. */
  lemma AcceptsIff(packet: seq<byte>)
    ensures Accepts(packet) <==> |packet| >= MessageSize && packet[4..8] == [0x12, 0x34, 0x56, 0x78]
  {
    assert BE32(TransactionId) == [0x12, 0x34, 0x56, 0x78];
    StoredSwap32(TransactionId);
    if |packet| >= MessageSize {
      LE32OfRead(packet, 4);
      if packet[4..8] == BE32(TransactionId) {
        LE32Read(Swap32(TransactionId));
        assert ReadLE32(packet, 4) == ReadLE32(packet[4..8], 0);
      }
    }
  }

  /** The client's own messages pass its gate: their xid is the one it
      waits for. */
  lemma ClientMessageAccepted(t: byte, mac: seq<byte>)
    requires |mac| == 6
    ensures Accepts(Image(ClientMessage(t, mac)))
  {
    ParseImage(ClientMessage(t, mac));
  }

  /** A rejected packet changes nothing: short, or another xid. */
  lemma HandledRejects(packet: seq<byte>, s: Settings)
    requires |packet| < MessageSize || packet[4..8] != [0x12, 0x34, 0x56, 0x78]
    ensures Handleable(packet) && Handled(packet, s) == s
  {
    AcceptsIff(packet);
  }

  /** `IPAddress(ntohl(v))` of four copied bytes holds them in reverse
      order: the value is converted to host order and then copied raw. */
  lemma OptionAddressBytes(data: seq<byte>, i: nat)
    requires i + 4 <= |data|
    ensures OptionAddress(data, i).address[..4] == [data[i + 3], data[i + 2], data[i + 1], data[i]]
  {
    var v := ReadLE32(data, i);
    StoredSwap32(v);
    BE32OfReadLE(data, i);
    assert OptionAddress(data, i).address[..4] == LE32(Swap32(v));
  }

  /** The offered IP holds the four `yiaddr` bytes of the packet in
      reverse order. */
  lemma OfferedAddressBytes(packet: seq<byte>)
    requires |packet| >= MessageSize
    ensures OfferedAddress(packet).address[..4] == [packet[19], packet[18], packet[17], packet[16]]
  {
    OptionAddressBytes(packet, 16);
  }

  // ---------------------------------------------------------------------
  // Finding: every address the client takes from a message (`yiaddr` and
  // options 1, 3 and 6) is converted with ntohl and then copied raw by the
  // uint32 constructor of IPAddress, so on the little-endian host its four
  // bytes end up reversed. The driver's offer builder stores
  // `htonl(inet_addr(...))`, which reverses them once more and hides it.

  /** As written: a server offering 192.168.0.100, in network byte order as
      RFC 2131 sends it, leaves the interface with 100.0.168.192. */
  lemma OfferedAddressReversed(packet: seq<byte>)
    requires |packet| >= MessageSize && packet[16..20] == [192, 168, 0, 100]
    ensures OfferedAddress(packet).address[..4] == [100, 0, 168, 192]
  {
    OfferedAddressBytes(packet);
    assert packet[16] == 192 && packet[17] == 168 && packet[18] == 0 && packet[19] == 100;
  }

  /** `inet_addr("192.168.0.100")`: the network-order bytes held in a
      uint32, read back on the little-endian host. */
  const DriverOfferIp: uint32 := 0x6400_A8C0

  /** The driver's offer stores `htonl(inet_addr(...))` in `yiaddr`, whose
      bytes on the wire are the address reversed; the handler reverses them
      back, so the driver sees 192.168.0.100. */
  lemma DriverOfferHidesReversal(packet: seq<byte>)
    requires |packet| >= MessageSize && packet[16..20] == LE32(Swap32(DriverOfferIp))
    ensures OfferedAddress(packet).address[..4] == [192, 168, 0, 100]
  {
    assert BE32(DriverOfferIp) == [0x64, 0x00, 0xA8, 0xC0];
    StoredSwap32(DriverOfferIp);
    OfferedAddressBytes(packet);
    assert packet[16] == 0x64 && packet[17] == 0 && packet[18] == 0xA8 && packet[19] == 0xC0;
  }

  /** Corrected reading: the four copied bytes go to the constructor as
      they are, without ntohl. */
  function OptionAddressCorrected(data: seq<byte>, i: nat): IPAddress
    requires i + 4 <= |data|
  {
    FromUint32(ReadLE32(data, i))
  }

  /** The corrected address keeps the wire's byte order, so a dotted
      address on the wire is the dotted address stored. */
  lemma OptionAddressCorrectedKeepsOrder(data: seq<byte>, i: nat)
    requires i + 4 <= |data|
    ensures OptionAddressCorrected(data, i).kind == IPv4
    ensures OptionAddressCorrected(data, i).address[..4] == data[i..i + 4]
  {
    var a := OptionAddressCorrected(data, i).address;
    assert a == LE32(ReadLE32(data, i)) + Zeros(12);
    LE32OfRead(data, i);
  }

  /** The walk never touches the IP address, and only ever appends DNS
      servers. */
  lemma {:induction false} ApplyOptionsFrames(opts: seq<byte>, offset: nat, s: Settings)
    requires WellFormed(opts, offset)
    ensures ApplyOptions(opts, offset, s).ipAddress == s.ipAddress
    ensures s.dnsServers <= ApplyOptions(opts, offset, s).dnsServers
    decreases |opts| - offset
  {
    if !(offset >= |opts| || opts[offset] == OptEnd) {
      var len := opts[offset + 1];
      var s1 := ApplyOption(opts[offset], opts[offset + 2..offset + 2 + len], s);
      ApplyOptionsFrames(opts, offset + 2 + len, s1);
    }
  }

  /** A record the walker does not act on (an unknown code, or option 1 or
      3 with a length other than 4) is skipped by its length. */
  lemma SkipsInert(opts: seq<byte>, offset: nat, s: Settings)
    requires WellFormed(opts, offset) && offset < |opts| && opts[offset] != OptEnd
    requires var c := opts[offset];
      c !in {OptSubnetMask, OptRouter, OptDnsServers}
      || (c in {OptSubnetMask, OptRouter} && opts[offset + 1] != 4)
    ensures ApplyOptions(opts, offset, s) == ApplyOptions(opts, offset + 2 + opts[offset + 1], s)
  {
  }

  /** Option 1 of length 4 followed by the end marker sets only the subnet
      mask, from its four value bytes. */
  lemma SubnetMaskRecord(opts: seq<byte>, offset: nat, s: Settings)
    requires offset + 7 <= |opts|
    requires opts[offset] == OptSubnetMask && opts[offset + 1] == 4 && opts[offset + 6] == OptEnd
    ensures WellFormed(opts, offset)
    ensures ApplyOptions(opts, offset, s) == s.(subnetMask := OptionAddress(opts, offset + 2))
  {
    assert WellFormed(opts, offset + 6);
    var d := opts[offset + 2..offset + 6];
    assert ReadLE32(d, 0) == ReadLE32(opts, offset + 2);
  }

  /** Option 3 of length 4 followed by the end marker sets only the
      gateway, from its four value bytes. */
  lemma RouterRecord(opts: seq<byte>, offset: nat, s: Settings)
    requires offset + 7 <= |opts|
    requires opts[offset] == OptRouter && opts[offset + 1] == 4 && opts[offset + 6] == OptEnd
    ensures WellFormed(opts, offset)
    ensures ApplyOptions(opts, offset, s) == s.(gateway := OptionAddress(opts, offset + 2))
  {
    assert WellFormed(opts, offset + 6);
    var d := opts[offset + 2..offset + 6];
    assert ReadLE32(d, 0) == ReadLE32(opts, offset + 2);
  }

  /** One server per whole four-byte group. */
  lemma {:induction false} DnsFromLength(data: seq<byte>, i: nat)
    requires i <= |data|
    ensures |DnsFrom(data, i)| == (|data| - i) / 4
    decreases |data| - i
  {
    if i + 4 <= |data| {
      DnsFromLength(data, i + 4);
    }
  }

  /** Option 6 adds one server per four value bytes, in order: the k-th
      new server is read from value bytes 4k to 4k + 3. */
  lemma {:induction false} DnsFromInOrder(data: seq<byte>, i: nat, k: nat)
    requires i + 4 * k + 4 <= |data|
    ensures k < |DnsFrom(data, i)| && DnsFrom(data, i)[k] == OptionAddress(data, i + 4 * k)
    decreases k
  {
    if k > 0 {
      DnsFromLength(data, i);
      DnsFromInOrder(data, i + 4, k - 1);
      assert i + 4 + 4 * (k - 1) == i + 4 * k;
    }
  }

  // ---------------------------------------------------------------------
  // Finding: code 0 (RFC 2132 section 3.1, the one-byte Pad option) is
  // walked as a code with a length byte. The driver's offer has options
  // 53, 1, 2 followed by zeros, so the walk steps through the zeros two at
  // a time from offset 3 and, at offset 311, reads its length byte from
  // offset 312, one past the field.

  /** The driver's options field (TCP-IP-Stack.cpp): message type 2
      (OFFER) and no end marker. */
  function DriverOfferOptions(): (o: seq<byte>)
    ensures |o| == OptionsSize
  {
    [53, 1, 2] + Zeros(309)
  }

  lemma {:induction false} ZeroTailOverruns(opts: seq<byte>, k: nat)
    requires |opts| == OptionsSize && k < |opts| && k % 2 == 1
    requires forall j :: k <= j < |opts| ==> opts[j] == 0
    ensures !WellFormed(opts, k)
    decreases |opts| - k
  {
    if k + 2 < |opts| {
      ZeroTailOverruns(opts, k + 2);
    }
  }

  /** As written: the walk over the driver's offer leaves the field. */
  lemma DriverOfferOverruns()
    ensures !WellFormed(DriverOfferOptions(), 0)
  {
    var o := DriverOfferOptions();
    assert o[0] == 53 && o[1] == 1;
    ZeroTailOverruns(o, 3);
  }

  /** Corrected walk: a pad is one byte, a record that does not fit ends
      the walk, and an option 6 value uses only its whole four-byte groups.
      It needs no precondition: every read is inside the field. */
  function ApplyOptionsChecked(opts: seq<byte>, offset: nat, s: Settings): Settings
    decreases |opts| - offset
  {
    if offset >= |opts| || opts[offset] == OptEnd then s
    else if opts[offset] == 0 then ApplyOptionsChecked(opts, offset + 1, s)
    else if offset + 1 >= |opts| || offset + 2 + opts[offset + 1] > |opts| then s
    else
      var len := opts[offset + 1];
      ApplyOptionsChecked(opts, offset + 2 + len, ApplyOption(opts[offset], opts[offset + 2..offset + 2 + len], s))
  }

  lemma {:induction false} PadsSkipped(opts: seq<byte>, k: nat, s: Settings)
    requires k <= |opts|
    requires forall j :: k <= j < |opts| ==> opts[j] == 0
    ensures ApplyOptionsChecked(opts, k, s) == s
    decreases |opts| - k
  {
    if k < |opts| {
      PadsSkipped(opts, k + 1, s);
    }
  }

  /** The corrected walk reads the driver's offer as one inert record
      followed by padding, and changes nothing. */
  lemma DriverOfferCorrected(s: Settings)
    ensures ApplyOptionsChecked(DriverOfferOptions(), 0, s) == s
  {
    var o := DriverOfferOptions();
    assert o[0] == 53 && o[1] == 1;
    PadsSkipped(o, 3, s);
  }

  /** Where the chain is in bounds and has no code 0, the corrected walk
      is the source's. */
  predicate PadFree(opts: seq<byte>, offset: nat)
    requires WellFormed(opts, offset)
    decreases |opts| - offset
  {
    offset >= |opts| || opts[offset] == OptEnd
    || (opts[offset] != 0 && PadFree(opts, offset + 2 + opts[offset + 1]))
  }

  lemma {:induction false} CheckedAgrees(opts: seq<byte>, offset: nat, s: Settings)
    requires WellFormed(opts, offset) && PadFree(opts, offset)
    ensures ApplyOptionsChecked(opts, offset, s) == ApplyOptions(opts, offset, s)
    decreases |opts| - offset
  {
    if !(offset >= |opts| || opts[offset] == OptEnd) {
      var len := opts[offset + 1];
      CheckedAgrees(opts, offset + 2 + len, ApplyOption(opts[offset], opts[offset + 2..offset + 2 + len], s));
    }
  }
}
