# A verified model of a header-only TCP/IP stack

This project models, in Dafny, the core of a small header-only C++ TCP/IP
stack. The stack has:

- a TCP connection state machine that wraps each segment it sends in an
  IPv4 packet and an Ethernet frame;
- wire codecs for Ethernet II, IPv4, TCP and UDP, with the Internet
  checksum of RFC 1071;
- builders and parsers for ICMP echo, ARP and simplified Neighbour
  Discovery messages;
- a DHCP client with its option walker, and SLAAC address construction;
- a first-match routing table, tagged IP addresses, the network-interface
  record and a one-slot mock socket.

There is one Dafny module per C++ header:

| module | header |
|---|---|
| `TcpConnections` | `TCPConnection.h` |
| `Tcp` | `TCP.h` |
| `IPv4` | `IP.h` |
| `Udp` | `UDP.h` |
| `Ethernet` | `Ethernet.h` |
| `Icmp` | `ICMP.h` |
| `Arp` | `ARP.h` |
| `Nd` | `ND.h` |
| `Dhcp` | `DHCPClient.h` |
| `Slaac` | `SLAACClient.h` |
| `Routing` | `RoutingTable.h` |
| `Routes` | `Route.h` |
| `Addresses` | `IPAddress.h` |
| `Interfaces` | `NetworkInterface.h` |
| `Sockets` | `Socket.h` |

Two modules are shared by the others:

- `Bytes`: fixed-width integers, big- and little-endian reads and writes, `memcpy` into arrays, bitwise AND and the bit-1 toggle;
- `Checksum`: the RFC 1071 reference sum and the facts about folding.

## Host byte order

The stack stores `htons`/`htonl` results in its structs and then
`memcpy`s those fields out. What ends up on the wire therefore depends on
the host. The model fixes the little-endian host of the WinSock target:

- A datatype field holds the value the C++ struct stores, i.e. the
  network-order value.
- `htons`/`htonl` are the byte swaps `Swap16`/`Swap32`.
- A `memcpy` of a stored field writes it low byte first (`LE16`/`LE32`).
- Code that shifts bytes out explicitly writes big-endian (`BE16`/`BE32`).
  This is true of `create_tcp_header`, the Ethernet type and everything in
  ICMP.

## How the state is modelled

Code that updates state is written as imperative Dafny:

- Classes with `modifies` clauses: `TcpConnection`, `RoutingTable`,
  `NetworkInterface`, `Socket`, `DhcpClient` and `SlaacClient`.
- Buffers filled in place are `array`s, and loops are `while`/`for` loops
  with invariants. Examples are the checksum loops, the ICMP carry fold,
  the option walk and the route scan.

Each such method is proved against a reference function:

- `Step` for the connection events;
- `ApplyOptions` for the option walk;
- `FirstMatch` for `find_route`;
- `OnesSum` for the RFC 1071 checksum.

The properties the source promises are then lemmas about those functions.

The sockets are replaced by ghost logs of what would have been sent:

- `TcpConnection.frames`;
- `DhcpClient.sent`;
- `SlaacClient.sent`.

## Model

| member | source | states |
|---|---|---|
| TcpConnections.StateName | include/TCPConnection.h:184-199 | every state has a name of its own; "UNKNOWN" is never returned |
| TcpConnections.StateNameRoundTrip | include/TCPConnection.h:184-199 | the name of each state reads back as that state |
| TcpConnections.StateNameInjective | include/TCPConnection.h:184-199 | two states have the same name exactly when they are the same state |
| TcpConnections.Inc | include/TCPConnection.h:67 | `x + 1` in uint32 arithmetic: 0xFFFFFFFF wraps to 0, every other value goes up by one |
| TcpConnections.Step | include/TCPConnection.h:50-157 | an event whose guard fails leaves state, seq_num and ack_num as they are and sends nothing |
| TcpConnections.MaxKey | include/TCPConnection.h:170 | the key `rbegin` designates: a member of the key set that no other key exceeds |
| TcpConnections.TcpConnection.constructor | include/TCPConnection.h:40-48 | a new connection is CLOSED with seq_num = ack_num = 0, keeps its ports and addresses, has an empty segment map, has its last send time at the clock's epoch and has sent nothing |
| TcpConnections.TcpConnection.SendSegment | include/TCPConnection.h:52-58 | builds segment, packet and frame, and appends exactly ConnectionFrame of them to the log; no field changes |
| TcpConnections.TcpConnection.SendSyn | include/TCPConnection.h:50-62 | new state and counters are those of Step for `send_syn`; the log grows by the frame Step emits, if any |
| TcpConnections.TcpConnection.ReceiveSyn | include/TCPConnection.h:64-71 | as SendSyn, for `receive_syn` (never sends) |
| TcpConnections.TcpConnection.ReceiveSynAck | include/TCPConnection.h:73-86 | as SendSyn, for `receive_syn_ack` |
| TcpConnections.TcpConnection.SendAck | include/TCPConnection.h:88-100 | as SendSyn, for `send_ack` |
| TcpConnections.TcpConnection.SendFin | include/TCPConnection.h:102-114 | as SendSyn, for `send_fin` |
| TcpConnections.TcpConnection.ReceiveAckForFin | include/TCPConnection.h:116-121 | as SendSyn, for `receive_ack_for_fin` |
| TcpConnections.TcpConnection.ReceiveFin | include/TCPConnection.h:123-150 | as SendSyn, for the three branches of `receive_fin` |
| TcpConnections.TcpConnection.ReceiveAck | include/TCPConnection.h:152-157 | as SendSyn, for `receive_ack` |
| TcpConnections.TcpConnection.RetransmitLastSegment | include/TCPConnection.h:168-174 | the bytes under the largest key go out unmodified; an empty map sends nothing; no field changes |
| TcpConnections.TcpConnection.HandleTimeout | include/TCPConnection.h:159-166 | if strictly more than 3 s have passed since the last send, it retransmits and sets the last send time to `now`; otherwise nothing changes |
| TcpConnections.GuardDecides | include/TCPConnection.h:50-157 | an event changes the state exactly when its guard holds, and sends something only then |
| TcpConnections.TransitionTable | include/TCPConnection.h:50-157 | CLOSED to SYN_SENT, LISTEN to SYN_RECEIVED, SYN_SENT to ESTABLISHED, SYN_RECEIVED to ESTABLISHED, ESTABLISHED to FIN_WAIT_1, FIN_WAIT_1 to FIN_WAIT_2, the three `receive_fin` moves, LAST_ACK to CLOSED |
| TcpConnections.CounterWrites | include/TCPConnection.h:64-86 | only `receive_syn` writes seq_num (to the segment's ack number); only `receive_syn` and `receive_syn_ack` write ack_num (to the segment's seq number + 1 mod 2^32) |
| TcpConnections.EmittedNumbers | include/TCPConnection.h:52-146 | SYN and the SYN_RECEIVED ACK carry seq_num, every other segment carries seq_num + 1; all carry the updated ack_num; the flags are SYN, FIN or ACK as the event says |
| TcpConnections.EmittingEvents | include/TCPConnection.h:50-157 | an enabled event sends nothing exactly for `receive_syn`, `receive_ack_for_fin`, `receive_ack` and `receive_fin` in ESTABLISHED |
| TcpConnections.AckNumWraps | include/TCPConnection.h:75 | a SYN-ACK with sequence number 0xFFFFFFFF sets ack_num to 0 |
| TcpConnections.GuardFlags | include/TCPConnection.h:65-74 | `receive_syn_ack` accepts SYN or ACK alone but not FIN alone; `receive_syn` does not accept ACK alone |
| TcpConnections.RunKeepsReachable | include/TCPConnection.h:41-157 | no sequence of events leads into LISTEN or CLOSING from any other state |
| TcpConnections.NeverListenOrClosing | include/TCPConnection.h:41-157 | from construction neither LISTEN nor CLOSING is ever reached, so `receive_syn` never fires |
| TcpConnections.ConnectionFrameLayout | include/TCPConnection.h:52-58 | each sent frame is 54 bytes: broadcast destination, MAC 00:0c:29:36:bc:17, type 0x0800; IPv4 protocol 6 with the connection's addresses and a verifying header checksum; a TCP segment with the ports, numbers and flags and a verifying checksum |
| TcpConnections.NothingToRetransmit | include/TCPConnection.h:211 | the connection's map, which no method fills, makes every retransmission empty |
| TcpConnections.DriverSynAck | TCP-IP-Stack/TCP-IP-Stack.cpp:125 | the driver's SYN-ACK stores sequence number 0 and flags SYN and ACK |
| TcpConnections.DriverRun | TCP-IP-Stack/TCP-IP-Stack.cpp:122-136 | the driver's seven calls end in TIME_WAIT after exactly four frames: SYN, ACK, FIN, ACK |
| TcpConnections.DriverStrayAcks | TCP-IP-Stack/TCP-IP-Stack.cpp:128-136 | both `receive_ack` calls of the driver, in ESTABLISHED and in TIME_WAIT, change nothing and send nothing |
| Tcp.SumPayloadWords | include/TCP.h:112-118 | the payload loop adds, in 32-bit arithmetic, the byte-swapped big-endian words of the payload (an odd last byte as the high half) |
| Tcp.CalculateChecksum | include/TCP.h:105-122 | header words from memory, then payload words, two folds, complement and `htons` give SegmentChecksum |
| Tcp.NewSegment | include/TCP.h:32-44 | the constructor's segment: swapped ports and numbers, data offset 0x50, window 8192, urgent 0, flags f, the payload and the computed checksum |
| Tcp.Serialize | include/TCP.h:46-59 | the bytes are the stored fields copied out, then the payload |
| Tcp.MakeLayout | include/TCP.h:32-59 | a serialised constructed segment is 20 + payload bytes with big-endian ports, seq and ack, 0x50 at 12, the flags at 13, window 8192, urgent 0 and the payload from 20 |
| Tcp.EmptyPayloadChecksumVerifies | include/TCP.h:105-122 | with the checksum field 0 and an empty payload, storing the computed checksum makes the ten header words add up to 0xFFFF with end-around carry |
| Tcp.MakeEmptyChecksumVerifies | include/TCP.h:32-44 | every empty-payload segment the constructor builds verifies |
| Tcp.OneBytePayloadChecksumFails | include/TCP.h:112-118 | with a one-byte non-zero payload the stored checksum never verifies |
| Tcp.MakeOneByteChecksumFails | include/TCP.h:32-44 | a constructed segment with a one-byte non-zero payload fails verification |
| Tcp.CorrectedChecksumVerifies | include/TCP.h:105-122 | with the payload words summed big-endian, every segment with a payload of at most 65535 bytes verifies |
| Tcp.CorrectedAgreesOnEmpty | include/TCP.h:112-118 | for an empty payload the corrected and the original checksums coincide |
| Tcp.CreateTcpHeader | include/TCP.h:76-103 | 20 bytes: ports, seq, ack and window big-endian, 0x50 and the flags at 12-13, zero checksum and urgent field |
| Tcp.CreateTcpHeaderReadBack | include/TCP.h:61-103 | reading `create_tcp_header` output with the big-endian reads of `deserialize` recovers ports, seq, ack, flags and window; bytes 16-19 are zero |
| Tcp.CreateTcpHeaderMatchesSerialize | include/TCP.h:46-103 | apart from the checksum, `create_tcp_header` with window 8192 writes the same bytes as serialising a constructed empty segment |
| Tcp.Deserialize | include/TCP.h:61-73 | the stored ports and numbers are the big-endian reads of bytes 0-11 themselves (ntohs/ntohl and the constructor's htons/htonl cancel); flags from byte 13, payload from byte 20 |
| Tcp.DeserializeDiscards | include/TCP.h:61-74 | the result depends only on bytes 0-11, byte 13 and the payload: data offset, window, checksum and urgent field are dropped |
| Tcp.DeserializeRebuilds | include/TCP.h:61-74 | flags come from byte 13 and the payload from byte 20; data offset, window and urgent field are the constructor's |
| Tcp.DeserializeSwapsFields | include/TCP.h:61-74 | decoding a serialised segment gives the segment built from byte-swapped ports and numbers |
| Tcp.DeserializeRoundTripFails | include/TCP.h:61-74 | source port 12345 comes back different |
| Tcp.DeserializeCorrectedRoundTrip | include/TCP.h:61-74 | without the extra conversion, decoding a serialised segment gives it back |
| IPv4.CalculateChecksum | include/IP.h:70-79 | the ten header words from memory, two folds, complement and `htons` give HeaderChecksum |
| IPv4.NewPacket | include/IP.h:22-35 | the constructor's packet: 0x45, DSCP 0, length (20 + payload) mod 2^16, id 0, DF, TTL 64, the protocol, swapped addresses and the computed checksum |
| IPv4.Serialize | include/IP.h:37-51 | the bytes are the stored fields copied out, then the payload |
| IPv4.MakeLayout | include/IP.h:22-51 | a serialised constructed packet is 20 + payload bytes with 0x45, 0, the length, id 0 and 0x4000 big-endian, TTL 64, the protocol, both addresses big-endian and the payload from 20 |
| IPv4.ChecksumVerifies | include/IP.h:70-79 | on a header with checksum 0, storing the computed checksum makes the ten words add up to 0xFFFF with end-around carry |
| IPv4.MakeChecksumVerifies | include/IP.h:22-35 | every constructed packet's header verifies |
| IPv4.ChecksumCoversHeaderOnly | include/IP.h:70-79 | packets whose payloads differ but have the same length get identical header bytes |
| IPv4.Deserialize | include/IP.h:53-66 | protocol from byte 9 and payload from byte 20; the stored addresses are the big-endian reads of bytes 12-19 themselves (ntohl and the constructor's htonl cancel) |
| IPv4.DeserializeDiscards | include/IP.h:53-67 | the result depends only on byte 9, bytes 12-19 and the payload |
| IPv4.DeserializeRebuilds | include/IP.h:53-67 | protocol and payload are kept, TTL and id are rebuilt, and the rebuilt header verifies whatever checksum the input had |
| IPv4.DeserializeSwapsAddresses | include/IP.h:53-67 | decoding a serialised packet gives the packet built from byte-swapped addresses |
| IPv4.DeserializeRoundTripFails | include/IP.h:53-67 | source 1.2.3.4 comes back different |
| IPv4.DeserializeCorrectedRoundTrip | include/IP.h:53-67 | without the extra conversion, decoding a serialised packet gives it back |
| Udp.Make | include/UDP.h:16-21 | the length field is (8 + payload) mod 2^16 in network order; the checksum is 0 |
| Udp.Serialize | include/UDP.h:23-31 | the bytes are the four stored fields copied out, then the payload |
| Udp.MakeLayout | include/UDP.h:16-31 | 8 + payload bytes: ports and length big-endian, bytes 6-7 zero, the payload from 8 |
| Udp.Deserialize | include/UDP.h:33-40 | the stored ports are the big-endian reads of bytes 0-3 themselves (ntohs and the constructor's htons cancel); payload from byte 8 |
| Udp.DeserializeRecomputes | include/UDP.h:33-41 | the decoded length reflects the real payload and the checksum is 0, whatever the input said |
| Udp.DeserializeDiscards | include/UDP.h:33-41 | bytes 4-7 of the input play no part in the result |
| Udp.DeserializeSwapsPorts | include/UDP.h:33-41 | decoding a serialised datagram gives the datagram built from byte-swapped ports |
| Udp.DeserializeRoundTripFails | include/UDP.h:33-41 | port 53 comes back different |
| Udp.DeserializeCorrectedRoundTrip | include/UDP.h:33-41 | without the extra conversion, decoding a serialised datagram gives it back |
| Ethernet.NewFrame | include/Ethernet.h:15-20 | exactly six bytes of each MAC and the whole payload are copied |
| Ethernet.Serialize | include/Ethernet.h:22-30 | the bytes are dest, src, type high byte first, payload |
| Ethernet.SerializeLayout | include/Ethernet.h:22-30 | 14 + payload bytes; dest at 0-5, src at 6-11, type big-endian at 12-13, payload from 14 |
| Ethernet.Deserialize | include/Ethernet.h:32-41 | the type is read big-endian from bytes 12-13, and serialising the frame gives back exactly the input bytes |
| Ethernet.DeserializeSerialize | include/Ethernet.h:22-41 | decoding a serialised frame gives it back, field by field |
| Ethernet.SerializeDeserialize | include/Ethernet.h:32-41 | serialising a decoded input of at least 14 bytes gives the input back |
| Checksum.SumMemoryWords | include/IP.h:72-75 | adding `ntohs` of the header's host-order words gives the plain sum of its big-endian words |
| Checksum.OnesSumIsFold | include/IP.h:72-78 | adding words one at a time with end-around carry equals folding their plain sum |
| Checksum.FoldStep | include/ICMP.h:35-37 | one step `(sum & 0xFFFF) + (sum >> 16)` keeps the one's-complement value |
| Checksum.TwoStepFoldCorrect | include/IP.h:76-78 | two folds suffice for any 32-bit sum: the result is the one's-complement value, and its 16-bit complement is 0xFFFF minus it |
| Checksum.ComplementVerifies | include/IP.h:76-78 | a sum plus its complemented fold folds to 0xFFFF |
| Checksum.ChecksumFieldVerifies | include/IP.h:70-79 | a header whose zero checksum word is replaced by the complemented folded sum verifies to 0xFFFF |
| Icmp.FoldCarries | include/ICMP.h:35-37 | the carry loop ends with the one's-complement value of the sum |
| Icmp.SumBigEndianWords | include/ICMP.h:31-34 | the summing loop gives the plain sum of the message's big-endian words |
| Icmp.BuildEcho | include/ICMP.h:18-43 | the shared builder body yields EchoMessage |
| Icmp.CreateEchoRequest | include/ICMP.h:18-43 | the echo message of type 8 |
| Icmp.CreateEchoReply | include/ICMP.h:45-70 | the echo message of type 0 |
| Icmp.ParseEchoOf | include/ICMP.h:72-112 | success exactly for 8 or more bytes with the type and code 0; then id and seq are bytes 4-7 big-endian, otherwise the outputs are untouched |
| Icmp.ParseEchoReply | include/ICMP.h:72-91 | as ParseEchoOf for type 0 |
| Icmp.ParseEchoRequest | include/ICMP.h:93-112 | as ParseEchoOf for type 8 |
| Icmp.EchoLayout | include/ICMP.h:18-43 | a built message carries its type, code 0, id and seq big-endian |
| Icmp.EchoChecksumVerifies | include/ICMP.h:31-40 | the four words of a built message add up to 0xFFFF with end-around carry |
| Icmp.ParseEchoRoundTrip | include/ICMP.h:72-112 | parsing a built message of the same type gives back id and seq |
| Icmp.ParseEchoRejectsOtherType | include/ICMP.h:81-106 | a reply is rejected by the request parser and vice versa |
| Icmp.ParseEchoIgnoresChecksum | include/ICMP.h:72-112 | corrupting bytes 2-3 does not change the parse |
| Icmp.EchoScenario | TCP-IP-Stack/TCP-IP-Stack.cpp:147-180 | the driver's request and reply for id 1, seq 1 both parse, giving id 1 and seq 1 |
| Arp.CreateArpRequest | include/ARP.h:18-35 | 28 bytes: the fixed header with opcode 1, sender MAC, raw sender IP, zero target MAC, raw target IP |
| Arp.CreateArpReply | include/ARP.h:37-54 | the same with opcode 2 and `dest_mac` at 18-23 |
| Arp.ParseArpPacket | include/ARP.h:56-76 | success exactly when ParseArp accepts (at least 28 bytes, htype 1, ptype 0x0800, sizes 6 and 4), with its fields as outputs; on failure the outputs are untouched |
| Arp.ArpLayout | include/ARP.h:18-54 | header 00 01 08 00 06 04, the opcode big-endian, sender MAC at 8-13, the IPs read back from their raw copies at 14-17 and 24-27, target MAC at 18-23 |
| Arp.ParseRequestRoundTrip | include/ARP.h:56-76 | a built request parses as a request with both IPs, the sender MAC and a zero target MAC |
| Arp.ParseReplyRoundTrip | include/ARP.h:56-76 | a built reply parses as a non-request with all four addresses |
| Arp.ParseAcceptsAnyOpcode | include/ARP.h:74 | any opcode is accepted; `is_request` holds exactly for opcode 1 |
| Arp.ParseRejects | include/ARP.h:57-67 | accepted exactly when at least 28 bytes long and the first six bytes are 00 01 08 00 06 04 |
| Arp.ArpScenario | TCP-IP-Stack/TCP-IP-Stack.cpp:139-145 | the driver's request parses successfully as a request with a zero target MAC |
| Nd.CreateNs | include/ND.h:18-28 | 24 bytes of type 0x87 with `dest_ip` at 8-11; the MAC argument is unused |
| Nd.CreateNa | include/ND.h:30-40 | 24 bytes of type 0x88 with `src_ip` at 8-11; the MAC arguments and `dest_ip` are unused |
| Nd.ParseNaPacket | include/ND.h:42-57 | success exactly when ParseNa accepts (at least 24 bytes, type 0x88, code 0); failure leaves the outputs untouched |
| Nd.NdLayout | include/ND.h:18-40 | type at 0, target read back from 8-11, every other byte zero |
| Nd.ParseNaRejectsNs | include/ND.h:43-50 | a solicitation is rejected |
| Nd.ParseNaRoundTrip | include/ND.h:52-56 | a built advertisement parses with its target, the solicited flag clear and a zero MAC |
| Nd.SolicitedIsBit6 | include/ND.h:55 | `is_solicited` is bit 6 (0x40) of byte 4 |
| Routing.FirstMatch | include/RoutingTable.h:13-20 | a route it returns is in the table and matches |
| Routing.Match | include/RoutingTable.h:25-41 | the early-return loop yields exactly Matches: equal types, and every compared byte equal under the mask (4 for IPv4, 16 for IPv6) |
| Routing.RoutingTable.constructor | include/RoutingTable.h:7-11 | the table starts empty |
| Routing.RoutingTable.AddRoute | include/RoutingTable.h:9-11 | the route is appended at the end and earlier routes stay |
| Routing.RoutingTable.FindRoute | include/RoutingTable.h:13-20 | the scan returns FirstMatch; None stands for the thrown "No route found" |
| Routing.FirstMatchIsFirst | include/RoutingTable.h:13-20 | None exactly when no route matches; otherwise the result is at an index that matches and every earlier route fails |
| Routing.AddRouteKeepsEarlierMatch | include/RoutingTable.h:9-20 | appending never changes the answer for an address an earlier route matched |
| Routing.MatchNeedsEqualTypes | include/RoutingTable.h:26-28 | mixed types never match |
| Routing.ZeroMaskShadows | include/RoutingTable.h:34-38 | a first route with a zero mask matches every address of its type, whatever follows |
| Routing.DriverTableScenario | TCP-IP-Stack/TCP-IP-Stack.cpp:109-111 | with the driver's table every IPv4 address is routed through the default route, not 192.168.0.0/24 |
| Routes.GettersReturnConstructorArguments | include/Route.h:8-21 | the three getters return the constructor's arguments |
| Addresses.Default | include/IPAddress.h:17-19 | IPv4 with all 16 bytes zero |
| Addresses.FromUint32 | include/IPAddress.h:32-35 | IPv4; bytes 0-3 are the raw little-endian copy of `addr`; bytes 4-15 are zero |
| Addresses.Find | include/IPAddress.h:22 | None exactly when the character is absent; otherwise the index of its first occurrence |
| Addresses.FromString | include/IPAddress.h:21-30 | the buffer is the one the conversion leaves |
| Addresses.ClassifyIff | include/IPAddress.h:21-29 | IPv6 exactly when the string contains ':' |
| Addresses.NoColonIsIPv4 | include/IPAddress.h:21-29 | a string without ':' is IPv4 |
| Interfaces.NetworkInterface.constructor | include/NetworkInterface.h:10-13 | the name is stored, MTU 1500, a zero MAC, zero IPv4 addresses, no DNS servers |
| Interfaces.NetworkInterface.SetIpAddress | include/NetworkInterface.h:15-17 | only the IP address changes |
| Interfaces.NetworkInterface.SetSubnetMask | include/NetworkInterface.h:19-21 | only the subnet mask changes |
| Interfaces.NetworkInterface.SetGateway | include/NetworkInterface.h:23-25 | only the gateway changes |
| Interfaces.NetworkInterface.AddDnsServer | include/NetworkInterface.h:27-29 | the server is appended after the earlier ones, in order; nothing else changes |
| Interfaces.NetworkInterface.SetMacAddress | include/NetworkInterface.h:31-35 | a six-byte vector is stored; any other size leaves the MAC as it was |
| Interfaces.NetworkInterface.GetMacAddress | include/NetworkInterface.h:57-59 | exactly six bytes, the stored MAC |
| Interfaces.NetworkInterface.SetMtu | include/NetworkInterface.h:61-63 | only the MTU changes |
| Interfaces.InterfaceScenario | TCP-IP-Stack/TCP-IP-Stack.cpp:87-88 | after the driver's MAC is set, a five-byte MAC is ignored and the MTU stays 1500 |
| Sockets.Socket.constructor | include/Socket.h:30 | port 0 and an empty buffer |
| Sockets.Socket.Bind | include/Socket.h:34-37 | sets the port, keeps the buffer, returns true |
| Sockets.Socket.SendTo | include/Socket.h:39-44 | the buffer is replaced by the data, so only the last datagram is kept; returns true |
| Sockets.Socket.RecvFrom | include/Socket.h:46-57 | fails on an empty buffer, leaving outputs and buffer; otherwise returns the buffer from 127.0.0.1 and the bound port, and empties it |
| Sockets.MailboxScenario | include/Socket.h:34-57 | after bind and sendto, a non-empty datagram is received once, with its source; a second receive fails |
| Dhcp.AddDnsServers | include/DHCPClient.h:171-177 | one server per four value bytes is appended, in order; no other field changes |
| Dhcp.ParseDhcpOptions | include/DHCPClient.h:148-182 | the walk leaves the interface record as ApplyOptions says: code, length, value until 0xFF or the end of the field |
| Dhcp.DhcpClient.constructor | include/DHCPClient.h:67-69 | transaction id 0x12345678, nothing sent |
| Dhcp.DhcpClient.SendDhcpDiscover | include/DHCPClient.h:71-85 | one broadcast from port 68 to 67 of the client message with option 53 = 1 |
| Dhcp.DhcpClient.SendDhcpRequest | include/DHCPClient.h:102-116 | the same with option 53 = 3 |
| Dhcp.DhcpClient.HandleDhcpOffer | include/DHCPClient.h:87-100 | the interface becomes Handled: untouched if short or another xid, else options applied and IP set from `yiaddr`; a request goes out exactly when accepted |
| Dhcp.DhcpClient.HandleDhcpAck | include/DHCPClient.h:118-130 | as for the offer, but nothing is sent |
| Dhcp.Image | include/DHCPClient.h:132-136 | the 548-byte memory image: the four byte fields, then the words low byte first (xid at 4-7, yiaddr at 16-19), chaddr at 28-43, the options from 236 |
| Dhcp.Parse | include/DHCPClient.h:138-142 | the memcpy back: xid and yiaddr whose memory bytes are 4-7 and 16-19, chaddr 28-43, the options 236-547 |
| Dhcp.ParseImage | include/DHCPClient.h:132-142 | decoding a serialised message gives it back |
| Dhcp.ImageParse | include/DHCPClient.h:132-142 | serialising a decoded input gives back its first 548 bytes |
| Dhcp.ClientMessageLayout | include/DHCPClient.h:71-111 | op 1, htype 1, hlen 6, xid bytes 12 34 56 78, the MAC at 28-33, option 53 at 236-238, every other byte zero |
| Dhcp.AcceptsIff | include/DHCPClient.h:88-93 | accepted exactly when at least 548 bytes long with bytes 4-7 equal to 12 34 56 78 |
| Dhcp.ClientMessageAccepted | include/DHCPClient.h:76-93 | the client's own messages carry the xid it waits for |
| Dhcp.HandledRejects | include/DHCPClient.h:88-93 | a short packet or another xid changes nothing |
| Dhcp.OptionAddressBytes | include/DHCPClient.h:159-161 | `IPAddress(ntohl(v))` of four copied bytes holds them in reverse order |
| Dhcp.OfferedAddressBytes | include/DHCPClient.h:95 | the offered IP holds the packet's `yiaddr` bytes in reverse order |
| Dhcp.OfferedAddressReversed | include/DHCPClient.h:95 | an offer of 192.168.0.100 in network byte order leaves the interface with 100.0.168.192 |
| Dhcp.DriverOfferHidesReversal | TCP-IP-Stack/TCP-IP-Stack.cpp:30-44 | the driver's `htonl(inet_addr("192.168.0.100"))` puts the address reversed on the wire, so the handler yields 192.168.0.100 |
| Dhcp.OptionAddressCorrectedKeepsOrder | include/IPAddress.h:32-35 | without `ntohl`, the four bytes an address is read from are the four bytes stored, in order |
| Dhcp.ApplyOptionsFrames | include/DHCPClient.h:148-182 | the walk never changes the IP address and only ever appends DNS servers |
| Dhcp.SkipsInert | include/DHCPClient.h:156-180 | an unknown code, or option 1 or 3 whose length is not 4, is skipped by its length |
| Dhcp.SubnetMaskRecord | include/DHCPClient.h:157-163 | option 1 of length 4 followed by 0xFF sets only the subnet mask, from its value bytes |
| Dhcp.RouterRecord | include/DHCPClient.h:164-170 | option 3 of length 4 followed by 0xFF sets only the gateway, from its value bytes |
| Dhcp.DnsFromLength | include/DHCPClient.h:171-177 | one server per whole four-byte group |
| Dhcp.DnsFromInOrder | include/DHCPClient.h:171-177 | the k-th new server is read from value bytes 4k to 4k + 3 |
| Dhcp.DriverOfferOverruns | include/DHCPClient.h:150-154 | the walk over the driver's offer options leaves the 312-byte field |
| Dhcp.DriverOfferCorrected | include/DHCPClient.h:150-154 | the corrected walk reads the same field inside its bounds and changes nothing |
| Dhcp.CheckedAgrees | include/DHCPClient.h:148-182 | on in-bounds chains without code 0 the corrected walk is the source's |
| Slaac.InterfaceId | include/SLAACClient.h:55-56 | six bytes that differ from the MAC at most in the first byte |
| Slaac.RouterSolicitation | include/SLAACClient.h:30-34 | 24 bytes, type 133, everything else zero |
| Slaac.SlaacClient.constructor | include/SLAACClient.h:14-15 | the client keeps the interface and has sent nothing |
| Slaac.SlaacClient.SendRs | include/SLAACClient.h:29-38 | exactly one router solicitation is sent, to ff02::2 |
| Slaac.SlaacClient.CreateLinkLocalAddress | include/SLAACClient.h:51-58 | FE 80, six zeros, the interface identifier, two zeros |
| Slaac.SlaacClient.ConfigureGlobalAddress | include/SLAACClient.h:61-65 | the first `prefix_length / 8` prefix bytes, the interface identifier, zeros |
| Slaac.SlaacClient.HandleRa | include/SLAACClient.h:41-48 | the packet is ignored; the address is built from 2001:db8:ac10:fe01 and length 64 |
| Slaac.GlobalLayout | include/SLAACClient.h:61-65 | prefix bytes first; then the MAC with only bit 1 of its first byte changed; zeros to the end |
| Slaac.MacRecoverable | include/SLAACClient.h:64-65 | toggling bit 1 again recovers the MAC from the address |
| Slaac.LinkLocalIsGlobalUnderFe80 | include/SLAACClient.h:51-65 | the link-local address is the global construction under FE80::/64 |
| Slaac.DriverGlobalAddress | TCP-IP-Stack/TCP-IP-Stack.cpp:113-119 | with the driver's MAC the address is 2001:db8:ac10:fe01:20c:2936:bc17:0 |
| Slaac.SlaacScenario | TCP-IP-Stack/TCP-IP-Stack.cpp:113-119 | the driver's calls send one solicitation to ff02::2 and configure that address |

## Left out

Input and output:

- The sockets of `send_ethernet_frame` and `send_icmpv6_packet` (raw) and of `send_udp_packet` (a UDP datagram socket with broadcast enabled) become appends to ghost logs. Their failure paths only print, so nothing in the model depends on them.
- WinSock set-up and clean-up (`Network.h`) are not modelled.
- Console and error output is not modelled: `log`, `handle_dhcp_error` and the printing in `sendto` and in the handlers. `Socket.SendTo` takes the destination and ignores it, as the source does after printing it.

Clock and time:

- `steady_clock` becomes the `now` parameter of `HandleTimeout`, in nanoseconds.
- The initial `last_sent_time` is the clock's epoch, 0.

Address conversions:

- `inet_pton`, `inet_ntop` and `to_string` are foreign text conversions and are not modelled.
- `Addresses.FromString` takes the buffer the conversion leaves as a parameter. For IPv4 this includes the uninitialised bytes 4-15.
- `Slaac.SlaacClient.ConfigureGlobalAddress` returns the 16 bytes instead of converting and printing them.

Getters:

- The getters that return a field as it is (`get_interface_name`, `get_ip_address`, `get_mtu`, `get_type`, `get_address` and the route getters) are the fields or datatype destructors themselves.

Host and layout:

- The host is little-endian. No claim is made for a big-endian host.
- The header loops of both `calculate_checksum` methods read part of the object's own memory. That memory is modelled as the header's serialised bytes (`HeaderBytes`).
- `DHCPMessage` is a 548-byte record whose image is its fields' bytes in order, since there is no padding.

TCP:

- The source has no pseudo-header, RST handling, TIME_WAIT expiry, simultaneous close or retransmission queue, so none is modelled.
- `sent_segments` is never filled by any method. `RetransmitLastSegment` is still specified for every map.

The driver:

- The driver's `main` appears only as the scenario members above.
- Its DHCP exchange has no scenario, because walking its offer's options is undefined behaviour (see Findings).

Contracts where the C++ has undefined behaviour:

- Tcp.Deserialize, IPv4.Deserialize, Udp.Deserialize and Ethernet.Deserialize: require 20, 20, 8 and 14 bytes, the bytes the source indexes without checking.
- Ethernet.NewFrame: requires six readable bytes at each MAC argument.
- Dhcp.ParseDhcpOptions: requires a well-formed chain, since the source reads past the options field or past a value otherwise.
- Dhcp.AddDnsServers: requires a value length that is a multiple of 4, for the same reason.
- Dhcp.DhcpClient.HandleDhcpOffer and Dhcp.DhcpClient.HandleDhcpAck: require `Handleable`, i.e. an accepted message must have a well-formed option chain. Short packets and foreign xids are handled for every input.
- Slaac.SlaacClient.ConfigureGlobalAddress: requires `prefix_length / 8 + 6 <= 16` and enough prefix bytes, since otherwise the source writes or reads out of bounds.
- Tcp.CorrectedChecksumVerifies: limits the payload to 65535 bytes, the largest an IPv4 packet can carry. Beyond that the 32-bit sum could wrap.

## Findings

| source | as written | input that shows it | evidently intended | confidence | as-written member | corrected member |
|---|---|---|---|---|---|---|
| include/IP.h:53-66 | `deserialize` reads the addresses big-endian (already host order), applies `ntohl`, and the constructor applies `htonl` again | `serialize` of `IPPacket(6, 0x01020304, 0, {})`: the decoded source is 4.3.2.1 | decoding a serialised packet gives it back | not executed | IPv4.DeserializeRoundTripFails | IPv4.DeserializeCorrectedRoundTrip |
| include/TCP.h:61-73 | the same double conversion of ports and sequence numbers | source port 12345 (0x3039) decodes as 0x3930 | decoding a serialised segment gives it back | not executed | Tcp.DeserializeRoundTripFails | Tcp.DeserializeCorrectedRoundTrip |
| include/UDP.h:33-40 | the same double conversion of the ports | port 53 (0x0035) decodes as 0x3500 | decoding a serialised datagram gives it back | not executed | Udp.DeserializeRoundTripFails | Udp.DeserializeCorrectedRoundTrip |
| include/TCP.h:112-118 | payload words are built big-endian and then passed through `ntohs`, so they enter the sum byte-swapped | any constructed segment with the one-byte payload `{1}` | the stored checksum verifies under RFC 1071 for any payload | not executed | Tcp.MakeOneByteChecksumFails | Tcp.CorrectedChecksumVerifies |
| include/DHCPClient.h:150-154 | code 0 (the one-byte Pad option of RFC 2132 section 3.1) is read as a code with a length byte, and nothing stops the walk before the end of the field | the driver's offer: options 53, 1, 2 then zeros; from offset 311 it reads its length byte at offset 312 | pads are skipped one byte at a time and no read leaves the 312-byte field | not executed | Dhcp.DriverOfferOverruns | Dhcp.DriverOfferCorrected |
| include/DHCPClient.h:95 | every address taken from a message (`yiaddr`, options 1, 3 and 6 at lines 159-176) goes through `ntohl` and then the raw copy of `IPAddress(uint32_t)` (include/IPAddress.h:32-35), so its bytes are stored reversed; the driver's extra `htonl` hides this | an offer whose `yiaddr` bytes are 192, 168, 0, 100: the interface gets 100.0.168.192 | the stored address keeps the wire's byte order | not executed | Dhcp.OfferedAddressReversed | Dhcp.OptionAddressCorrectedKeepsOrder |

How the rest of the model relates to each correction:

- The connection sends only empty payloads. For those, `Tcp.CorrectedAgreesOnEmpty` shows that the corrected and the original checksums coincide, so every frame it sends verifies.
- The DHCP handlers keep the source's address conversion. `Dhcp.OfferedAddressBytes` and `Dhcp.OptionAddressBytes` state its effect exactly.
- The DHCP handlers keep the source's walk, restricted to in-bounds chains. `Dhcp.CheckedAgrees` shows that on such chains without pads the corrected walk agrees with it.
