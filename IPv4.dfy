/** IPv4 packets (include/IP.h): a fixed 20-byte header without options,
    RFC 791 section 3.1. Fields hold what the C++ object stores, that is
    network-order values after htons/htonl on the little-endian host. */
module IPv4 {
  import opened Bytes
  import opened Checksum

  datatype IPPacket = IPPacket(
    versionIhl: byte,
    dscpEcn: byte,
    totalLength: uint16,
    identification: uint16,
    flagsFragmentOffset: uint16,
    ttl: byte,
    protocol: byte,
    headerChecksum: uint16,
    src: uint32,
    dest: uint32,
    payload: seq<byte>)

  const DontFragment: uint16 := 0x4000

  /** The 20 header bytes as `serialize` copies the stored fields out; the
      object's own memory starts with the same 20 bytes (no padding). */
  function HeaderBytes(p: IPPacket): (h: seq<byte>)
    ensures |h| == 20
  {
    [p.versionIhl, p.dscpEcn] + LE16(p.totalLength) + LE16(p.identification)
    + LE16(p.flagsFragmentOffset) + [p.ttl, p.protocol] + LE16(p.headerChecksum)
    + LE32(p.src) + LE32(p.dest)
  }

  function PacketBytes(p: IPPacket): seq<byte>
  {
    HeaderBytes(p) + p.payload
  }

  /** `calculate_checksum`: the ten header words, read from the object's
      memory and converted with ntohs, summed in 32 bits, folded twice,
      complemented and stored with htons. */
  function HeaderChecksum(p: IPPacket): uint16
  {
    Swap16(Complement16(TwoStepFold(Sum(Words(HeaderBytes(p))))))
  }

  method CalculateChecksum(p: IPPacket) returns (checksum: uint16)
    ensures checksum == HeaderChecksum(p)
  {
    var sum := SumMemoryWords(HeaderBytes(p), 10);
    sum := sum % 0x1_0000 + sum / 0x1_0000;
    sum := sum + sum / 0x1_0000;
    checksum := Swap16(Complement16(sum));
  }

  /** The fields the constructor's initialiser list sets, checksum still 0. */
  function Unchecked(proto: byte, s: uint32, d: uint32, p: seq<byte>): IPPacket
  {
    IPPacket(0x45, 0, Swap16((20 + |p|) % 0x1_0000), 0, Swap16(DontFragment), 64, proto, 0,
             Swap32(s), Swap32(d), p)
  }

  /** The packet the constructor `IPPacket(proto, s, d, p)` builds. */
  function Make(proto: byte, s: uint32, d: uint32, p: seq<byte>): IPPacket
  {
    var q := Unchecked(proto, s, d, p);
    q.(headerChecksum := HeaderChecksum(q))
  }

  method NewPacket(proto: byte, s: uint32, d: uint32, p: seq<byte>) returns (packet: IPPacket)
    ensures packet == Make(proto, s, d, p)
  {
    packet := Unchecked(proto, s, d, p);
    var c := CalculateChecksum(packet);
    packet := packet.(headerChecksum := c);
  }

  /** Where each field sits in the serialised packet. */
  lemma PacketPieces(p: IPPacket)
    ensures var w := PacketBytes(p);
      && |w| == 20 + |p.payload|
      && w[0] == p.versionIhl && w[1] == p.dscpEcn
      && w[2..4] == LE16(p.totalLength) && w[4..6] == LE16(p.identification)
      && w[6..8] == LE16(p.flagsFragmentOffset) && w[8] == p.ttl && w[9] == p.protocol
      && w[10..12] == LE16(p.headerChecksum) && w[12..16] == LE32(p.src)
      && w[16..20] == LE32(p.dest) && w[20..20 + |p.payload|] == p.payload
  {
  }

  method Serialize(p: IPPacket) returns (buffer: seq<byte>)
    ensures buffer == PacketBytes(p)
  {
    ghost var want := PacketBytes(p);
    PacketPieces(p);
    var buf := new byte[20 + |p.payload|];
    StoreInto(buf, 0, p.versionIhl, want);
    StoreInto(buf, 1, p.dscpEcn, want);
    CopyInto(buf, 2, LE16(p.totalLength), want);
    CopyInto(buf, 4, LE16(p.identification), want);
    CopyInto(buf, 6, LE16(p.flagsFragmentOffset), want);
    StoreInto(buf, 8, p.ttl, want);
    StoreInto(buf, 9, p.protocol, want);
    CopyInto(buf, 10, LE16(p.headerChecksum), want);
    CopyInto(buf, 12, LE32(p.src), want);
    CopyInto(buf, 16, LE32(p.dest), want);
    CopyInto(buf, 20, p.payload, want);
    buffer := buf[..];
    assert buffer == buffer[..20 + |p.payload|];
  }

  /** `deserialize` reads the header without checking the length, so the
      input must hold at least 20 bytes. Only the protocol, the addresses
      and the payload reach the constructor; the rest is rebuilt. On the
      little-endian host ntohl and the constructor's htonl cancel: the stored
      addresses are the big-endian reads themselves, where the stored value
      of a correct decoder would be their byte swap. */
  function Deserialize(data: seq<byte>): (p: IPPacket)
    requires |data| >= 20
    ensures p.protocol == data[9] && p.payload == data[20..]
    ensures p.src == ReadBE32(data, 12) && p.dest == ReadBE32(data, 16)
  {
    Swap32Involutive(ReadBE32(data, 12));
    Swap32Involutive(ReadBE32(data, 16));
    Make(data[9], Swap32(ReadBE32(data, 12)), Swap32(ReadBE32(data, 16)), data[20..])
  }

  // ---------------------------------------------------------------------
  // Properties

  /** What `serialize` puts on the wire for a constructed packet: read
      big-endian, every header field has the value the constructor was given. */
  lemma MakeLayout(proto: byte, s: uint32, d: uint32, p: seq<byte>)
    ensures var b := PacketBytes(Make(proto, s, d, p));
      && |b| == 20 + |p|
      && b[0] == 0x45 && b[1] == 0
      && ReadBE16(b, 2) == (20 + |p|) % 0x1_0000
      && ReadBE16(b, 4) == 0 && ReadBE16(b, 6) == DontFragment
      && b[8] == 64 && b[9] == proto
      && ReadBE32(b, 12) == s && ReadBE32(b, 16) == d
      && b[20..] == p
  {
    var q := Make(proto, s, d, p);
    var b := PacketBytes(q);
    StoredSwap16((20 + |p|) % 0x1_0000);
    StoredSwap16(DontFragment);
    StoredSwap32(s);
    StoredSwap32(d);
    assert b[2..4] == BE16((20 + |p|) % 0x1_0000);
    assert b[6..8] == BE16(DontFragment);
    assert b[12..16] == BE32(s) && b[16..20] == BE32(d);
    BE32Read(s);
    BE32Read(d);
    assert ReadBE32(b, 12) == ReadBE32(b[12..16], 0);
    assert ReadBE32(b, 16) == ReadBE32(b[16..20], 0);
  }

  /** Filling in `calculate_checksum` on a packet whose checksum field is 0
      makes its ten header words add up to 0xFFFF with end-around carry. */
  lemma ChecksumVerifies(q: IPPacket)
    requires q.headerChecksum == 0
    ensures OnesSum(Words(HeaderBytes(q.(headerChecksum := HeaderChecksum(q))))) == 0xFFFF
  {
    var h0 := HeaderBytes(q);
    var c := Complement16(TwoStepFold(Sum(Words(h0))));
    var h := HeaderBytes(q.(headerChecksum := HeaderChecksum(q)));
    TwoStepFoldCorrect(Sum(Words(h0)));
    StoredSwap16(c);
    assert h[10..12] == BE16(c);
    assert ReadBE16(h, 10) == c;
    ChecksumFieldVerifies(h0, h, 5);
  }

  /** Every packet the constructor builds carries a header that verifies
      (RFC 1071): adding its ten serialised words gives 0xFFFF. */
  lemma MakeChecksumVerifies(proto: byte, s: uint32, d: uint32, p: seq<byte>)
    ensures OnesSum(Words(PacketBytes(Make(proto, s, d, p))[..20])) == 0xFFFF
  {
    var q := Make(proto, s, d, p);
    assert PacketBytes(q)[..20] == HeaderBytes(q);
    ChecksumVerifies(Unchecked(proto, s, d, p));
  }

  /** The checksum covers the header only: payloads of equal length give
      identical header bytes. */
  lemma ChecksumCoversHeaderOnly(proto: byte, s: uint32, d: uint32, p1: seq<byte>, p2: seq<byte>)
    requires |p1| == |p2|
    ensures PacketBytes(Make(proto, s, d, p1))[..20] == PacketBytes(Make(proto, s, d, p2))[..20]
  {
    var q1, q2 := Make(proto, s, d, p1), Make(proto, s, d, p2);
    assert HeaderBytes(Unchecked(proto, s, d, p1)) == HeaderBytes(Unchecked(proto, s, d, p2));
    assert PacketBytes(q1)[..20] == HeaderBytes(q1);
    assert PacketBytes(q2)[..20] == HeaderBytes(q2);
  }

  /** `deserialize` depends only on byte 9, bytes 12-19 and the payload:
      the length, identification, flags, TTL and checksum it reads are
      discarded. */
  lemma DeserializeDiscards(a: seq<byte>, b: seq<byte>)
    requires |a| >= 20 && |b| >= 20
    requires a[9] == b[9] && a[12..20] == b[12..20] && a[20..] == b[20..]
    ensures Deserialize(a) == Deserialize(b)
  {
    forall k | 12 <= k < 20
      ensures a[k] == b[k]
    {
      assert a[k] == a[12..20][k - 12] && b[k] == b[12..20][k - 12];
    }
    assert ReadBE32(a, 12) == ReadBE32(b, 12) && ReadBE32(a, 16) == ReadBE32(b, 16);
  }

  /** The decoded packet keeps the protocol and payload, and its rebuilt
      header verifies whatever checksum the input carried. */
  lemma DeserializeRebuilds(data: seq<byte>)
    requires |data| >= 20
    ensures Deserialize(data).protocol == data[9] && Deserialize(data).payload == data[20..]
    ensures Deserialize(data).ttl == 64 && Deserialize(data).identification == 0
    ensures OnesSum(Words(HeaderBytes(Deserialize(data)))) == 0xFFFF
  {
    ChecksumVerifies(Unchecked(data[9], Swap32(ReadBE32(data, 12)), Swap32(ReadBE32(data, 16)), data[20..]));
  }

  // ---------------------------------------------------------------------
  // Finding: on the little-endian host `deserialize` applies ntohl to a value
  // that its big-endian reads already put in host order, and the constructor
  // applies htonl again, so decoded addresses come back byte-swapped.

  /** As written: decoding a serialised packet swaps the bytes of both
      addresses. */
  lemma DeserializeSwapsAddresses(proto: byte, s: uint32, d: uint32, p: seq<byte>)
    ensures Deserialize(PacketBytes(Make(proto, s, d, p))) == Make(proto, Swap32(s), Swap32(d), p)
  {
    MakeLayout(proto, s, d, p);
  }

  /** A concrete witness: source 1.2.3.4 decodes as 4.3.2.1. */
  lemma DeserializeRoundTripFails()
    ensures Deserialize(PacketBytes(Make(6, 0x0102_0304, 0, []))).src != Make(6, 0x0102_0304, 0, []).src
  {
    var s: uint32 := 0x0102_0304;
    DeserializeSwapsAddresses(6, s, 0, []);
    Swap32Involutive(s);
    assert BE32(s) == [1, 2, 3, 4];
    assert Swap32(s) == 0x0403_0201;
  }

  /** Corrected decoder: the big-endian reads already give the host values
      the constructor expects. */
  function DeserializeCorrected(data: seq<byte>): IPPacket
    requires |data| >= 20
  {
    Make(data[9], ReadBE32(data, 12), ReadBE32(data, 16), data[20..])
  }

  lemma DeserializeCorrectedRoundTrip(proto: byte, s: uint32, d: uint32, p: seq<byte>)
    ensures DeserializeCorrected(PacketBytes(Make(proto, s, d, p))) == Make(proto, s, d, p)
  {
    MakeLayout(proto, s, d, p);
  }
}
