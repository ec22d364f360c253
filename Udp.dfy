/** UDP datagrams (include/UDP.h), RFC 768: an 8-byte header of stored
    (network-order) fields and a payload. No checksum is computed. */
module Udp {
  import opened Bytes

  datatype UDPSegment = UDPSegment(
    srcPort: uint16,
    destPort: uint16,
    length: uint16,
    checksum: uint16,
    payload: seq<byte>)

  /** The constructor `UDPSegment(sp, dp, p)`: the length is 8 plus the
      payload size, truncated to 16 bits, and the checksum is left 0. */
  function Make(sp: uint16, dp: uint16, p: seq<byte>): (u: UDPSegment)
    ensures Swap16(u.length) == (8 + |p|) % 0x1_0000
    ensures u.checksum == 0 && u.payload == p
  {
    Swap16Involutive((8 + |p|) % 0x1_0000);
    UDPSegment(Swap16(sp), Swap16(dp), Swap16((8 + |p|) % 0x1_0000), 0, p)
  }

  function DatagramBytes(u: UDPSegment): seq<byte>
  {
    LE16(u.srcPort) + LE16(u.destPort) + LE16(u.length) + LE16(u.checksum) + u.payload
  }

  method Serialize(u: UDPSegment) returns (buffer: seq<byte>)
    ensures buffer == DatagramBytes(u)
  {
    ghost var want := DatagramBytes(u);
    var buf := new byte[8 + |u.payload|];
    CopyInto(buf, 0, LE16(u.srcPort), want);
    CopyInto(buf, 2, LE16(u.destPort), want);
    CopyInto(buf, 4, LE16(u.length), want);
    CopyInto(buf, 6, LE16(u.checksum), want);
    CopyInto(buf, 8, u.payload, want);
    buffer := buf[..];
    assert buffer == buffer[..8 + |u.payload|];
  }

  /** `deserialize` indexes bytes 0-7 unchecked, so the input must hold at
      least 8 bytes. Its length and checksum fields are read and dropped.
      ntohs and the constructor's htons cancel: the stored ports are the
      big-endian reads themselves. */
  function Deserialize(data: seq<byte>): (u: UDPSegment)
    requires |data| >= 8
    ensures u.srcPort == ReadBE16(data, 0) && u.destPort == ReadBE16(data, 2)
    ensures u.payload == data[8..]
  {
    Swap16Involutive(ReadBE16(data, 0));
    Swap16Involutive(ReadBE16(data, 2));
    Make(Swap16(ReadBE16(data, 0)), Swap16(ReadBE16(data, 2)), data[8..])
  }

  // ---------------------------------------------------------------------
  // Properties

  /** `serialize` of a constructed datagram: ports and length big-endian,
      a zero checksum, and the payload from offset 8. */
  lemma MakeLayout(sp: uint16, dp: uint16, p: seq<byte>)
    ensures var b := DatagramBytes(Make(sp, dp, p));
      && |b| == 8 + |p|
      && ReadBE16(b, 0) == sp && ReadBE16(b, 2) == dp
      && ReadBE16(b, 4) == (8 + |p|) % 0x1_0000
      && b[6] == 0 && b[7] == 0
      && b[8..] == p
  {
    StoredSwap16(sp);
    StoredSwap16(dp);
    StoredSwap16((8 + |p|) % 0x1_0000);
  }

  /** The decoded length reflects the real payload and the checksum is 0,
      whatever the input's own length and checksum bytes say. */
  lemma DeserializeRecomputes(data: seq<byte>)
    requires |data| >= 8
    ensures Swap16(Deserialize(data).length) == |data| % 0x1_0000
    ensures Deserialize(data).checksum == 0 && Deserialize(data).payload == data[8..]
  {
  }

  /** Bytes 4-7 of the input play no part in the result. */
  lemma DeserializeDiscards(a: seq<byte>, b: seq<byte>)
    requires |a| >= 8 && |b| >= 8
    requires a[..4] == b[..4] && a[8..] == b[8..]
    ensures Deserialize(a) == Deserialize(b)
  {
    assert a[0] == a[..4][0] && a[1] == a[..4][1] && a[2] == a[..4][2] && a[3] == a[..4][3];
    assert b[0] == b[..4][0] && b[1] == b[..4][1] && b[2] == b[..4][2] && b[3] == b[..4][3];
  }

  // ---------------------------------------------------------------------
  // Finding: `deserialize` converts its big-endian reads with ntohs and the
  // constructor converts them again with htons, so the ports come back
  // byte-swapped on the little-endian host.

  /** As written: decoding a serialised datagram swaps both ports. */
  lemma DeserializeSwapsPorts(sp: uint16, dp: uint16, p: seq<byte>)
    ensures Deserialize(DatagramBytes(Make(sp, dp, p))) == Make(Swap16(sp), Swap16(dp), p)
  {
    MakeLayout(sp, dp, p);
    assert DatagramBytes(Make(sp, dp, p))[8..] == p;
  }

  /** A concrete witness: port 53 (0x0035) decodes as 0x3500. */
  lemma DeserializeRoundTripFails()
    ensures Deserialize(DatagramBytes(Make(53, 68, []))) != Make(53, 68, [])
  {
    var sp: uint16 := 53;
    DeserializeSwapsPorts(sp, 68, []);
    Swap16Involutive(sp);
    assert BE16(sp) == [0, 0x35];
    assert Swap16(sp) == 0x3500;
  }

  /** Corrected decoder: the big-endian reads go straight to the constructor. */
  function DeserializeCorrected(data: seq<byte>): UDPSegment
    requires |data| >= 8
  {
    Make(ReadBE16(data, 0), ReadBE16(data, 2), data[8..])
  }

  lemma DeserializeCorrectedRoundTrip(sp: uint16, dp: uint16, p: seq<byte>)
    ensures DeserializeCorrected(DatagramBytes(Make(sp, dp, p))) == Make(sp, dp, p)
  {
    MakeLayout(sp, dp, p);
  }
}
