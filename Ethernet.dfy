/** Ethernet II framing (include/Ethernet.h): two MAC addresses, a big-endian
    EtherType and the payload. */
module Ethernet {
  import opened Bytes

  type MacAddress = s: seq<byte> | |s| == 6 witness [0, 0, 0, 0, 0, 0]

  datatype EthernetFrame = EthernetFrame(dest: MacAddress, src: MacAddress, etherType: uint16, payload: seq<byte>)

  /** The constructor copies exactly six bytes from each MAC argument and the
      whole payload. */
  function NewFrame(d: seq<byte>, s: seq<byte>, t: uint16, p: seq<byte>): (f: EthernetFrame)
    requires |d| >= 6 && |s| >= 6
    ensures f.dest == d[..6] && f.src == s[..6] && f.etherType == t && f.payload == p
  {
    EthernetFrame(d[..6], s[..6], t, p)
  }

  /** The bytes `serialize` produces: dest, src, EtherType high byte first,
      payload. The type is written with shifts, so this holds on any host. */
  function FrameBytes(f: EthernetFrame): seq<byte>
  {
    f.dest + f.src + BE16(f.etherType) + f.payload
  }

  method Serialize(f: EthernetFrame) returns (buffer: seq<byte>)
    ensures buffer == FrameBytes(f)
  {
    ghost var want := FrameBytes(f);
    var buf := new byte[14 + |f.payload|];
    CopyInto(buf, 0, f.dest, want);
    CopyInto(buf, 6, f.src, want);
    StoreInto(buf, 12, f.etherType / 0x100, want);
    StoreInto(buf, 13, f.etherType % 0x100, want);
    CopyInto(buf, 14, f.payload, want);
    buffer := buf[..];
    assert buffer == buffer[..14 + |f.payload|];
  }

  /** `deserialize` slices the header without checking the length, so the
      input must hold at least the 14 header bytes. Nothing is lost: the
      type is read big-endian, as `serialize` writes it, and the frame's
      bytes are the input. */
  function Deserialize(data: seq<byte>): (f: EthernetFrame)
    requires |data| >= 14
    ensures f.etherType == ReadBE16(data, 12)
    ensures FrameBytes(f) == data
  {
    assert data == data[..6] + data[6..12] + data[12..14] + data[14..];
    NewFrame(data[..6], data[6..12], ReadBE16(data, 12), data[14..])
  }

  lemma SerializeLayout(f: EthernetFrame)
    ensures |FrameBytes(f)| == 14 + |f.payload|
    ensures FrameBytes(f)[..6] == f.dest && FrameBytes(f)[6..12] == f.src
    ensures ReadBE16(FrameBytes(f), 12) == f.etherType
    ensures FrameBytes(f)[14..] == f.payload
  {
    var b := FrameBytes(f);
    assert b[12..14] == BE16(f.etherType);
  }

  lemma DeserializeSerialize(f: EthernetFrame)
    ensures Deserialize(FrameBytes(f)) == f
  {
    SerializeLayout(f);
  }

  lemma SerializeDeserialize(data: seq<byte>)
    requires |data| >= 14
    ensures FrameBytes(Deserialize(data)) == data
  {
    assert data == data[..6] + data[6..12] + data[12..14] + data[14..];
  }
}
