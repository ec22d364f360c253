/** Tagged IP addresses (include/IPAddress.h): a type tag and a 16-byte
    buffer, of which IPv4 uses the first four bytes. */
module Addresses {
  import opened Bytes
  import opened Options

  datatype AddrType = IPv4 | IPv6

  /** `uint8_t address[16]`, whatever the type. */
  type Address16 = s: seq<byte> | |s| == 16 witness seq(16, _ => 0)

  /** `get_type` and `get_address` are the two destructors. */
  datatype IPAddress = IPAddress(kind: AddrType, address: Address16)

  /** The default constructor: IPv4, all sixteen bytes zero. */
  function Default(): (a: IPAddress)
    ensures a.kind == IPv4 && forall i :: 0 <= i < 16 ==> a.address[i] == 0
  {
    IPAddress(IPv4, Zeros(16))
  }

  /** The `uint32_t` constructor: the raw four bytes of `addr` (low byte
      first on the little-endian host), then twelve zeros. */
  function FromUint32(addr: uint32): (a: IPAddress)
    ensures a.kind == IPv4
    ensures ReadLE32(a.address, 0) == addr
    ensures forall i :: 4 <= i < 16 ==> a.address[i] == 0
  {
    LE32Read(addr);
    assert (LE32(addr) + Zeros(12))[..4] == LE32(addr);
    IPAddress(IPv4, LE32(addr) + Zeros(12))
  }

  /** `std::string::find`: the first index of c in s, or None for npos. */
  function Find(s: string, c: char): (r: Option<nat>)
    ensures r.None? <==> c !in s
    ensures r.Some? ==> r.value < |s| && s[r.value] == c && c !in s[..r.value]
  {
    if |s| == 0 then None
    else if s[0] == c then Some(0)
    else
      var r := Find(s[1..], c);
      assert s == [s[0]] + s[1..];
      if r.None? then None
      else
        assert s[..r.value + 1] == [s[0]] + s[1..][..r.value];
        Some(r.value + 1)
  }

  /** The string constructor's classification. */
  function Classify(s: string): AddrType
  {
    if Find(s, ':') != None then IPv6 else IPv4
  }

  /** The string constructor. Conversion of the text is done by `inet_pton`,
      which is not part of this model: `converted` stands for the buffer it
      leaves (for IPv4, bytes 4-15 are whatever the buffer held before). */
  function FromString(s: string, converted: Address16): (a: IPAddress)
    ensures a.address == converted
  {
    IPAddress(Classify(s), converted)
  }

  /** Any string with a colon is IPv6; any string without one is IPv4. */
  lemma ClassifyIff(s: string)
    ensures Classify(s) == IPv6 <==> exists i :: 0 <= i < |s| && s[i] == ':'
  {
    if Classify(s) == IPv6 {
      var i := Find(s, ':').value;
      assert s[i] == ':';
    }
  }

  lemma NoColonIsIPv4(s: string)
    requires forall i :: 0 <= i < |s| ==> s[i] != ':'
    ensures Classify(s) == IPv4
  {
    ClassifyIff(s);
  }
}
