/** ICMP echo request and reply messages (include/ICMP.h), RFC 792, with
    the RFC 1071 checksum computed over the 8-byte message. These builders
    write every field with explicit shifts, so nothing here depends on the
    host's byte order. */
module Icmp {
  import opened Bytes
  import opened Checksum
  import opened Options

  const EchoRequest: byte := 0x08
  const EchoReply: byte := 0x00

  /** The message before its checksum is filled in. */
  function Unsummed(t: byte, id: uint16, sq: uint16): (m: seq<byte>)
    ensures |m| == 8
  {
    [t, 0, 0, 0] + BE16(id) + BE16(sq)
  }

  /** The 8-byte echo message of type t: code 0, the complement of the
      folded word sum at bytes 2-3, id and sequence big-endian. */
  function EchoMessage(t: byte, id: uint16, sq: uint16): (m: seq<byte>)
    ensures |m| == 8
  {
    [t, 0] + BE16(0xFFFF - Fold16(Sum(Words(Unsummed(t, id, sq))))) + BE16(id) + BE16(sq)
  }

  /** What the parsers accept: at least 8 bytes, type t and code 0; the id
      and sequence are then read big-endian from bytes 4-7. */
  function ParseEcho(t: byte, packet: seq<byte>): Option<(uint16, uint16)>
  {
    if |packet| < 8 || packet[0] != t || packet[1] != 0 then None
    else Some((ReadBE16(packet, 4), ReadBE16(packet, 6)))
  }

  /** `while (sum >> 16) sum = (sum & 0xFFFF) + (sum >> 16);` */
  method FoldCarries(sum0: uint32) returns (sum: uint16)
    ensures sum == Fold16(sum0)
  {
    var s: uint32 := sum0;
    while s >= 0x1_0000
      invariant Fold16(s) == Fold16(sum0)
      decreases s
    {
      FoldStep(s);
      s := s % 0x1_0000 + s / 0x1_0000;
    }
    sum := s;
  }

  /** `for (i = 0; i < size; i += 2) sum += (packet[i] << 8) | packet[i + 1];`
      over the 8-byte message. */
  method SumBigEndianWords(pk: array<byte>) returns (sum: uint32)
    requires pk.Length == 8
    ensures sum == Sum(Words(pk[..]))
  {
    sum := 0;
    var i := 0;
    while i < 8
      invariant i % 2 == 0 && i <= 8
      invariant sum == Sum(Words(pk[..][..i]))
    {
      SumNextWord(pk[..], i);
      sum := sum + (pk[i] as int) * 0x100 + pk[i + 1];
      i := i + 2;
    }
    assert pk[..][..8] == pk[..];
  }

  /** The fields of the message, written into a zeroed 8-byte vector. */
  method FillEcho(t: byte, id: uint16, sq: uint16) returns (pk: array<byte>)
    ensures fresh(pk) && pk[..] == Unsummed(t, id, sq)
  {
    pk := new byte[8](_ => 0);
    pk[0] := t;
    pk[1] := 0x00;
    pk[2] := 0x00;
    pk[3] := 0x00;
    pk[4] := id / 0x100;
    pk[5] := id % 0x100;
    pk[6] := sq / 0x100;
    pk[7] := sq % 0x100;
  }

  /** The body the two builders share: fill the fields, sum the four
      big-endian words, fold and store the complement. */
  method BuildEcho(t: byte, id: uint16, sq: uint16) returns (packet: seq<byte>)
    ensures packet == EchoMessage(t, id, sq)
  {
    var pk := FillEcho(t, id, sq);
    var sum := SumBigEndianWords(pk);
    var folded := FoldCarries(sum);
    Complement16Small(folded);
    var checksum: uint16 := Complement16(folded);
    pk[2] := checksum / 0x100;
    pk[3] := checksum % 0x100;
    packet := pk[..];
    assert packet == [t, 0] + BE16(checksum) + BE16(id) + BE16(sq);
  }

  /** `create_echo_request` */
  method CreateEchoRequest(id: uint16, sq: uint16) returns (packet: seq<byte>)
    ensures packet == EchoMessage(EchoRequest, id, sq)
  {
    packet := BuildEcho(EchoRequest, id, sq);
  }

  /** `create_echo_reply` */
  method CreateEchoReply(id: uint16, sq: uint16) returns (packet: seq<byte>)
    ensures packet == EchoMessage(EchoReply, id, sq)
  {
    packet := BuildEcho(EchoReply, id, sq);
  }

  /** The shared parser: `id` and `sq` are the caller's reference arguments,
      written only on success. */
  method ParseEchoOf(t: byte, packet: seq<byte>, id0: uint16, seq0: uint16)
    returns (ok: bool, id: uint16, sq: uint16)
    ensures ok == (|packet| >= 8 && packet[0] == t && packet[1] == 0)
    ensures ok ==> ParseEcho(t, packet) == Some((id, sq))
    ensures !ok ==> ParseEcho(t, packet) == None && id == id0 && sq == seq0
  {
    id, sq := id0, seq0;
    if |packet| < 8 {
      return false, id, sq;
    }
    var tp, code := packet[0], packet[1];
    if tp != t || code != 0x00 {
      return false, id, sq;
    }
    id := (packet[4] as int) * 0x100 + packet[5];
    sq := (packet[6] as int) * 0x100 + packet[7];
    return true, id, sq;
  }

  /** `parse_echo_reply` */
  method ParseEchoReply(packet: seq<byte>, id0: uint16, seq0: uint16)
    returns (ok: bool, id: uint16, sq: uint16)
    ensures ok == (|packet| >= 8 && packet[0] == EchoReply && packet[1] == 0)
    ensures ok ==> ParseEcho(EchoReply, packet) == Some((id, sq))
    ensures !ok ==> id == id0 && sq == seq0
  {
    ok, id, sq := ParseEchoOf(EchoReply, packet, id0, seq0);
  }

  /** `parse_echo_request` */
  method ParseEchoRequest(packet: seq<byte>, id0: uint16, seq0: uint16)
    returns (ok: bool, id: uint16, sq: uint16)
    ensures ok == (|packet| >= 8 && packet[0] == EchoRequest && packet[1] == 0)
    ensures ok ==> ParseEcho(EchoRequest, packet) == Some((id, sq))
    ensures !ok ==> id == id0 && sq == seq0
  {
    ok, id, sq := ParseEchoOf(EchoRequest, packet, id0, seq0);
  }

  // ---------------------------------------------------------------------
  // Properties

  /** A built message carries its type, code 0, id and sequence. */
  lemma EchoLayout(t: byte, id: uint16, sq: uint16)
    ensures var m := EchoMessage(t, id, sq);
      m[0] == t && m[1] == 0 && ReadBE16(m, 4) == id && ReadBE16(m, 6) == sq
  {
  }

  /** RFC 1071 verification: the four words of a built message add up to
      0xFFFF with end-around carry. */
  lemma EchoChecksumVerifies(t: byte, id: uint16, sq: uint16)
    ensures OnesSum(Words(EchoMessage(t, id, sq))) == 0xFFFF
  {
    var m0, m := Unsummed(t, id, sq), EchoMessage(t, id, sq);
    assert ReadBE16(m, 2) == 0xFFFF - Fold16(Sum(Words(m0)));
    ChecksumFieldVerifies(m0, m, 1);
  }

  /** Parsing a built message of the same type gives back id and sequence. */
  lemma ParseEchoRoundTrip(t: byte, id: uint16, sq: uint16)
    ensures ParseEcho(t, EchoMessage(t, id, sq)) == Some((id, sq))
  {
  }

  /** A reply is not a request and a request is not a reply. */
  lemma ParseEchoRejectsOtherType(id: uint16, sq: uint16)
    ensures ParseEcho(EchoRequest, EchoMessage(EchoReply, id, sq)) == None
    ensures ParseEcho(EchoReply, EchoMessage(EchoRequest, id, sq)) == None
  {
  }

  /** The parsers never look at bytes 2-3: a corrupted checksum is accepted. */
  lemma ParseEchoIgnoresChecksum(t: byte, packet: seq<byte>, c0: byte, c1: byte)
    requires |packet| >= 8
    ensures ParseEcho(t, packet[2 := c0][3 := c1]) == ParseEcho(t, packet)
  {
  }

  /** The echo exchange of the driver (TCP-IP-Stack.cpp): a request and a
      reply for id 1, sequence 1, each parsed by its own parser, succeed
      and report id 1 and sequence 1. */
  method EchoScenario() returns (requestOk: bool, replyOk: bool, id: uint16, sq: uint16)
    ensures requestOk && replyOk && id == 1 && sq == 1
  {
    var request := CreateEchoRequest(1, 1);
    requestOk, id, sq := ParseEchoRequest(request, 0, 0);
    var reply := CreateEchoReply(1, 1);
    replyOk, id, sq := ParseEchoReply(reply, id, sq);
  }
}
