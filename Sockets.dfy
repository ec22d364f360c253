/** The mock socket (include/Socket.h): a single-slot mailbox. `sendto`
    stores a datagram and `recvfrom` hands it back once. */
module Sockets {
  import opened Bytes

  datatype SocketType = Udp | Tcp

  const LoopbackSource: string := "127.0.0.1"

  class Socket {
    const kind: SocketType
    var boundPort: uint16
    var buffer: seq<byte>

    constructor(t: SocketType)
      ensures kind == t && boundPort == 0 && buffer == []
    {
      kind := t;
      boundPort := 0;
      buffer := [];
    }

    method Bind(port: uint16) returns (ok: bool)
      modifies this
      ensures ok && boundPort == port && buffer == old(buffer)
    {
      boundPort := port;
      return true;
    }

    /** `sendto` replaces the buffer: only the last datagram is kept. The
        destination is only printed. */
    method SendTo(data: seq<byte>, destIp: string, destPort: uint16) returns (ok: bool)
      modifies this
      ensures ok && buffer == data && boundPort == old(boundPort)
    {
      buffer := data;
      return true;
    }

    /** `recvfrom`. The inputs ending in 0 are the caller's reference
        arguments; an empty buffer (nothing sent, or an empty datagram)
        fails and leaves them as they were. */
    method RecvFrom(data0: seq<byte>, srcIp0: string, srcPort0: uint16)
      returns (ok: bool, data: seq<byte>, srcIp: string, srcPort: uint16)
      modifies this
      ensures ok <==> old(buffer) != []
      ensures ok ==> data == old(buffer) && srcIp == LoopbackSource && srcPort == boundPort && buffer == []
      ensures !ok ==> data == data0 && srcIp == srcIp0 && srcPort == srcPort0 && buffer == old(buffer)
      ensures boundPort == old(boundPort)
    {
      if buffer == [] {
        return false, data0, srcIp0, srcPort0;
      }
      data := buffer;
      srcIp := LoopbackSource;
      srcPort := boundPort;
      buffer := [];
      ok := true;
    }
  }

  /** A bound socket hands back a non-empty datagram once, from 127.0.0.1
      and the bound port; the second receive fails. An empty datagram is
      never received. */
  method MailboxScenario(port: uint16, d: seq<byte>)
    returns (first: bool, got: seq<byte>, from: string, fromPort: uint16, second: bool)
    ensures first <==> d != []
    ensures first ==> got == d && from == LoopbackSource && fromPort == port
    ensures !second
  {
    var s := new Socket(Udp);
    var _ := s.Bind(port);
    var _ := s.SendTo(d, "127.0.0.1", port);
    first, got, from, fromPort := s.RecvFrom([], "", 0);
    var again, d2, ip2, p2 := s.RecvFrom(got, from, fromPort);
    second := again;
  }
}
