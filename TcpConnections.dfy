/** The TCP connection state machine (include/TCPConnection.h): eleven
    states, guarded event methods that do nothing outside their state, and
    at most one frame per event, built as TCP segment inside an IPv4 packet
    inside an Ethernet frame. The raw socket becomes a log of the frames
    handed to `send_ethernet_frame`, and the clock a parameter. */
module TcpConnections {
  import opened Bytes
  import opened Options
  import opened Checksum
  import Tcp
  import IPv4
  import Ethernet

  datatype State =
    | Closed | Listen | SynSent | SynReceived | Established
    | FinWait1 | FinWait2 | CloseWait | Closing | LastAck | TimeWait

  /** `state_to_string` */
  function StateName(s: State): (n: string)
    ensures n != "UNKNOWN"
  {
    match s
    case Closed => "CLOSED"
    case Listen => "LISTEN"
    case SynSent => "SYN_SENT"
    case SynReceived => "SYN_RECEIVED"
    case Established => "ESTABLISHED"
    case FinWait1 => "FIN_WAIT_1"
    case FinWait2 => "FIN_WAIT_2"
    case CloseWait => "CLOSE_WAIT"
    case Closing => "CLOSING"
    case LastAck => "LAST_ACK"
    case TimeWait => "TIME_WAIT"
  }

  const IpProtoTcp: byte := 6
  const EtherTypeIPv4: uint16 := 0x0800
  const BroadcastMac: seq<byte> := [0xff, 0xff, 0xff, 0xff, 0xff, 0xff]
  const HostMac: seq<byte> := [0x00, 0x0c, 0x29, 0x36, 0xbc, 0x17]
  /** `receive_syn_ack` tests `SYN | ACK`. */
  const SynOrAck: byte := 0x12

  /** `timeout_duration`, 3 s, in the nanosecond ticks `now` is given in. */
  const TimeoutNs: int := 3_000_000_000

  /** uint32 addition of one. */
  function Inc(x: uint32): (r: uint32)
    ensures r == if x == 0xFFFF_FFFF then 0 else x + 1
  {
    (x + 1) % 0x1_0000_0000
  }

  // ---------------------------------------------------------------------
  // Reference definition of the events

  /** The fields the events read and write. */
  datatype Control = Control(state: State, seqNum: uint32, ackNum: uint32)

  /** The segment an event sends: sequence number, acknowledgment number
      and flags; ports, addresses and the empty payload are the
      connection's. */
  datatype Emit = Emit(seqNum: uint32, ackNum: uint32, flags: byte)

  datatype Event =
    | SendSyn
    | ReceiveSyn(segment: Tcp.TCPSegment)
    | ReceiveSynAck(segment: Tcp.TCPSegment)
    | SendAck
    | SendFin
    | ReceiveAckForFin
    | ReceiveFin
    | ReceiveAck

  datatype Outcome = Outcome(after: Control, emitted: Option<Emit>)

  /** The guard of each event method. */
  predicate Enabled(s: State, e: Event)
  {
    match e
    case SendSyn => s == Closed
    case ReceiveSyn(seg) => s == Listen && And(seg.flags, Tcp.SYN) != 0
    case ReceiveSynAck(seg) => s == SynSent && And(seg.flags, SynOrAck) != 0
    case SendAck => s == SynReceived
    case SendFin => s == Established
    case ReceiveAckForFin => s == FinWait1
    case ReceiveFin => s == FinWait2 || s == Established || s == CloseWait
    case ReceiveAck => s == LastAck
  }

  /** What one event does to the control fields and what it sends. The
      segment's fields are the stored (network-order) ones, used as the
      source uses them. */
  function Step(c: Control, e: Event): (r: Outcome)
    ensures !Enabled(c.state, e) ==> r == Outcome(c, None)
  {
    if !Enabled(c.state, e) then Outcome(c, None)
    else match e
      case SendSyn => Outcome(c.(state := SynSent), Some(Emit(c.seqNum, c.ackNum, Tcp.SYN)))
      case ReceiveSyn(seg) => Outcome(Control(SynReceived, seg.ackNum, Inc(seg.seqNum)), None)
      case ReceiveSynAck(seg) =>
        Outcome(c.(state := Established, ackNum := Inc(seg.seqNum)),
                Some(Emit(Inc(c.seqNum), Inc(seg.seqNum), Tcp.ACK)))
      case SendAck => Outcome(c.(state := Established), Some(Emit(c.seqNum, c.ackNum, Tcp.ACK)))
      case SendFin => Outcome(c.(state := FinWait1), Some(Emit(Inc(c.seqNum), c.ackNum, Tcp.FIN)))
      case ReceiveAckForFin => Outcome(c.(state := FinWait2), None)
      case ReceiveFin =>
        if c.state == FinWait2 then
          Outcome(c.(state := TimeWait), Some(Emit(Inc(c.seqNum), c.ackNum, Tcp.ACK)))
        else if c.state == Established then Outcome(c.(state := CloseWait), None)
        else Outcome(c.(state := LastAck), Some(Emit(Inc(c.seqNum), c.ackNum, Tcp.ACK)))
      case ReceiveAck => Outcome(c.(state := Closed), None)
  }

  /** The events applied in order. */
  function Run(c: Control, es: seq<Event>): Control
    decreases |es|
  {
    if es == [] then c else Run(Step(c, es[0]).after, es[1..])
  }

  /** The bytes handed to `send_ethernet_frame` for a segment `x`: an
      empty-payload TCP segment, in an IPv4 packet with protocol 6, in a
      frame from the fixed host MAC to the broadcast MAC. */
  function ConnectionFrame(sp: uint16, dp: uint16, si: uint32, di: uint32, x: Emit): seq<byte>
  {
    var segment := Tcp.SegmentBytes(Tcp.Make(sp, dp, x.seqNum, x.ackNum, [], x.flags));
    var packet := IPv4.PacketBytes(IPv4.Make(IpProtoTcp, si, di, segment));
    Ethernet.FrameBytes(Ethernet.NewFrame(BroadcastMac, HostMac, EtherTypeIPv4, packet))
  }

  /** The largest key of a non-empty map's key set, which `rbegin` of a
      `std::map` designates. */
  ghost function MaxKey(keys: set<uint32>): (k: uint32)
    requires keys != {}
    ensures k in keys && forall j :: j in keys ==> j <= k
  {
    var x :| x in keys;
    var rest := keys - {x};
    assert forall j :: j in keys ==> j == x || j in rest;
    if rest == {} then x
    else
      var r := MaxKey(rest);
      if x > r then x else r
  }

  /** What `retransmit_last_segment` sends. */
  ghost function Retransmission(m: map<uint32, seq<byte>>): seq<seq<byte>>
  {
    if m.Keys == {} then [] else [m[MaxKey(m.Keys)]]
  }

  class TcpConnection {
    var state: State
    const srcPort: uint16
    const destPort: uint16
    var seqNum: uint32
    var ackNum: uint32
    const srcIp: uint32
    const destIp: uint32
    const destMac: seq<byte> := BroadcastMac
    const srcMac: seq<byte> := HostMac
    /** Never inserted into by any method. */
    var sentSegments: map<uint32, seq<byte>>
    /** A default `time_point`: the clock's epoch, 0. */
    var lastSentTime: int
    /** Frames handed to `send_ethernet_frame`, oldest first. */
    ghost var frames: seq<seq<byte>>

    function Fields(): Control
      reads this
    {
      Control(state, seqNum, ackNum)
    }

    /** The frames an outcome sends on this connection. */
    function Wire(x: Option<Emit>): seq<seq<byte>>
    {
      if x.None? then [] else [ConnectionFrame(srcPort, destPort, srcIp, destIp, x.value)]
    }

    constructor(sp: uint16, dp: uint16, sa: uint32, da: uint32)
      ensures state == Closed && seqNum == 0 && ackNum == 0
      ensures srcPort == sp && destPort == dp && srcIp == sa && destIp == da
      ensures sentSegments == map[] && lastSentTime == 0 && frames == []
    {
      state := Closed;
      srcPort := sp;
      destPort := dp;
      seqNum := 0;
      ackNum := 0;
      srcIp := sa;
      destIp := da;
      sentSegments := map[];
      lastSentTime := 0;
      frames := [];
    }

    /** Builds the segment, the packet around it and the frame around that,
        and logs the frame's bytes. */
    method SendSegment(sq: uint32, ak: uint32, f: byte)
      modifies this
      ensures frames == old(frames) + [ConnectionFrame(srcPort, destPort, srcIp, destIp, Emit(sq, ak, f))]
      ensures Fields() == old(Fields()) && sentSegments == old(sentSegments)
      ensures lastSentTime == old(lastSentTime)
    {
      var segment := Tcp.NewSegment(srcPort, destPort, sq, ak, [], f);
      var segmentBytes := Tcp.Serialize(segment);
      var packet := IPv4.NewPacket(IpProtoTcp, srcIp, destIp, segmentBytes);
      var packetBytes := IPv4.Serialize(packet);
      var frame := Ethernet.NewFrame(destMac, srcMac, EtherTypeIPv4, packetBytes);
      var frameBytes := Ethernet.Serialize(frame);
      frames := frames + [frameBytes];
    }

    /** `send_syn` */
    method SendSyn()
      modifies this
      ensures var o := Step(old(Fields()), Event.SendSyn);
        Fields() == o.after && frames == old(frames) + Wire(o.emitted)
      ensures sentSegments == old(sentSegments) && lastSentTime == old(lastSentTime)
    {
      if state == Closed {
        SendSegment(seqNum, ackNum, Tcp.SYN);
        state := SynSent;
      }
    }

    /** `receive_syn` */
    method ReceiveSyn(segment: Tcp.TCPSegment)
      modifies this
      ensures var o := Step(old(Fields()), Event.ReceiveSyn(segment));
        Fields() == o.after && frames == old(frames) + Wire(o.emitted)
      ensures sentSegments == old(sentSegments) && lastSentTime == old(lastSentTime)
    {
      if state == Listen && And(segment.flags, Tcp.SYN) != 0 {
        seqNum := segment.ackNum;
        ackNum := Inc(segment.seqNum);
        state := SynReceived;
      }
    }

    /** `receive_syn_ack` */
    method ReceiveSynAck(segment: Tcp.TCPSegment)
      modifies this
      ensures var o := Step(old(Fields()), Event.ReceiveSynAck(segment));
        Fields() == o.after && frames == old(frames) + Wire(o.emitted)
      ensures sentSegments == old(sentSegments) && lastSentTime == old(lastSentTime)
    {
      if state == SynSent && And(segment.flags, SynOrAck) != 0 {
        ackNum := Inc(segment.seqNum);
        SendSegment(Inc(seqNum), ackNum, Tcp.ACK);
        state := Established;
      }
    }

    /** `send_ack` */
    method SendAck()
      modifies this
      ensures var o := Step(old(Fields()), Event.SendAck);
        Fields() == o.after && frames == old(frames) + Wire(o.emitted)
      ensures sentSegments == old(sentSegments) && lastSentTime == old(lastSentTime)
    {
      if state == SynReceived {
        SendSegment(seqNum, ackNum, Tcp.ACK);
        state := Established;
      }
    }

    /** `send_fin` */
    method SendFin()
      modifies this
      ensures var o := Step(old(Fields()), Event.SendFin);
        Fields() == o.after && frames == old(frames) + Wire(o.emitted)
      ensures sentSegments == old(sentSegments) && lastSentTime == old(lastSentTime)
    {
      if state == Established {
        SendSegment(Inc(seqNum), ackNum, Tcp.FIN);
        state := FinWait1;
      }
    }

    /** `receive_ack_for_fin` */
    method ReceiveAckForFin()
      modifies this
      ensures var o := Step(old(Fields()), Event.ReceiveAckForFin);
        Fields() == o.after && frames == old(frames) + Wire(o.emitted)
      ensures sentSegments == old(sentSegments) && lastSentTime == old(lastSentTime)
    {
      if state == FinWait1 {
        state := FinWait2;
      }
    }

    /** `receive_fin` */
    method ReceiveFin()
      modifies this
      ensures var o := Step(old(Fields()), Event.ReceiveFin);
        Fields() == o.after && frames == old(frames) + Wire(o.emitted)
      ensures sentSegments == old(sentSegments) && lastSentTime == old(lastSentTime)
    {
      if state == FinWait2 {
        SendSegment(Inc(seqNum), ackNum, Tcp.ACK);
        state := TimeWait;
      } else if state == Established {
        state := CloseWait;
      } else if state == CloseWait {
        SendSegment(Inc(seqNum), ackNum, Tcp.ACK);
        state := LastAck;
      }
    }

    /** `receive_ack` */
    method ReceiveAck()
      modifies this
      ensures var o := Step(old(Fields()), Event.ReceiveAck);
        Fields() == o.after && frames == old(frames) + Wire(o.emitted)
      ensures sentSegments == old(sentSegments) && lastSentTime == old(lastSentTime)
    {
      if state == LastAck {
        state := Closed;
      }
    }

    /** `retransmit_last_segment`: the bytes stored under the largest key
        go out unmodified; an empty map sends nothing. */
    method RetransmitLastSegment()
      modifies this
      ensures frames == old(frames) + Retransmission(sentSegments)
      ensures Fields() == old(Fields()) && sentSegments == old(sentSegments)
      ensures lastSentTime == old(lastSentTime)
    {
      if sentSegments.Keys != {} {
        frames := frames + [sentSegments[MaxKey(sentSegments.Keys)]];
      }
    }

    /** `handle_timeout`, with the clock reading passed in as `now`. */
    method HandleTimeout(now: int)
      modifies this
      ensures now - old(lastSentTime) > TimeoutNs ==>
        lastSentTime == now && frames == old(frames) + Retransmission(sentSegments)
      ensures now - old(lastSentTime) <= TimeoutNs ==>
        lastSentTime == old(lastSentTime) && frames == old(frames)
      ensures Fields() == old(Fields()) && sentSegments == old(sentSegments)
    {
      if now - lastSentTime > TimeoutNs {
        RetransmitLastSegment();
        lastSentTime := now;
      }
    }
  }

  // ---------------------------------------------------------------------
  // Properties

  /** An event changes the state exactly when its guard holds, and sends
      something only then. */
  lemma GuardDecides(c: Control, e: Event)
    ensures Step(c, e).after.state != c.state <==> Enabled(c.state, e)
    ensures Step(c, e).emitted.Some? ==> Enabled(c.state, e)
  {
  }

  /** The transition table. */
  lemma TransitionTable(c: Control, seg: Tcp.TCPSegment)
    ensures c.state == Closed ==> Step(c, SendSyn).after.state == SynSent
    ensures c.state == Listen && And(seg.flags, Tcp.SYN) != 0 ==>
      Step(c, ReceiveSyn(seg)).after.state == SynReceived
    ensures c.state == SynSent && And(seg.flags, SynOrAck) != 0 ==>
      Step(c, ReceiveSynAck(seg)).after.state == Established
    ensures c.state == SynReceived ==> Step(c, SendAck).after.state == Established
    ensures c.state == Established ==> Step(c, SendFin).after.state == FinWait1
    ensures c.state == FinWait1 ==> Step(c, ReceiveAckForFin).after.state == FinWait2
    ensures c.state == FinWait2 ==> Step(c, ReceiveFin).after.state == TimeWait
    ensures c.state == Established ==> Step(c, ReceiveFin).after.state == CloseWait
    ensures c.state == CloseWait ==> Step(c, ReceiveFin).after.state == LastAck
    ensures c.state == LastAck ==> Step(c, ReceiveAck).after.state == Closed
  {
  }

  /** Only `receive_syn` writes `seq_num`; only `receive_syn` and
      `receive_syn_ack` write `ack_num`, to the segment's sequence number
      plus one modulo 2^32. */
  lemma CounterWrites(c: Control, e: Event)
    ensures !e.ReceiveSyn? ==> Step(c, e).after.seqNum == c.seqNum
    ensures !e.ReceiveSyn? && !e.ReceiveSynAck? ==> Step(c, e).after.ackNum == c.ackNum
    ensures (e.ReceiveSyn? || e.ReceiveSynAck?) && Enabled(c.state, e) ==>
      Step(c, e).after.ackNum == Inc(e.segment.seqNum)
    ensures e.ReceiveSyn? && Enabled(c.state, e) ==> Step(c, e).after.seqNum == e.segment.ackNum
  {
  }

  /** SYN and the SYN_RECEIVED acknowledgment carry `seq_num`; every other
      segment carries `seq_num + 1`; all carry the (updated) `ack_num`. */
  lemma EmittedNumbers(c: Control, e: Event)
    requires Step(c, e).emitted.Some?
    ensures var x := Step(c, e).emitted.value;
      && x.seqNum == (if e.SendSyn? || e.SendAck? then c.seqNum else Inc(c.seqNum))
      && x.ackNum == Step(c, e).after.ackNum
      && x.flags == (if e.SendSyn? then Tcp.SYN else if e.SendFin? then Tcp.FIN else Tcp.ACK)
  {
  }

  /** Which enabled events send a frame. */
  lemma EmittingEvents(c: Control, e: Event)
    requires Enabled(c.state, e)
    ensures Step(c, e).emitted.None? <==>
      (e.ReceiveSyn? || e.ReceiveAckForFin? || e.ReceiveAck? || (e.ReceiveFin? && c.state == Established))
  {
  }

  /** `0xFFFFFFFF + 1` wraps to 0. */
  lemma AckNumWraps(c: Control, seg: Tcp.TCPSegment)
    requires c.state == SynSent && And(seg.flags, SynOrAck) != 0 && seg.seqNum == 0xFFFF_FFFF
    ensures Step(c, ReceiveSynAck(seg)).after.ackNum == 0
  {
  }

  /** `receive_syn_ack` accepts a segment carrying either flag, and
      `receive_syn` ignores a segment without SYN. */
  lemma GuardFlags()
    ensures And(Tcp.SYN, SynOrAck) != 0 && And(Tcp.ACK, SynOrAck) != 0
    ensures And(Tcp.FIN, SynOrAck) == 0
    ensures And(Tcp.ACK, Tcp.SYN) == 0
  {
    assert And(Tcp.SYN, SynOrAck) == 2;
    assert And(Tcp.ACK, SynOrAck) == 0x10;
  }

  predicate Reachable(s: State)
  {
    s != Listen && s != Closing
  }

  lemma StepKeepsReachable(c: Control, e: Event)
    requires Reachable(c.state)
    ensures Reachable(Step(c, e).after.state)
  {
  }

  /** No method assigns LISTEN or CLOSING, so no sequence of events leads
      there from a state other than those two. */
  lemma {:induction false} RunKeepsReachable(c: Control, es: seq<Event>)
    requires Reachable(c.state)
    ensures Reachable(Run(c, es).state)
    decreases |es|
  {
    if es != [] {
      StepKeepsReachable(c, es[0]);
      RunKeepsReachable(Step(c, es[0]).after, es[1..]);
    }
  }

  /** So from a new connection neither is ever reached, and `receive_syn`
      never fires. */
  lemma NeverListenOrClosing(es: seq<Event>, seg: Tcp.TCPSegment)
    ensures Run(Control(Closed, 0, 0), es).state != Listen
    ensures Run(Control(Closed, 0, 0), es).state != Closing
    ensures !Enabled(Run(Control(Closed, 0, 0), es).state, ReceiveSyn(seg))
  {
    RunKeepsReachable(Control(Closed, 0, 0), es);
  }

  /** The inverse of `state_to_string` on the eleven names. */
  function StateOfName(n: string): (s: Option<State>)
  {
    if n == "CLOSED" then Some(Closed)
    else if n == "LISTEN" then Some(Listen)
    else if n == "SYN_SENT" then Some(SynSent)
    else if n == "SYN_RECEIVED" then Some(SynReceived)
    else if n == "ESTABLISHED" then Some(Established)
    else if n == "FIN_WAIT_1" then Some(FinWait1)
    else if n == "FIN_WAIT_2" then Some(FinWait2)
    else if n == "CLOSE_WAIT" then Some(CloseWait)
    else if n == "CLOSING" then Some(Closing)
    else if n == "LAST_ACK" then Some(LastAck)
    else if n == "TIME_WAIT" then Some(TimeWait)
    else None
  }

  lemma StateNameRoundTrip(s: State)
    ensures StateOfName(StateName(s)) == Some(s)
  {
  }

  /** `state_to_string` tells the states apart. */
  lemma StateNameInjective(a: State, b: State)
    ensures StateName(a) == StateName(b) <==> a == b
  {
    StateNameRoundTrip(a);
    StateNameRoundTrip(b);
  }

  /** The frame an event sends: broadcast destination, the fixed host MAC,
      EtherType 0x0800; an IPv4 header with protocol 6 and the
      connection's addresses whose checksum verifies; a 20-byte TCP
      segment with the connection's ports and the segment's numbers and
      flags whose checksum verifies. */
  lemma ConnectionFrameLayout(sp: uint16, dp: uint16, si: uint32, di: uint32, x: Emit)
    ensures var b := ConnectionFrame(sp, dp, si, di, x);
      && |b| == 54
      && b[..6] == BroadcastMac && b[6..12] == HostMac && ReadBE16(b, 12) == EtherTypeIPv4
      && b[14] == 0x45 && b[23] == IpProtoTcp
      && ReadBE32(b[14..], 12) == si && ReadBE32(b[14..], 16) == di
      && OnesSum(Words(b[14..34])) == 0xFFFF
      && ReadBE16(b[34..], 0) == sp && ReadBE16(b[34..], 2) == dp
      && ReadBE32(b[34..], 4) == x.seqNum && ReadBE32(b[34..], 8) == x.ackNum
      && b[47] == x.flags
      && OnesSum(Words(b[34..])) == 0xFFFF
  {
    var segment := Tcp.SegmentBytes(Tcp.Make(sp, dp, x.seqNum, x.ackNum, [], x.flags));
    var packet := IPv4.PacketBytes(IPv4.Make(IpProtoTcp, si, di, segment));
    var f := Ethernet.NewFrame(BroadcastMac, HostMac, EtherTypeIPv4, packet);
    Tcp.MakeLayout(sp, dp, x.seqNum, x.ackNum, [], x.flags);
    Tcp.MakeEmptyChecksumVerifies(sp, dp, x.seqNum, x.ackNum, x.flags);
    IPv4.MakeLayout(IpProtoTcp, si, di, segment);
    IPv4.MakeChecksumVerifies(IpProtoTcp, si, di, segment);
    Ethernet.SerializeLayout(f);
    var b := Ethernet.FrameBytes(f);
    assert b[14..] == packet;
    assert b[14..34] == packet[..20];
    assert b[34..] == packet[20..] == segment;
  }

  /** A connection's map is never filled, so a timeout sends nothing. */
  lemma NothingToRetransmit()
    ensures Retransmission(map[]) == []
  {
  }

  // ---------------------------------------------------------------------
  // The driver's connection (TCP-IP-Stack.cpp)

  /** The segments the events send, in order. */
  function Trace(c: Control, es: seq<Event>): (xs: seq<Emit>)
    ensures |xs| <= |es|
    decreases |es|
  {
    if es == [] then []
    else
      var o := Step(c, es[0]);
      (if o.emitted.Some? then [o.emitted.value] else []) + Trace(o.after, es[1..])
  }

  /** The driver's SYN-ACK, `TCPSegment(80, 12345, 0, 1, {}, SYN | ACK)`:
      its stored sequence number is 0 and its flags are SYN and ACK. */
  lemma DriverSynAck()
    ensures Tcp.Make(80, 12345, 0, 1, [], 0x12).seqNum == 0
    ensures Tcp.Make(80, 12345, 0, 1, [], 0x12).flags == 0x12
  {
    assert BE32(0) == [0, 0, 0, 0];
  }

  /** The driver's calls, `send_syn` first. */
  function DriverEvents(synAck: Tcp.TCPSegment): seq<Event>
  {
    [SendSyn, ReceiveSynAck(synAck), ReceiveAck, SendFin, ReceiveAckForFin, ReceiveFin, ReceiveAck]
  }

  /** The driver's calls on a new connection, for its SYN-ACK or any segment
      with the same stored sequence number and flags: SYN, the SYN-ACK, a
      stray `receive_ack`, FIN, its acknowledgment, the peer's FIN and
      another stray `receive_ack` end in TIME_WAIT after four segments
      (SYN, ACK, FIN, ACK). */
  lemma DriverRun(synAck: Tcp.TCPSegment)
    requires synAck.seqNum == 0 && synAck.flags == 0x12
    ensures Run(Control(Closed, 0, 0), DriverEvents(synAck)) == Control(TimeWait, 0, 1)
    ensures Trace(Control(Closed, 0, 0), DriverEvents(synAck))
         == [Emit(0, 0, Tcp.SYN), Emit(1, 1, Tcp.ACK), Emit(1, 1, Tcp.FIN), Emit(1, 1, Tcp.ACK)]
  {
    var rest := [ReceiveSynAck(synAck)] + TeardownEvents();
    assert DriverEvents(synAck) == [SendSyn] + rest;
    DriverHandshake(synAck);
    DriverTeardown();
    var tail := Trace(Control(Established, 0, 1), TeardownEvents());
    RunCons(Control(SynSent, 0, 0), ReceiveSynAck(synAck), TeardownEvents());
    assert Trace(Control(SynSent, 0, 0), rest) == [Emit(1, 1, Tcp.ACK)] + tail;
    RunCons(Control(Closed, 0, 0), SendSyn, rest);
    assert Trace(Control(Closed, 0, 0), [SendSyn] + rest) == [Emit(0, 0, Tcp.SYN)] + ([Emit(1, 1, Tcp.ACK)] + tail);
  }

  lemma DriverHandshake(synAck: Tcp.TCPSegment)
    requires synAck.seqNum == 0 && synAck.flags == 0x12
    ensures Step(Control(Closed, 0, 0), SendSyn) == Outcome(Control(SynSent, 0, 0), Some(Emit(0, 0, Tcp.SYN)))
    ensures Step(Control(SynSent, 0, 0), ReceiveSynAck(synAck))
         == Outcome(Control(Established, 0, 1), Some(Emit(1, 1, Tcp.ACK)))
  {
    assert And(0x12, SynOrAck) == 0x12;
  }

  function TeardownEvents(): seq<Event>
  {
    [ReceiveAck, SendFin, ReceiveAckForFin, ReceiveFin, ReceiveAck]
  }

  /** Running a list that starts with e takes the step for e first. */
  lemma RunCons(c: Control, e: Event, es: seq<Event>)
    ensures Run(c, [e] + es) == Run(Step(c, e).after, es)
    ensures Trace(c, [e] + es)
         == (if Step(c, e).emitted.Some? then [Step(c, e).emitted.value] else []) + Trace(Step(c, e).after, es)
  {
    assert ([e] + es)[0] == e && ([e] + es)[1..] == es;
  }

  /** From ESTABLISHED the driver's remaining calls end in TIME_WAIT after
      FIN and ACK. */
  lemma DriverTeardown()
    ensures Run(Control(Established, 0, 1), TeardownEvents()) == Control(TimeWait, 0, 1)
    ensures Trace(Control(Established, 0, 1), TeardownEvents()) == [Emit(1, 1, Tcp.FIN), Emit(1, 1, Tcp.ACK)]
  {
    var c2, c4 := Control(Established, 0, 1), Control(FinWait1, 0, 1);
    var c5, c6 := Control(FinWait2, 0, 1), Control(TimeWait, 0, 1);
    var e4 := [ReceiveAck];
    var e3 := [ReceiveFin] + e4;
    var e2 := [ReceiveAckForFin] + e3;
    var e1 := [SendFin] + e2;
    assert TeardownEvents() == [ReceiveAck] + e1;
    assert Step(c6, ReceiveAck) == Outcome(c6, None);
    RunCons(c6, ReceiveAck, []);
    assert Step(c5, ReceiveFin) == Outcome(c6, Some(Emit(1, 1, Tcp.ACK)));
    RunCons(c5, ReceiveFin, e4);
    assert Step(c4, ReceiveAckForFin) == Outcome(c5, None);
    RunCons(c4, ReceiveAckForFin, e3);
    assert Step(c2, SendFin) == Outcome(c4, Some(Emit(1, 1, Tcp.FIN)));
    RunCons(c2, SendFin, e2);
    assert Step(c2, ReceiveAck) == Outcome(c2, None);
    RunCons(c2, ReceiveAck, e1);
  }

  /** The driver's two `receive_ack` calls, in ESTABLISHED and in
      TIME_WAIT, change nothing and send nothing. */
  lemma DriverStrayAcks()
    ensures Step(Control(Established, 0, 1), ReceiveAck) == Outcome(Control(Established, 0, 1), None)
    ensures Step(Control(TimeWait, 0, 1), ReceiveAck) == Outcome(Control(TimeWait, 0, 1), None)
  {
  }
}
