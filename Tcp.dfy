/** TCP segments (include/TCP.h): a fixed 20-byte header without options,
    RFC 793 section 3.1. As for IPv4, the fields hold the stored values,
    i.e. what htons/htonl produced on the little-endian host. */
module Tcp {
  import opened Bytes
  import opened Checksum

  datatype TCPSegment = TCPSegment(
    srcPort: uint16,
    destPort: uint16,
    seqNum: uint32,
    ackNum: uint32,
    dataOffsetResFlags: byte,
    flags: byte,
    windowSize: uint16,
    checksum: uint16,
    urgentPointer: uint16,
    payload: seq<byte>)

  const FIN: byte := 0x01
  const SYN: byte := 0x02
  const RST: byte := 0x04
  const PSH: byte := 0x08
  const ACK: byte := 0x10
  const URG: byte := 0x20
  const ECE: byte := 0x40
  const CWR: byte := 0x80

  /** Data offset 5 (20 bytes) in the high nibble. */
  const DataOffset: byte := 0x50
  const Window: uint16 := 8192

  /** The 20 header bytes as `serialize` copies the stored fields out; the
      object's memory starts with the same 20 bytes. */
  function HeaderBytes(s: TCPSegment): (h: seq<byte>)
    ensures |h| == 20
  {
    LE16(s.srcPort) + LE16(s.destPort) + LE32(s.seqNum) + LE32(s.ackNum)
    + [s.dataOffsetResFlags, s.flags] + LE16(s.windowSize) + LE16(s.checksum)
    + LE16(s.urgentPointer)
  }

  function SegmentBytes(s: TCPSegment): seq<byte>
  {
    HeaderBytes(s) + s.payload
  }

  /** Each word passed through ntohs: on the little-endian host the payload's
      big-endian words enter the checksum byte-swapped. */
  function Swapped(ws: seq<uint16>): (r: seq<uint16>)
    ensures |r| == |ws| && forall k :: 0 <= k < |ws| ==> r[k] == Swap16(ws[k])
  {
    seq(|ws|, k requires 0 <= k < |ws| => Swap16(ws[k]))
  }

  /** The 32-bit sum `calculate_checksum` accumulates: the ten header words
      read from memory and converted with ntohs, then every payload word
      (an odd last byte padded with zero) converted with ntohs again. */
  function ChecksumSum(s: TCPSegment): uint32
  {
    (Sum(Words(HeaderBytes(s))) + Sum(Swapped(Words(s.payload)))) % 0x1_0000_0000
  }

  /** The stored checksum: two folds, complement, htons. */
  function SegmentChecksum(s: TCPSegment): uint16
  {
    Swap16(Complement16(TwoStepFold(ChecksumSum(s))))
  }

  lemma SumSnoc(ws: seq<uint16>, w: uint16)
    ensures Sum(ws + [w]) == Sum(ws) + w
  {
    assert (ws + [w])[..|ws|] == ws;
  }

  /** Adding w to a 32-bit sum of a gives the 32-bit sum of a + w. */
  lemma AddMod(sum: nat, a: nat, w: nat, b: nat)
    requires sum == a % 0x1_0000_0000 && b == a + w
    ensures (sum + w) % 0x1_0000_0000 == b % 0x1_0000_0000
  {
    var q := a / 0x1_0000_0000;
    assert a == q * 0x1_0000_0000 + sum;
  }

  /** The payload sum after the loop has reached index i (capped at |p|). */
  function PayloadSum(p: seq<byte>, i: nat): nat
  {
    Sum(Swapped(Words(p[..if i <= |p| then i else |p|])))
  }

  /** One more payload word, as the payload loop takes it at even index i. */
  lemma PayloadStep(p: seq<byte>, i: nat, word: uint16)
    requires i % 2 == 0 && i < |p|
    requires word == if i + 1 < |p| then ReadBE16(p, i) else (p[i] as int) * 0x100
    ensures PayloadSum(p, i + 2) == PayloadSum(p, i) + Swap16(word)
  {
    var j := if i + 2 <= |p| then i + 2 else |p|;
    var q := p[..j];
    assert q[..i] == p[..i];
    assert Words(q) == Words(p[..i]) + [word];
    assert Swapped(Words(q)) == Swapped(Words(p[..i])) + [Swap16(word)];
    SumSnoc(Swapped(Words(p[..i])), Swap16(word));
  }

  lemma PayloadSumDone(p: seq<byte>, i: nat)
    requires i >= |p|
    ensures PayloadSum(p, i) == Sum(Swapped(Words(p)))
  {
    assert p[..|p|] == p;
  }

  /** The word the payload loop reads at index i. */
  function WordAt(p: seq<byte>, i: nat): uint16
    requires i < |p|
  {
    if i + 1 < |p| then ReadBE16(p, i) else (p[i] as int) * 0x100
  }

  /** The words the payload loop has added, each through ntohs, before
      index i, in the loop's own order. */
  function Taken(p: seq<byte>, i: nat): nat
  {
    if i < 2 then 0 else Taken(p, i - 2) + (if i - 2 < |p| then Swap16(WordAt(p, i - 2)) else 0)
  }

  lemma {:induction false} TakenIsPayloadSum(p: seq<byte>, i: nat)
    requires i % 2 == 0 && i <= |p| + 1
    ensures Taken(p, i) == PayloadSum(p, i)
  {
    if i == 0 {
      assert p[..0] == [];
    } else {
      TakenIsPayloadSum(p, i - 2);
      PayloadStep(p, i - 2, WordAt(p, i - 2));
    }
  }

  /** The payload loop of `calculate_checksum`: big-endian words (an odd
      last byte shifted into the high half), each added after ntohs, with
      32-bit wrap-around. */
  method SumPayloadWords(p: seq<byte>, sum0: uint32) returns (sum: uint32)
    ensures sum == (sum0 + Sum(Swapped(Words(p)))) % 0x1_0000_0000
  {
    sum := sum0;
    var i := 0;
    ghost var acc: nat := 0;
    while i < |p|
      invariant i % 2 == 0 && i <= |p| + 1
      invariant acc == Taken(p, i)
      invariant sum == (sum0 + acc) % 0x1_0000_0000
      decreases |p| - i
    {
      var word: uint16 := (p[i] as int) * 0x100;
      if i + 1 < |p| {
        word := word + p[i + 1];
      }
      AddMod(sum, sum0 + acc, Swap16(word), sum0 + (acc + Swap16(word)));
      sum := (sum + Swap16(word)) % 0x1_0000_0000;
      acc := acc + Swap16(word);
      i := i + 2;
    }
    assert acc == Sum(Swapped(Words(p))) by {
      TakenIsPayloadSum(p, i);
      PayloadSumDone(p, i);
    }
  }

  /** `calculate_checksum`, loop for loop. */
  method CalculateChecksum(s: TCPSegment) returns (checksum: uint16)
    ensures checksum == SegmentChecksum(s)
  {
    var sum := SumMemoryWords(HeaderBytes(s), 10);
    sum := SumPayloadWords(s.payload, sum);
    ghost var total := sum;
    assert total == ChecksumSum(s);
    sum := sum % 0x1_0000 + sum / 0x1_0000;
    sum := sum + sum / 0x1_0000;
    assert sum == TwoStepFold(total);
    checksum := Swap16(Complement16(sum));
  }

  /** The fields the constructor's initialiser list sets, checksum still 0. */
  function Unchecked(sp: uint16, dp: uint16, sq: uint32, ak: uint32, p: seq<byte>, f: byte): TCPSegment
  {
    TCPSegment(Swap16(sp), Swap16(dp), Swap32(sq), Swap32(ak), DataOffset, f, Swap16(Window), 0, 0, p)
  }

  /** The segment the constructor `TCPSegment(sp, dp, seq, ack, p, f)` builds. */
  function Make(sp: uint16, dp: uint16, sq: uint32, ak: uint32, p: seq<byte>, f: byte): TCPSegment
  {
    var u := Unchecked(sp, dp, sq, ak, p, f);
    u.(checksum := SegmentChecksum(u))
  }

  method NewSegment(sp: uint16, dp: uint16, sq: uint32, ak: uint32, p: seq<byte>, f: byte)
    returns (segment: TCPSegment)
    ensures segment == Make(sp, dp, sq, ak, p, f)
  {
    segment := Unchecked(sp, dp, sq, ak, p, f);
    var c := CalculateChecksum(segment);
    segment := segment.(checksum := c);
  }

  /** Where each field sits in the serialised segment. */
  lemma SegmentPieces(s: TCPSegment)
    ensures var w := SegmentBytes(s);
      && |w| == 20 + |s.payload|
      && w[0..2] == LE16(s.srcPort) && w[2..4] == LE16(s.destPort)
      && w[4..8] == LE32(s.seqNum) && w[8..12] == LE32(s.ackNum)
      && w[12] == s.dataOffsetResFlags && w[13] == s.flags
      && w[14..16] == LE16(s.windowSize) && w[16..18] == LE16(s.checksum)
      && w[18..20] == LE16(s.urgentPointer) && w[20..20 + |s.payload|] == s.payload
  {
  }

  method Serialize(s: TCPSegment) returns (buffer: seq<byte>)
    ensures buffer == SegmentBytes(s)
  {
    ghost var want := SegmentBytes(s);
    SegmentPieces(s);
    var buf := new byte[20 + |s.payload|];
    CopyInto(buf, 0, LE16(s.srcPort), want);
    CopyInto(buf, 2, LE16(s.destPort), want);
    CopyInto(buf, 4, LE32(s.seqNum), want);
    CopyInto(buf, 8, LE32(s.ackNum), want);
    StoreInto(buf, 12, s.dataOffsetResFlags, want);
    StoreInto(buf, 13, s.flags, want);
    CopyInto(buf, 14, LE16(s.windowSize), want);
    CopyInto(buf, 16, LE16(s.checksum), want);
    CopyInto(buf, 18, LE16(s.urgentPointer), want);
    CopyInto(buf, 20, s.payload, want);
    buffer := buf[..];
    assert buffer == buffer[..20 + |s.payload|];
  }

  /** `deserialize` indexes bytes 0-19 unchecked, so the input must hold at
      least 20 bytes. Only the ports, numbers, flags and payload reach the
      constructor; the rest is rebuilt. On the little-endian host the
      ntohs/ntohl of the big-endian reads and the constructor's htons/htonl
      cancel: the stored ports and numbers are the reads themselves, where
      the stored value of a correct decoder would be their byte swap. */
  function Deserialize(data: seq<byte>): (s: TCPSegment)
    requires |data| >= 20
    ensures s.srcPort == ReadBE16(data, 0) && s.destPort == ReadBE16(data, 2)
    ensures s.seqNum == ReadBE32(data, 4) && s.ackNum == ReadBE32(data, 8)
    ensures s.flags == data[13] && s.payload == data[20..]
  {
    Swap16Involutive(ReadBE16(data, 0));
    Swap16Involutive(ReadBE16(data, 2));
    Swap32Involutive(ReadBE32(data, 4));
    Swap32Involutive(ReadBE32(data, 8));
    Make(Swap16(ReadBE16(data, 0)), Swap16(ReadBE16(data, 2)),
         Swap32(ReadBE32(data, 4)), Swap32(ReadBE32(data, 8)), data[20..], data[13])
  }

  /** The header `create_tcp_header` describes: every field big-endian,
      checksum and urgent field zero. */
  function WireHeader(sp: uint16, dp: uint16, sq: uint32, ak: uint32, f: byte, w: uint16): (h: seq<byte>)
    ensures |h| == 20
  {
    BE16(sp) + BE16(dp) + BE32(sq) + BE32(ak) + [DataOffset, f] + BE16(w) + Zeros(4)
  }

  /** `buf[off] = v >> 8; buf[off + 1] = v & 0xFF;` */
  method PutBE16(buf: array<byte>, off: nat, v: uint16)
    requires off + 2 <= buf.Length
    modifies buf
    ensures buf[..] == old(buf[..])[..off] + BE16(v) + old(buf[..])[off + 2..]
  {
    buf[off] := v / 0x100;
    buf[off + 1] := v % 0x100;
    assert buf[..] == old(buf[..])[..off] + BE16(v) + old(buf[..])[off + 2..];
  }

  /** The four shift-and-mask stores of a 32-bit field, high byte first. */
  method PutBE32(buf: array<byte>, off: nat, v: uint32)
    requires off + 4 <= buf.Length
    modifies buf
    ensures buf[..] == old(buf[..])[..off] + BE32(v) + old(buf[..])[off + 4..]
  {
    BE32Bytes(v);
    buf[off] := v / 0x100_0000;
    buf[off + 1] := (v / 0x1_0000) % 0x100;
    buf[off + 2] := (v / 0x100) % 0x100;
    buf[off + 3] := v % 0x100;
    assert buf[..] == old(buf[..])[..off] + BE32(v) + old(buf[..])[off + 4..];
  }

  /** `create_tcp_header`: shifts and masks into a zeroed 20-byte vector. */
  method CreateTcpHeader(sp: uint16, dp: uint16, sq: uint32, ak: uint32, f: byte, w: uint16)
    returns (header: seq<byte>)
    ensures header == WireHeader(sp, dp, sq, ak, f, w)
  {
    ghost var want := WireHeader(sp, dp, sq, ak, f, w);
    var hd := new byte[20](_ => 0);
    PutBE16(hd, 0, sp);
    PutBE16(hd, 2, dp);
    assert hd[..4] == want[..4];
    PutBE32(hd, 4, sq);
    assert hd[..8] == want[..8];
    PutBE32(hd, 8, ak);
    assert hd[..12] == want[..12];
    hd[12] := DataOffset;
    hd[13] := f;
    assert hd[..14] == want[..14];
    PutBE16(hd, 14, w);
    assert hd[..16] == want[..16];
    PutBE16(hd, 16, 0);
    assert hd[..18] == want[..18];
    PutBE16(hd, 18, 0);
    assert hd[..20] == want[..20];
    header := hd[..];
    assert header == hd[..20];
  }

  // ---------------------------------------------------------------------
  // Properties

  /** What `serialize` puts on the wire for a constructed segment. */
  lemma MakeLayout(sp: uint16, dp: uint16, sq: uint32, ak: uint32, p: seq<byte>, f: byte)
    ensures var b := SegmentBytes(Make(sp, dp, sq, ak, p, f));
      && |b| == 20 + |p|
      && ReadBE16(b, 0) == sp && ReadBE16(b, 2) == dp
      && ReadBE32(b, 4) == sq && ReadBE32(b, 8) == ak
      && b[12] == DataOffset && b[13] == f
      && ReadBE16(b, 14) == Window && ReadBE16(b, 18) == 0
      && b[20..] == p
  {
    var b := SegmentBytes(Make(sp, dp, sq, ak, p, f));
    StoredSwap16(sp);
    StoredSwap16(dp);
    StoredSwap16(Window);
    StoredSwap32(sq);
    StoredSwap32(ak);
    assert b[0..2] == BE16(sp) && b[2..4] == BE16(dp) && b[14..16] == BE16(Window);
    assert b[4..8] == BE32(sq) && b[8..12] == BE32(ak);
    BE32Read(sq);
    BE32Read(ak);
    assert ReadBE32(b, 4) == ReadBE32(b[4..8], 0);
    assert ReadBE32(b, 8) == ReadBE32(b[8..12], 0);
  }

  /** Storing the checksum folded from a 32-bit sum `total` into a header
      whose checksum is zero changes only bytes 16-17, which then hold
      0xFFFF - Fold16(total) big-endian. */
  lemma ChecksumField(u: TCPSegment, total: uint32)
    requires u.checksum == 0
    ensures var h0, h := HeaderBytes(u), HeaderBytes(u.(checksum := Swap16(Complement16(TwoStepFold(total)))));
      && (forall i :: 0 <= i < 20 && i != 16 && i != 17 ==> h0[i] == h[i])
      && h0[16] == 0 && h0[17] == 0
      && ReadBE16(h, 16) == 0xFFFF - Fold16(total)
  {
    var c := Complement16(TwoStepFold(total));
    TwoStepFoldCorrect(total);
    StoredSwap16(c);
    var h := HeaderBytes(u.(checksum := Swap16(c)));
    assert h[16..18] == BE16(c);
  }

  /** With an empty payload the checksum is the RFC 1071 header checksum:
      the ten serialised header words add up to 0xFFFF. */
  lemma EmptyPayloadChecksumVerifies(u: TCPSegment)
    requires u.checksum == 0 && u.payload == []
    ensures OnesSum(Words(SegmentBytes(u.(checksum := SegmentChecksum(u))))) == 0xFFFF
  {
    var h0 := HeaderBytes(u);
    var q := u.(checksum := SegmentChecksum(u));
    assert Swapped(Words([])) == [];
    assert ChecksumSum(u) == Sum(Words(h0));
    ChecksumField(u, ChecksumSum(u));
    ChecksumFieldVerifies(h0, HeaderBytes(q), 8);
    assert SegmentBytes(q) == HeaderBytes(q);
  }

  /** Every segment the connection sends (empty payload) verifies. */
  lemma MakeEmptyChecksumVerifies(sp: uint16, dp: uint16, sq: uint32, ak: uint32, f: byte)
    ensures OnesSum(Words(SegmentBytes(Make(sp, dp, sq, ak, [], f)))) == 0xFFFF
  {
    EmptyPayloadChecksumVerifies(Unchecked(sp, dp, sq, ak, [], f));
  }

  /** With header sum t, the source stores 0xFFFF - Fold16(t + x) for a
      one-byte payload x, while a receiver adds x * 0x100: the total is
      congruent to 255 * x modulo 0xFFFF and so never folds to 0xFFFF. */
  lemma OneByteArith(t: nat, x: byte)
    requires x != 0
    ensures Fold16(t + (0xFFFF - Fold16(t + x)) + x * 0x100) != 0xFFFF
  {
    var sb := t + (0xFFFF - Fold16(t + x)) + x * 0x100;
    assert (sb - 255 * x) % M == 0;
    assert sb % M == 255 * x;
  }

  lemma SwapHighByte(x: byte)
    ensures Swap16(x * 0x100) == x
  {
    var v: int := x * 0x100;
    assert v / 0x100 == x && v % 0x100 == 0;
    assert BE16(v) == [x, 0];
  }

  /** The sender's sum for a one-byte payload x adds x itself. */
  lemma OneByteSenderSum(u: TCPSegment, x: byte)
    requires u.payload == [x]
    ensures ChecksumSum(u) == Sum(Words(HeaderBytes(u))) + x
  {
    assert Words([x]) == [x * 0x100];
    SwapHighByte(x);
    assert Swapped([x * 0x100]) == [x];
    assert Sum([x]) == x by { SumSnoc([], x); }
  }

  /** A receiver's sum over the wire bytes adds the byte as x * 0x100. */
  lemma OneByteReceiverSum(q: TCPSegment, x: byte)
    requires q.payload == [x]
    ensures Sum(Words(SegmentBytes(q))) == Sum(Words(HeaderBytes(q))) + x * 0x100
  {
    var b := SegmentBytes(q);
    assert b[..20] == HeaderBytes(q) && b[20] == x;
    assert Words(b) == Words(b[..20]) + [(b[20] as int) * 0x100];
    SumSnoc(Words(HeaderBytes(q)), x * 0x100);
  }

  /** A one-byte payload x enters the sum as x (byte-swapped) but a receiver
      adds it as x * 0x100, so the segment fails verification for every
      x in 1..255: the payload words are summed in the wrong byte order. */
  lemma OneBytePayloadChecksumFails(u: TCPSegment, x: byte)
    requires u.checksum == 0 && u.payload == [x] && x != 0
    ensures OnesSum(Words(SegmentBytes(u.(checksum := SegmentChecksum(u))))) != 0xFFFF
  {
    var h0 := HeaderBytes(u);
    var q := u.(checksum := SegmentChecksum(u));
    var t := Sum(Words(h0));
    OneByteSenderSum(u, x);
    ChecksumField(u, ChecksumSum(u));
    SpliceSum(h0, HeaderBytes(q), 8);
    OneByteReceiverSum(q, x);
    OnesSumIsFold(Words(SegmentBytes(q)));
    OneByteArith(t, x);
  }

  /** So a constructed segment with a non-zero one-byte payload fails. */
  lemma MakeOneByteChecksumFails(sp: uint16, dp: uint16, sq: uint32, ak: uint32, x: byte, f: byte)
    requires x != 0
    ensures OnesSum(Words(SegmentBytes(Make(sp, dp, sq, ak, [x], f)))) != 0xFFFF
  {
    OneBytePayloadChecksumFails(Unchecked(sp, dp, sq, ak, [x], f), x);
  }

  // Corrected checksum: the payload words enter the sum as they stand,
  // big-endian, the way a receiver adds them.

  function ChecksumSumCorrected(s: TCPSegment): uint32
  {
    (Sum(Words(HeaderBytes(s))) + Sum(Words(s.payload))) % 0x1_0000_0000
  }

  function MakeCorrected(sp: uint16, dp: uint16, sq: uint32, ak: uint32, p: seq<byte>, f: byte): TCPSegment
  {
    var u := Unchecked(sp, dp, sq, ak, p, f);
    u.(checksum := Swap16(Complement16(TwoStepFold(ChecksumSumCorrected(u)))))
  }

  lemma WordsOddStep(x: seq<byte>)
    requires |x| % 2 == 1
    ensures Words(x) == Words(x[..|x| - 1]) + [(x[|x| - 1] as int) * 0x100]
  {
  }

  lemma WordsEvenStep(x: seq<byte>)
    requires |x| % 2 == 0 && |x| > 0
    ensures Words(x) == Words(x[..|x| - 2]) + [ReadBE16(x, |x| - 2)]
  {
  }

  lemma Assoc<T>(x: seq<T>, y: seq<T>, z: seq<T>)
    ensures (x + y) + z == x + (y + z)
  {
  }

  /** Where the last k bytes and the rest of a + b come from. */
  lemma AppendInit(a: seq<byte>, b: seq<byte>, k: nat)
    requires |a| % 2 == 0 && 0 < k <= |b|
    ensures |a + b| % 2 == |b| % 2
    ensures (a + b)[..|a + b| - k] == a + b[..|b| - k]
    ensures (a + b)[|a + b| - 1] == b[|b| - 1]
    ensures (a + b)[|a + b| - k] == b[|b| - k]
    ensures k == 2 ==> ReadBE16(a + b, |a + b| - 2) == ReadBE16(b, |b| - 2)
  {
    assert |a| == 2 * (|a| / 2);
  }

  lemma WordsAppendOdd(a: seq<byte>, b: seq<byte>)
    requires |a| % 2 == 0 && |b| % 2 == 1
    requires Words(a + b[..|b| - 1]) == Words(a) + Words(b[..|b| - 1])
    ensures Words(a + b) == Words(a) + Words(b)
  {
    AppendInit(a, b, 1);
    WordsOddStep(a + b);
    WordsOddStep(b);
    Assoc(Words(a), Words(b[..|b| - 1]), [(b[|b| - 1] as int) * 0x100]);
  }

  lemma WordsAppendEven(a: seq<byte>, b: seq<byte>)
    requires |a| % 2 == 0 && |b| % 2 == 0 && |b| > 0
    requires Words(a + b[..|b| - 2]) == Words(a) + Words(b[..|b| - 2])
    ensures Words(a + b) == Words(a) + Words(b)
  {
    AppendInit(a, b, 2);
    WordsEvenStep(a + b);
    WordsEvenStep(b);
    Assoc(Words(a), Words(b[..|b| - 2]), [ReadBE16(b, |b| - 2)]);
  }

  /** An even-length prefix keeps its words: the words of a + b are those
      of a followed by those of b. */
  lemma {:induction false} WordsAppend(a: seq<byte>, b: seq<byte>)
    requires |a| % 2 == 0
    ensures Words(a + b) == Words(a) + Words(b)
    decreases |b|
  {
    if |b| == 0 {
      assert a + b == a;
    } else {
      if |b| % 2 == 1 {
        WordsAppend(a, b[..|b| - 1]);
        WordsAppendOdd(a, b);
      } else {
        WordsAppend(a, b[..|b| - 2]);
        WordsAppendEven(a, b);
      }
    }
  }

  lemma {:induction false} SumAppend(a: seq<uint16>, b: seq<uint16>)
    ensures Sum(a + b) == Sum(a) + Sum(b)
    decreases |b|
  {
    var ab := a + b;
    if b == [] {
      assert ab == a;
    } else {
      var b' := b[..|b| - 1];
      assert ab[..|ab| - 1] == a + b';
      assert ab[|ab| - 1] == b[|b| - 1];
      SumAppend(a, b');
    }
  }

  lemma SumBound(ws: seq<uint16>, n: nat)
    requires |ws| <= n
    ensures Sum(ws) <= n * 0xFFFF
  {
  }

  /** Storing the checksum folded from `total` adds 0xFFFF - Fold16(total)
      to the header's word sum. */
  lemma StoredChecksumSum(u: TCPSegment, total: uint32)
    requires u.checksum == 0
    ensures Sum(Words(HeaderBytes(u.(checksum := Swap16(Complement16(TwoStepFold(total)))))))
         == Sum(Words(HeaderBytes(u))) + (0xFFFF - Fold16(total))
  {
    var h0, h := HeaderBytes(u), HeaderBytes(u.(checksum := Swap16(Complement16(TwoStepFold(total)))));
    ChecksumField(u, total);
    SpliceSum(h0, h, 8);
    assert ReadBE16(h0, 16) == 0;
  }

  /** With the corrected sum every segment whose payload fits an IPv4
      packet verifies (RFC 1071): its header and payload words add up to
      0xFFFF with end-around carry. */
  lemma CorrectedChecksumVerifies(sp: uint16, dp: uint16, sq: uint32, ak: uint32, p: seq<byte>, f: byte)
    requires |p| <= 0xFFFF
    ensures OnesSum(Words(SegmentBytes(MakeCorrected(sp, dp, sq, ak, p, f)))) == 0xFFFF
  {
    var u := Unchecked(sp, dp, sq, ak, p, f);
    var total := Sum(Words(HeaderBytes(u))) + Sum(Words(p));
    SumBound(Words(HeaderBytes(u)), 10);
    SumBound(Words(p), 0x8000);
    assert ChecksumSumCorrected(u) == total;
    var q := MakeCorrected(sp, dp, sq, ak, p, f);
    StoredChecksumSum(u, total);
    var h := HeaderBytes(q);
    WordsAppend(h, p);
    SumAppend(Words(h), Words(p));
    ComplementVerifies(total, Sum(Words(SegmentBytes(q))));
    OnesSumIsFold(Words(SegmentBytes(q)));
  }

  /** The correction changes nothing for the segments the connection sends,
      whose payload is empty. */
  lemma CorrectedAgreesOnEmpty(sp: uint16, dp: uint16, sq: uint32, ak: uint32, f: byte)
    ensures MakeCorrected(sp, dp, sq, ak, [], f) == Make(sp, dp, sq, ak, [], f)
  {
    assert Swapped(Words([])) == [];
  }

  /** Reading `create_tcp_header` output with the reads of `deserialize`
      recovers every field it was given. */
  lemma CreateTcpHeaderReadBack(sp: uint16, dp: uint16, sq: uint32, ak: uint32, f: byte, w: uint16)
    ensures var h := WireHeader(sp, dp, sq, ak, f, w);
      && ReadBE16(h, 0) == sp && ReadBE16(h, 2) == dp
      && ReadBE32(h, 4) == sq && ReadBE32(h, 8) == ak
      && h[12] == DataOffset && h[13] == f && ReadBE16(h, 14) == w
      && h[16..20] == [0, 0, 0, 0]
  {
    var h := WireHeader(sp, dp, sq, ak, f, w);
    assert h[4..8] == BE32(sq) && h[8..12] == BE32(ak);
    BE32Read(sq);
    BE32Read(ak);
    assert ReadBE32(h, 4) == ReadBE32(h[4..8], 0);
    assert ReadBE32(h, 8) == ReadBE32(h[8..12], 0);
  }

  /** Apart from the checksum, `create_tcp_header` with window 8192 writes
      the same bytes as serialising a constructed segment. */
  lemma CreateTcpHeaderMatchesSerialize(sp: uint16, dp: uint16, sq: uint32, ak: uint32, f: byte)
    ensures var h := WireHeader(sp, dp, sq, ak, f, Window);
      var b := SegmentBytes(Make(sp, dp, sq, ak, [], f));
      h[..16] == b[..16] && h[18..20] == b[18..20]
  {
    StoredSwap16(sp);
    StoredSwap16(dp);
    StoredSwap16(Window);
    StoredSwap32(sq);
    StoredSwap32(ak);
  }

  /** `deserialize` depends only on bytes 0-11, the flags byte and the
      payload: the data offset, window, checksum and urgent field of its
      input are discarded. */
  lemma DeserializeDiscards(a: seq<byte>, b: seq<byte>)
    requires |a| >= 20 && |b| >= 20
    requires a[..12] == b[..12] && a[13] == b[13] && a[20..] == b[20..]
    ensures Deserialize(a) == Deserialize(b)
  {
    forall k | 0 <= k < 12
      ensures a[k] == b[k]
    {
      assert a[k] == a[..12][k] && b[k] == b[..12][k];
    }
    assert ReadBE16(a, 0) == ReadBE16(b, 0) && ReadBE16(a, 2) == ReadBE16(b, 2);
    assert ReadBE32(a, 4) == ReadBE32(b, 4) && ReadBE32(a, 8) == ReadBE32(b, 8);
  }

  /** The decoded segment keeps flags and payload and has the constructor's
      data offset, window and urgent field, whatever the input carried. */
  lemma DeserializeRebuilds(data: seq<byte>)
    requires |data| >= 20
    ensures var s := Deserialize(data);
      && s.flags == data[13] && s.payload == data[20..]
      && s.dataOffsetResFlags == DataOffset && s.windowSize == Swap16(Window)
      && s.urgentPointer == 0
  {
  }

  // ---------------------------------------------------------------------
  // Finding: as in IPv4, `deserialize` converts its big-endian reads with
  // ntohs/ntohl and the constructor converts them again with htons/htonl,
  // so on the little-endian host ports and numbers come back byte-swapped.

  /** As written: decoding a serialised segment swaps both ports and both
      sequence numbers. */
  lemma DeserializeSwapsFields(sp: uint16, dp: uint16, sq: uint32, ak: uint32, p: seq<byte>, f: byte)
    ensures Deserialize(SegmentBytes(Make(sp, dp, sq, ak, p, f)))
         == Make(Swap16(sp), Swap16(dp), Swap32(sq), Swap32(ak), p, f)
  {
    MakeLayout(sp, dp, sq, ak, p, f);
  }

  /** A concrete witness: source port 12345 (0x3039) decodes as 0x3930. */
  lemma DeserializeRoundTripFails()
    ensures Deserialize(SegmentBytes(Make(12345, 80, 0, 0, [], SYN))).srcPort
         != Make(12345, 80, 0, 0, [], SYN).srcPort
  {
    var sp: uint16 := 12345;
    DeserializeSwapsFields(sp, 80, 0, 0, [], SYN);
    Swap16Involutive(sp);
    assert BE16(sp) == [0x30, 0x39];
    assert Swap16(sp) == 0x3930;
  }

  /** Corrected decoder: the big-endian reads go straight to the constructor. */
  function DeserializeCorrected(data: seq<byte>): TCPSegment
    requires |data| >= 20
  {
    Make(ReadBE16(data, 0), ReadBE16(data, 2), ReadBE32(data, 4), ReadBE32(data, 8), data[20..], data[13])
  }

  lemma DeserializeCorrectedRoundTrip(sp: uint16, dp: uint16, sq: uint32, ak: uint32, p: seq<byte>, f: byte)
    ensures DeserializeCorrected(SegmentBytes(Make(sp, dp, sq, ak, p, f))) == Make(sp, dp, sq, ak, p, f)
  {
    MakeLayout(sp, dp, sq, ak, p, f);
  }
}
