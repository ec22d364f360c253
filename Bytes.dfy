/** Machine words and byte-order helpers shared by every codec.
    The stack targets WinSock on x86, so the host is little-endian: htons/htonl
    swap bytes, and a memcpy of a stored uint16/uint32 writes its low byte first. */
module Bytes {

  type byte = x: int | 0 <= x < 0x100
  type uint16 = x: int | 0 <= x < 0x1_0000
  type uint32 = x: int | 0 <= x < 0x1_0000_0000

  /** `n` zero bytes, as a zero-initialised std::vector or a memset. */
  function Zeros(n: nat): (z: seq<byte>)
    ensures |z| == n && forall i :: 0 <= i < n ==> z[i] == 0
  {
    seq(n, _ => 0)
  }

  // ---- explicit big-endian writes and reads (shifts and masks in the source) ----

  function BE16(v: uint16): seq<byte> { [v / 0x100, v % 0x100] }

  function BE32(v: uint32): seq<byte>
  {
    BE16(v / 0x1_0000) + BE16(v % 0x1_0000)
  }

  /** `(b[i] << 8) | b[i + 1]` */
  function ReadBE16(b: seq<byte>, i: nat): uint16
    requires i + 2 <= |b|
  {
    (b[i] as int) * 0x100 + b[i + 1]
  }

  /** `(b[i] << 24) | (b[i + 1] << 16) | (b[i + 2] << 8) | b[i + 3]` */
  function ReadBE32(b: seq<byte>, i: nat): uint32
    requires i + 4 <= |b|
  {
    ReadBE16(b, i) * 0x1_0000 + ReadBE16(b, i + 2)
  }

  // ---- raw memory images on the little-endian host (memcpy of a stored word) ----

  function LE16(v: uint16): seq<byte> { [v % 0x100, v / 0x100] }

  function LE32(v: uint32): seq<byte>
  {
    LE16(v % 0x1_0000) + LE16(v / 0x1_0000)
  }

  /** memcpy of two bytes into a uint16 */
  function ReadLE16(b: seq<byte>, i: nat): uint16
    requires i + 2 <= |b|
  {
    (b[i + 1] as int) * 0x100 + b[i]
  }

  /** memcpy of four bytes into a uint32 */
  function ReadLE32(b: seq<byte>, i: nat): uint32
    requires i + 4 <= |b|
  {
    ReadLE16(b, i + 2) * 0x1_0000 + ReadLE16(b, i)
  }

  /** htons / ntohs on the little-endian host */
  function Swap16(v: uint16): uint16 { ReadLE16(BE16(v), 0) }

  /** htonl / ntohl on the little-endian host */
  function Swap32(v: uint32): uint32 { ReadLE32(BE32(v), 0) }

  lemma BE16Read(v: uint16)
    ensures ReadBE16(BE16(v), 0) == v
  {
  }

  lemma BE32Read(v: uint32)
    ensures ReadBE32(BE32(v), 0) == v
  {
  }

  /** The four bytes of BE32 as shifts and masks write them. */
  lemma BE32Bytes(v: uint32)
    ensures BE32(v) == [v / 0x100_0000, (v / 0x1_0000) % 0x100, (v / 0x100) % 0x100, v % 0x100]
  {
    var hi, lo := v / 0x1_0000, v % 0x1_0000;
    assert v == hi * 0x1_0000 + lo;
    assert hi / 0x100 == v / 0x100_0000;
    assert v / 0x100 == hi * 0x100 + lo / 0x100;
    assert lo / 0x100 == (v / 0x100) % 0x100;
  }

  lemma LE32Read(v: uint32)
    ensures ReadLE32(LE32(v), 0) == v
  {
  }

  /** Storing htons(v) and copying it out puts v on the wire big-endian. */
  lemma StoredSwap16(v: uint16)
    ensures LE16(Swap16(v)) == BE16(v)
  {
  }

  lemma StoredSwap32(v: uint32)
    ensures LE32(Swap32(v)) == BE32(v)
  {
    Swap32Halves(v);
    StoredSwap16(v / 0x1_0000);
    StoredSwap16(v % 0x1_0000);
  }

  /** htonl swaps the two halves and byte-swaps each of them. */
  lemma Swap32Halves(v: uint32)
    ensures Swap32(v) / 0x1_0000 == Swap16(v % 0x1_0000)
    ensures Swap32(v) % 0x1_0000 == Swap16(v / 0x1_0000)
  {
    var b := BE32(v);
    assert b[..2] == BE16(v / 0x1_0000) && b[2..] == BE16(v % 0x1_0000);
    assert ReadLE16(b, 2) == Swap16(v % 0x1_0000);
    assert ReadLE16(b, 0) == Swap16(v / 0x1_0000);
  }

  /** ntohs of a uint16 copied out of memory is the big-endian read. */
  lemma NtohsOfMemory(b: seq<byte>, i: nat)
    requires i + 2 <= |b|
    ensures Swap16(ReadLE16(b, i)) == ReadBE16(b, i)
  {
  }

  lemma Swap16Involutive(v: uint16)
    ensures Swap16(Swap16(v)) == v
  {
  }

  lemma Swap32Involutive(v: uint32)
    ensures Swap32(Swap32(v)) == v
  {
    Swap32Halves(v);
    Swap32Halves(Swap32(v));
    Swap16Involutive(v / 0x1_0000);
    Swap16Involutive(v % 0x1_0000);
  }

  /** A memcpy to a uint32 and back recovers the four bytes. */
  lemma LE32OfRead(b: seq<byte>, i: nat)
    requires i + 4 <= |b|
    ensures LE32(ReadLE32(b, i)) == b[i..i + 4]
  {
  }

  /** Four bytes holding the memory image of v read back as v. */
  lemma ReadLE32At(b: seq<byte>, i: nat, v: uint32)
    requires i + 4 <= |b| && b[i..i + 4] == LE32(v)
    ensures ReadLE32(b, i) == v
  {
    LE32Read(v);
    assert ReadLE32(b, i) == ReadLE32(b[i..i + 4], 0);
  }

  /** The big-endian image of a word copied out of memory lists the four
      bytes in reverse. */
  lemma BE32OfReadLE(b: seq<byte>, i: nat)
    requires i + 4 <= |b|
    ensures BE32(ReadLE32(b, i)) == [b[i + 3], b[i + 2], b[i + 1], b[i]]
  {
    var hi: int, lo: int := ReadLE16(b, i + 2), ReadLE16(b, i);
    var v := ReadLE32(b, i);
    assert v == hi * 0x1_0000 + lo;
    assert v / 0x1_0000 == hi && v % 0x1_0000 == lo;
    assert BE16(hi) == [b[i + 3], b[i + 2]];
    assert BE16(lo) == [b[i + 1], b[i]];
  }

  // ---- writing into a buffer ----

  /** `memcpy(buf + off, src, |src|)`: overwrites `|src|` bytes at `off`. */
  method Memcpy(buf: array<byte>, off: nat, src: seq<byte>)
    requires off + |src| <= buf.Length
    modifies buf
    ensures buf[..] == old(buf[..])[..off] + src + old(buf[..])[off + |src|..]
  {
    var i := 0;
    while i < |src|
      invariant 0 <= i <= |src|
      invariant forall k :: 0 <= k < buf.Length ==>
        buf[k] == if off <= k < off + i then src[k - off] else old(buf[k])
    {
      buf[off + i] := src[i];
      i := i + 1;
    }
    assert buf[..] == old(buf[..])[..off] + src + old(buf[..])[off + |src|..];
  }

  /** After a copy of `src` at `off` into a buffer whose first `off` bytes
      already agree with `want`, the first `off + |src|` bytes agree with
      `want` whenever `src` is the next piece of it. */
  lemma CopyExtends(before: seq<byte>, after: seq<byte>, off: nat, src: seq<byte>, want: seq<byte>)
    requires off + |src| <= |before| && off + |src| <= |want|
    requires after == before[..off] + src + before[off + |src|..]
    requires before[..off] == want[..off] && want[off..off + |src|] == src
    ensures after[..off + |src|] == want[..off + |src|]
  {
    assert after[..off + |src|] == before[..off] + src;
    assert want[..off + |src|] == want[..off] + want[off..off + |src|];
  }

  /** The same for a single byte stored at `off`. */
  lemma StoreExtends(before: seq<byte>, after: seq<byte>, off: nat, v: byte, want: seq<byte>)
    requires off < |before| && off < |want|
    requires after == before[off := v]
    requires before[..off] == want[..off] && want[off] == v
    ensures after[..off + 1] == want[..off + 1]
  {
    assert after[..off + 1] == before[..off] + [v];
    assert want[..off + 1] == want[..off] + [want[off]];
  }

  /** A memcpy of the piece of `want` that starts at `off`, into a buffer
      that already agrees with `want` before `off`. */
  method CopyInto(buf: array<byte>, off: nat, src: seq<byte>, ghost want: seq<byte>)
    requires off + |src| <= buf.Length && off + |src| <= |want|
    requires buf[..off] == want[..off] && want[off..off + |src|] == src
    modifies buf
    ensures buf[..off + |src|] == want[..off + |src|]
  {
    ghost var before := buf[..];
    Memcpy(buf, off, src);
    CopyExtends(before, buf[..], off, src, want);
  }

  /** A single byte store of the byte of `want` at `off`. */
  method StoreInto(buf: array<byte>, off: nat, v: byte, ghost want: seq<byte>)
    requires off < buf.Length && off < |want|
    requires buf[..off] == want[..off] && want[off] == v
    modifies buf
    ensures buf[..off + 1] == want[..off + 1]
  {
    ghost var before := buf[..];
    buf[off] := v;
    StoreExtends(before, buf[..], off, v, want);
  }

  // ---- bit operations on bytes, written arithmetically ----

  /** Bitwise AND of two naturals. */
  function And(a: nat, b: nat): (r: nat)
    ensures r <= a && r <= b
    decreases a
  {
    if a == 0 || b == 0 then 0 else 2 * And(a / 2, b / 2) + (a % 2) * (b % 2)
  }

  function Pow2(k: nat): (r: nat)
    ensures r >= 1
  {
    if k == 0 then 1 else 2 * Pow2(k - 1)
  }

  /** Bit k of a: `(a >> k) & 1`. */
  function Bit(a: nat, k: nat): (r: nat)
    ensures r <= 1 && (a == 0 ==> r == 0)
  {
    if k == 0 then a % 2 else Bit(a / 2, k - 1)
  }

  lemma Halve(p: nat)
    ensures (2 * p) % 2 == 0 && (2 * p) / 2 == p
  {
  }

  /** Masking with an even number drops the low bit of a. */
  lemma AndEven(a: nat, p: nat)
    requires a != 0 && p != 0
    ensures And(a, 2 * p) == 2 * And(a / 2, p)
  {
    Halve(p);
    var q := 2 * p;
    assert And(a, q) == 2 * And(a / 2, q / 2) + (a % 2) * (q % 2);
  }

  /** Masking with a single bit keeps exactly that bit:
      `(a & (1 << k)) != 0` holds iff bit k of a is set. */
  lemma {:induction false} AndPow2(a: nat, k: nat)
    ensures And(a, Pow2(k)) == if Bit(a, k) == 1 then Pow2(k) else 0
  {
    if k == 0 {
      if a != 0 {
        assert And(a / 2, 0) == 0;
      }
    } else if a != 0 {
      AndPow2(a / 2, k - 1);
      AndEven(a, Pow2(k - 1));
    }
  }

  /** `b ^ 0x02`: toggles bit 1 and keeps every other bit. */
  function FlipBit1(b: byte): (r: byte)
    ensures r / 4 == b / 4 && r % 2 == b % 2 && (r / 2) % 2 != (b / 2) % 2
  {
    if (b / 2) % 2 == 1 then b - 2 else b + 2
  }
}
