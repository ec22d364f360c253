/** The Internet checksum of RFC 1071: big-endian 16-bit words added with
    end-around carry, then complemented.  `OnesSum` is the reference
    definition (one end-around-carry addition per word, in order); the
    sources fold a plain sum instead, and the lemmas here show that both
    agree and that a complemented sum verifies to 0xFFFF. */
module Checksum {
  import opened Bytes

  /** 0xFFFF: adding it in one's complement changes nothing. */
  const M: int := 0xFFFF

  /** The big-endian 16-bit words of `b`; an odd trailing byte is the high
      byte of a last word whose low byte is zero. */
  function Words(b: seq<byte>): (ws: seq<uint16>)
    ensures |ws| == (|b| + 1) / 2
    decreases |b|
  {
    if |b| == 0 then []
    else if |b| % 2 == 1 then Words(b[..|b| - 1]) + [(b[|b| - 1] as int) * 0x100]
    else Words(b[..|b| - 2]) + [ReadBE16(b, |b| - 2)]
  }

  /** Plain (unbounded) sum of words, added in order. */
  function Sum(ws: seq<uint16>): (s: nat)
    ensures s <= |ws| * 0xFFFF
  {
    if ws == [] then 0 else Sum(ws[..|ws| - 1]) + ws[|ws| - 1]
  }

  /** One's-complement addition of two 16-bit words: a carry out of bit 15
      is added back at bit 0. */
  function OnesAdd(a: uint16, b: uint16): uint16
  {
    if a + b > 0xFFFF then a + b - 0xFFFF else a + b
  }

  /** The words added one at a time with end-around carry, starting from 0. */
  function OnesSum(ws: seq<uint16>): uint16
  {
    if ws == [] then 0 else OnesAdd(OnesSum(ws[..|ws| - 1]), ws[|ws| - 1])
  }

  /** The 16-bit one's-complement value of a plain sum `n`: 0 only for 0,
      otherwise the representative of `n` modulo 0xFFFF in 1..0xFFFF. */
  function Fold16(n: nat): (r: uint16)
    ensures n == 0 <==> r == 0
    ensures n > 0 ==> r % M == n % M
    ensures n <= 0xFFFF ==> r == n
  {
    if n == 0 then 0 else (n - 1) % M + 1
  }

  /** The source's two-step fold of a 32-bit sum, as in IP.h and TCP.h:
      `sum = (sum & 0xFFFF) + (sum >> 16); sum += (sum >> 16);`. */
  function TwoStepFold(sum: uint32): uint32
  {
    var s1 := sum % 0x1_0000 + sum / 0x1_0000;
    s1 + s1 / 0x1_0000
  }

  /** `(uint16_t)~sum` for a 32-bit `sum`. */
  function Complement16(sum: uint32): uint16
  {
    (0xFFFF_FFFF - sum) % 0x1_0000
  }

  /** On a sum already folded into 16 bits, `(uint16_t)~sum` is 0xFFFF - sum. */
  lemma Complement16Small(x: uint32)
    requires x <= 0xFFFF
    ensures Complement16(x) == 0xFFFF - x
  {
    assert 0xFFFF_FFFF - x == 0xFFFF * 0x1_0000 + (0xFFFF - x);
  }

  // ---------------------------------------------------------------------
  // Fold16 is determined by the residue modulo 0xFFFF and by being zero.

  lemma Fold16Congruent(a: nat, b: nat)
    requires a % M == b % M
    requires a == 0 <==> b == 0
    ensures Fold16(a) == Fold16(b)
  {
    if a != 0 {
      var fa, fb := Fold16(a), Fold16(b);
      assert 1 <= fa <= M && 1 <= fb <= M;
      assert fa % M == fb % M;
      if fa == M { assert fb % M == 0; }
    }
  }

  /** One end-around-carry addition agrees with folding the plain sum. */
  lemma OnesAddFold(n: nat, w: uint16)
    ensures OnesAdd(Fold16(n), w) == Fold16(n + w)
  {
    var f := Fold16(n);
    var r := OnesAdd(f, w);
    if n + w > 0 {
      assert 1 <= r <= M;
      assert (r - (f + w)) % M == 0;
      assert r % M == (n + w) % M;
      Fold16Congruent(r, n + w);
    }
  }

  /** The reference sum equals the fold of the plain sum, whatever the order
      in which the source adds the words up. */
  lemma {:induction false} OnesSumIsFold(ws: seq<uint16>)
    ensures OnesSum(ws) == Fold16(Sum(ws))
  {
    if ws != [] {
      OnesSumIsFold(ws[..|ws| - 1]);
      OnesAddFold(Sum(ws[..|ws| - 1]), ws[|ws| - 1]);
    }
  }

  /** `sum = (sum & 0xFFFF) + (sum >> 16)` keeps the one's-complement value. */
  lemma FoldStep(s: nat)
    ensures Fold16(s % 0x1_0000 + s / 0x1_0000) == Fold16(s)
  {
    var t := s % 0x1_0000 + s / 0x1_0000;
    assert s == (s / 0x1_0000) * 0x1_0000 + s % 0x1_0000;
    assert s - t == (s / 0x1_0000) * M;
    assert (s - t) % M == 0;
    Fold16Congruent(t, s);
  }

  /** Two folds of any 32-bit sum give its 16-bit one's-complement value. */
  lemma TwoStepFoldCorrect(sum: uint32)
    ensures TwoStepFold(sum) % 0x1_0000 == Fold16(sum)
    ensures Complement16(TwoStepFold(sum)) == 0xFFFF - Fold16(sum)
  {
    var s1 := sum % 0x1_0000 + sum / 0x1_0000;
    FoldStep(sum);
    assert s1 <= 0x1_FFFE;
    if s1 >= 0x1_0000 {
      var t := s1 % 0x1_0000 + s1 / 0x1_0000;
      assert t == s1 - 0xFFFF;
      FoldStep(s1);
    }
  }

  /** Storing the complement of the folded sum makes the whole sum come to
      0xFFFF (RFC 1071 section 1, step (3)). */
  lemma ComplementVerifies(t: nat, s: nat)
    requires s == t + (0xFFFF - Fold16(t))
    ensures Fold16(s) == 0xFFFF
  {
    if t > 0 {
      assert s % M == (t % M + (M - Fold16(t))) % M;
      assert s % M == 0;
    }
    Fold16Congruent(s, M);
  }

  // ---------------------------------------------------------------------
  // Words, sums and an updated checksum field

  /** One more word of a prefix, as a summing loop takes it. */
  lemma SumNextWord(b: seq<byte>, i: nat)
    requires i % 2 == 0 && i + 2 <= |b|
    ensures Sum(Words(b[..i + 2])) == Sum(Words(b[..i])) + ReadBE16(b, i)
  {
    var q := b[..i + 2];
    assert q[..i] == b[..i];
    assert Words(q) == Words(b[..i]) + [ReadBE16(b, i)];
    assert (Words(b[..i]) + [ReadBE16(b, i)])[..|Words(b[..i])|] == Words(b[..i]);
  }

  /** `for (i = 0; i < n; ++i) sum += ntohs(header[i]);` over a header
      reinterpreted as an array of n host-order uint16 words. */
  method SumMemoryWords(header: seq<byte>, n: nat) returns (sum: uint32)
    requires |header| == 2 * n && n <= 0x1_0000
    ensures sum == Sum(Words(header))
  {
    sum := 0;
    for i := 0 to n
      invariant sum == Sum(Words(header[..2 * i]))
    {
      NtohsOfMemory(header, 2 * i);
      SumNextWord(header, 2 * i);
      sum := sum + Swap16(ReadLE16(header, 2 * i));
    }
    assert header[..2 * n] == header;
  }

  lemma {:induction false} WordsAt(b: seq<byte>, j: nat)
    requires |b| % 2 == 0 && j < |b| / 2
    ensures Words(b)[j] == ReadBE16(b, 2 * j)
    decreases |b|
  {
    if j < |b| / 2 - 1 {
      var p := b[..|b| - 2];
      WordsAt(p, j);
      assert ReadBE16(p, 2 * j) == ReadBE16(b, 2 * j);
    }
  }

  lemma {:induction false} SumUpdate(ws: seq<uint16>, j: nat, c: uint16)
    requires j < |ws|
    ensures Sum(ws[j := c]) + ws[j] == Sum(ws) + c
  {
    var n := |ws| - 1;
    if j < n {
      SumUpdate(ws[..n], j, c);
      assert ws[j := c][..n] == ws[..n][j := c];
    } else {
      assert ws[j := c][..n] == ws[..n];
    }
  }

  /** Two even-length byte strings that agree outside bytes 2j and 2j+1 have
      plain word sums that differ exactly by the difference of word j. */
  lemma SpliceSum(h: seq<byte>, h': seq<byte>, j: nat)
    requires |h| == |h'| && |h| % 2 == 0 && j < |h| / 2
    requires forall i :: 0 <= i < |h| && i != 2 * j && i != 2 * j + 1 ==> h[i] == h'[i]
    ensures Sum(Words(h')) + ReadBE16(h, 2 * j) == Sum(Words(h)) + ReadBE16(h', 2 * j)
  {
    var ws, ws' := Words(h), Words(h');
    forall k | 0 <= k < |ws|
      ensures ws'[k] == ws[j := ReadBE16(h', 2 * j)][k]
    {
      WordsAt(h, k);
      WordsAt(h', k);
    }
    assert ws' == ws[j := ReadBE16(h', 2 * j)];
    WordsAt(h, j);
    SumUpdate(ws, j, ReadBE16(h', 2 * j));
  }

  /** The central RFC 1071 fact used by every codec: if `h0` is a header
      whose checksum word j is zero, and `h` is the same header with word j
      set to the complement of the folded sum of `h0`, then adding the words
      of `h` with end-around carry gives 0xFFFF. */
  lemma ChecksumFieldVerifies(h0: seq<byte>, h: seq<byte>, j: nat)
    requires |h0| == |h| && |h| % 2 == 0 && j < |h| / 2
    requires h0[2 * j] == 0 && h0[2 * j + 1] == 0
    requires forall i :: 0 <= i < |h| && i != 2 * j && i != 2 * j + 1 ==> h0[i] == h[i]
    requires ReadBE16(h, 2 * j) == 0xFFFF - Fold16(Sum(Words(h0)))
    ensures OnesSum(Words(h)) == 0xFFFF
  {
    var t, s := Sum(Words(h0)), Sum(Words(h));
    SpliceSum(h0, h, j);
    assert ReadBE16(h0, 2 * j) == 0;
    assert s == t + (0xFFFF - Fold16(t));
    ComplementVerifies(t, s);
    OnesSumIsFold(Words(h));
  }
}
