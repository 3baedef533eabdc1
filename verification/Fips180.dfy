/**
 The reference for the hash: SHA-1 as FIPS 180-4 defines it. Section 4.1.1 gives the round
 functions, 4.2.1 the constants, 5.1.1 the padding, 5.3.1 the initial value and 6.1.2 the
 computation with an 80-word schedule and five working variables that shift in every round.
 */
module Fips180 {
  type Byte = bv8
  type Word = bv32

  datatype Hash = Hash(a: Word, b: Word, c: Word, d: Word, e: Word)

  const INITIAL := Hash(0x67452301, 0xefcdab89, 0x98badcfe, 0x10325476, 0xc3d2e1f0)

  function RotL1(x: Word): Word { (x << 1) | (x >> 31) }

  function RotL5(x: Word): Word { (x << 5) | (x >> 27) }

  function RotL30(x: Word): Word { (x << 30) | (x >> 2) }

  function Xor4(p: Word, q: Word, r: Word, s: Word): Word { p ^ q ^ r ^ s }

  function Add(x: Word, y: Word): Word { x + y }

  function Add5(p: Word, q: Word, r: Word, s: Word, t: Word): Word { p + q + r + s + t }

  function Ch(x: Word, y: Word, z: Word): Word { (x & y) ^ (!x & z) }

  function Parity(x: Word, y: Word, z: Word): Word { x ^ y ^ z }

  function Maj(x: Word, y: Word, z: Word): Word { (x & y) ^ (x & z) ^ (y & z) }

  function F(t: nat, x: Word, y: Word, z: Word): Word {
    if t < 20 then Ch(x, y, z)
    else if t < 40 then Parity(x, y, z)
    else if t < 60 then Maj(x, y, z)
    else Parity(x, y, z)
  }

  function K(t: nat): Word {
    if t < 20 then 0x5a827999 else if t < 40 then 0x6ed9eba1 else if t < 60 then 0x8f1bbcdc else 0xca62c1d6
  }

  function BigEndian(b0: Byte, b1: Byte, b2: Byte, b3: Byte): Word {
    ((b0 as Word) << 24) | ((b1 as Word) << 16) | ((b2 as Word) << 8) | (b3 as Word)
  }

  function WordBytes(w: Word): (r: seq<Byte>)
    ensures |r| == 4
  {
    [((w >> 24) & 0xff) as Byte, ((w >> 16) & 0xff) as Byte, ((w >> 8) & 0xff) as Byte, (w & 0xff) as Byte]
  }

  function BlockWords(block: seq<Byte>): (r: seq<Word>)
    requires |block| == 64
    ensures |r| == 16
  {
    seq(16, i requires 0 <= i < 16 =>
      BigEndian(block[4 * i], block[4 * i + 1], block[4 * i + 2], block[4 * i + 3]))
  }

  /** Rotation without shifts: doubling carries the highest bit round to the lowest place. */
  lemma RotL1Doubles(x: Word)
    ensures x < 0x8000_0000 ==> RotL1(x) == x + x
    ensures x >= 0x8000_0000 ==> RotL1(x) == x + x + 1
  {
  }

  /** Addition by counting, modulo 2^32. */
  lemma AddCounts(x: Word, y: Word)
    ensures Add(x, 0) == x && Add(x, y + 1) == Add(x, y) + 1
  {
  }

  lemma RotL5IsFiveSteps(x: Word)
    ensures RotL5(x) == RotL1(RotL1(RotL1(RotL1(RotL1(x)))))
  {
  }

  lemma RotL30IsTwoStepsBack(x: Word)
    ensures RotL30(RotL1(RotL1(x))) == x
  {
  }

  /** The round constants are the integer parts of 2^30 times the roots of 2, 3, 5 and 10. */
  lemma ConstantsAreRoots(t: nat)
    ensures var n: nat := if t < 20 then 2 else if t < 40 then 3 else if t < 60 then 5 else 10;
      var k := K(t) as nat;
      k * k <= n * 0x1000_0000_0000_0000 < (k + 1) * (k + 1)
  {
  }

  /** The recurrence of the message schedule at position `t`. */
  function NextWord(w: seq<Word>, t: nat): Word
    requires 16 <= t <= |w|
  {
    RotL1(Xor4(w[t - 3], w[t - 8], w[t - 14], w[t - 16]))
  }

  /** The message schedule: its first words are `w`, the later ones follow the recurrence. */
  function Expand(w: seq<Word>): (r: seq<Word>)
    requires 16 <= |w| <= 80
    ensures |r| == 80 && w <= r
    decreases 80 - |w|
  {
    if |w| == 80 then w else Expand(w + [NextWord(w, |w|)])
  }

  lemma {:induction false} ExpandFollowsRecurrence(w: seq<Word>, t: nat)
    requires 16 <= |w| <= t < 80
    ensures Expand(w)[t] == NextWord(Expand(w), t)
    decreases 80 - |w|
  {
    var v := w + [NextWord(w, |w|)];
    if t == |w| {
      assert Expand(w)[t] == v[t];
      assert forall i | 0 <= i < t :: Expand(w)[i] == w[i];
    } else {
      ExpandFollowsRecurrence(v, t);
    }
  }

  function Round(s: Hash, t: nat, w: Word): Hash {
    Hash(Add5(RotL5(s.a), F(t, s.b, s.c, s.d), s.e, K(t), w), s.a, RotL30(s.b), s.c, s.d)
  }

  /** The five working variables after the first `t` rounds. */
  function Rounds(h: Hash, w: seq<Word>, t: nat): Hash
    requires t <= |w|
  {
    if t == 0 then h else Round(Rounds(h, w, t - 1), t - 1, w[t - 1])
  }

  function Sum(x: Hash, y: Hash): Hash {
    Hash(Add(x.a, y.a), Add(x.b, y.b), Add(x.c, y.c), Add(x.d, y.d), Add(x.e, y.e))
  }

  function Compress(h: Hash, block: seq<Byte>): Hash
    requires |block| == 64
  {
    var w := Expand(BlockWords(block));
    Sum(h, Rounds(h, w, |w|))
  }

  /** The chaining value after every whole 64-byte block of `m`; a shorter tail is ignored. */
  function Chain(h: Hash, m: seq<Byte>): Hash
    decreases |m|
  {
    if |m| < 64 then h else Chain(Compress(h, m[..64]), m[64..])
  }

  /** The 64-bit bit count of an `n`-byte message, most significant byte first. */
  function LengthField(n: nat): (r: seq<Byte>)
    ensures |r| == 8
  {
    NatBytes(8 * n / 0x1_0000_0000 % 0x1_0000_0000) + NatBytes(8 * n % 0x1_0000_0000)
  }

  function NatBytes(v: nat): (r: seq<Byte>)
    requires v < 0x1_0000_0000
    ensures |r| == 4
  {
    [(v / 0x100_0000) as Byte, (v / 0x1_0000 % 0x100) as Byte, (v / 0x100 % 0x100) as Byte, (v % 0x100) as Byte]
  }

  function Zeros(n: nat): (r: seq<Byte>)
    ensures |r| == n
  {
    seq(n, _ => 0)
  }

  /** One 1 bit, the fewest 0 bits that leave room for the length field, the length field. */
  function Padded(m: seq<Byte>): seq<Byte> {
    m + [0x80] + Zeros((55 - |m|) % 64) + LengthField(|m|)
  }

  function HashBytes(h: Hash): (r: seq<Byte>)
    ensures |r| == 20
  {
    WordBytes(h.a) + WordBytes(h.b) + WordBytes(h.c) + WordBytes(h.d) + WordBytes(h.e)
  }

  function Digest(m: seq<Byte>): seq<Byte> {
    HashBytes(Chain(INITIAL, Padded(m)))
  }

  lemma PaddedIsWholeBlocks(m: seq<Byte>)
    ensures |Padded(m)| % 64 == 0
    ensures |Padded(m)| - |m| == (if |m| % 64 < 56 then 64 else 128) - |m| % 64
  {
    var zeros := (55 - |m|) % 64;
    assert |Padded(m)| == |m| + 1 + zeros + 8;
    PadArithmetic(|m|, zeros);
  }

  lemma PadArithmetic(n: nat, zeros: nat)
    requires zeros == (55 - n) % 64
    ensures (n + zeros + 9) % 64 == 0
    ensures zeros + 9 == (if n % 64 < 56 then 64 else 128) - n % 64
  {
  }

  /** Blocks may be absorbed in any whole-block pieces. */
  lemma {:induction false} ChainConcat(h: Hash, m: seq<Byte>, n: seq<Byte>)
    requires |m| % 64 == 0
    ensures Chain(h, m + n) == Chain(Chain(h, m), n)
    decreases |m|
  {
    if |m| == 0 {
      assert m + n == n;
    } else {
      assert (m + n)[..64] == m[..64] && (m + n)[64..] == m[64..] + n;
      ChainConcat(Compress(h, m[..64]), m[64..], n);
    }
  }
}
