/**
 The compression step of include/sysfn/sha1.h: 80 unrolled rounds that rotate the names of five
 registers instead of moving their contents, over a circular schedule of 16 words updated in
 place. Every round is checked against the list of working variables that FIPS 180-4 defines.
 The machine is little endian, so the byte swap of the original is the one that exchanges bytes.
 */
module Sha1Rounds {
  import opened Fips180

  type RoundFunction = (Word, Word, Word) -> Word

  const K1: Word := 0x5a827999
  const K2: Word := 0x6ed9eba1
  const K3: Word := 0x8f1bbcdc
  const K4: Word := 0xca62c1d6

  function F1(b: Word, c: Word, d: Word): Word { d ^ (b & (c ^ d)) }

  function F2(b: Word, c: Word, d: Word): Word { b ^ c ^ d }

  function F3(b: Word, c: Word, d: Word): Word { (b & c) | (d & (b | c)) }

  function F4(b: Word, c: Word, d: Word): Word { b ^ c ^ d }

  function MacroF(t: nat): RoundFunction {
    if t < 20 then F1 else if t < 40 then F2 else if t < 60 then F3 else F4
  }

  lemma F1IsCh(b: Word, c: Word, d: Word)
    ensures F1(b, c, d) == Ch(b, c, d)
  {
    assert d ^ (b & (c ^ d)) == (b & c) ^ (!b & d);
  }

  lemma F3IsMaj(b: Word, c: Word, d: Word)
    ensures F3(b, c, d) == Maj(b, c, d)
  {
    assert (b & c) | (d & (b | c)) == (b & c) ^ (b & d) ^ (c & d);
  }

  /** The functions handed to the round macro are those of FIPS 180-4, section 4.1.1. */
  lemma MacroFIsF(t: nat, b: Word, c: Word, d: Word)
    ensures MacroF(t)(b, c, d) == F(t, b, c, d)
  {
    if t < 20 {
      F1IsCh(b, c, d);
    } else if 40 <= t < 60 {
      F3IsMaj(b, c, d);
    }
  }

  function Swap(n: Word): Word {
    (n << 24) | ((n & 0xff00) << 8) | ((n >> 8) & 0xff00) | (n >> 24)
  }

  /** A 32-bit load on a little-endian machine. */
  function LoadWord(b0: Byte, b1: Byte, b2: Byte, b3: Byte): Word {
    (b0 as Word) | ((b1 as Word) << 8) | ((b2 as Word) << 16) | ((b3 as Word) << 24)
  }

  lemma SwappedLoadIsBigEndian(b0: Byte, b1: Byte, b2: Byte, b3: Byte)
    ensures Swap(LoadWord(b0, b1, b2, b3)) == BigEndian(b0, b1, b2, b3)
  {
  }

  /** `w` is a complete message schedule. */
  ghost predicate Scheduled(w: seq<Word>) {
    |w| == 80 && forall t {:trigger NextWord(w, t)} | 16 <= t < 80 :: w[t] == NextWord(w, t)
  }

  /** `s` lists the working variables before each round and after the last one. */
  ghost predicate Run(s: seq<Hash>, w: seq<Word>) {
    && |s| == |w| + 1
    && forall t {:trigger Round(s[t], t, w[t])} | 0 <= t < |w| :: s[t + 1] == Round(s[t], t, w[t])
  }

  /** The place of schedule word `j` in the circular schedule. */
  function Slot(x: seq<Word>, j: nat): Word
    requires |x| == 16
  {
    x[j % 16]
  }

  /** The circular schedule `x` holds the sixteen schedule words that precede position `t`. */
  ghost predicate Window(x: seq<Word>, w: seq<Word>, t: nat) {
    && |x| == 16
    && 16 <= t <= |w|
    && forall j {:trigger Slot(x, j)} | t - 16 <= j < t :: Slot(x, j) == w[j]
  }

  /** The macro M: replace the oldest word of the circular schedule by word `i`. */
  method M(x: array<Word>, i: nat, ghost w: seq<Word>) returns (m: Word)
    requires x.Length == 16 && Scheduled(w) && 16 <= i < 80 && Window(x[..], w, i)
    modifies x
    ensures m == w[i]
    ensures Window(x[..], w, i + 1)
  {
    ghost var before := x[..];
    var tm := x[i % 16] ^ x[(i - 14) % 16] ^ x[(i - 8) % 16] ^ x[(i - 3) % 16];
    XorReorder(x[i % 16], x[(i - 14) % 16], x[(i - 8) % 16], x[(i - 3) % 16]);
    OldestWord(before, w, i);
    m := RotL1(tm);
    x[i % 16] := m;
    NextWindow(before, w, i);
    assert x[..] == before[i % 16 := m];
  }

  lemma XorReorder(p: Word, q: Word, r: Word, s: Word)
    ensures p ^ q ^ r ^ s == Xor4(s, r, q, p)
  {
  }

  /** The slots the macro reads hold the words the recurrence asks for. */
  lemma OldestWord(x: seq<Word>, w: seq<Word>, i: nat)
    requires Scheduled(w) && 16 <= i < 80 && Window(x, w, i)
    ensures w[i] == RotL1(Xor4(x[(i - 3) % 16], x[(i - 8) % 16], x[(i - 14) % 16], x[i % 16]))
  {
    assert Slot(x, i - 16) == w[i - 16] && Slot(x, i - 14) == w[i - 14];
    assert Slot(x, i - 8) == w[i - 8] && Slot(x, i - 3) == w[i - 3];
    assert (i - 16) % 16 == i % 16;
    assert w[i] == NextWord(w, i);
  }

  lemma NextWindow(x: seq<Word>, w: seq<Word>, i: nat)
    requires |w| == 80 && 16 <= i < 80 && Window(x, w, i)
    ensures Window(x[i % 16 := w[i]], w, i + 1)
  {
    var y := x[i % 16 := w[i]];
    forall j | i + 1 - 16 <= j < i + 1
      ensures Slot(y, j) == w[j]
    {
      assert j < i ==> Slot(x, j) == w[j] && j % 16 != i % 16;
    }
  }

  /** The macro R: one round, whose result stays in the register that came fifth. */
  method R(a: Word, b: Word, c: Word, d: Word, e: Word, f: RoundFunction, k: Word, m: Word,
           ghost s: seq<Hash>, ghost w: seq<Word>, ghost t: nat)
    returns (e': Word, b': Word)
    requires t < |w| && Run(s, w) && s[t] == Hash(a, b, c, d, e)
    requires f == MacroF(t) && k == K(t) && m == w[t]
    ensures s[t + 1] == Hash(e', a, b', c, d)
  {
    var fbcd := f(b, c, d);
    e' := e + (RotL5(a) + fbcd + k + m);
    b' := RotL30(b);
    MacroFIsF(t, b, c, d);
    SumReorder(RotL5(a), fbcd, e, k, m);
    assert s[t + 1] == Round(s[t], t, w[t]);
  }

  lemma SumReorder(p: Word, f: Word, e: Word, k: Word, m: Word)
    ensures e + (p + f + k + m) == Add5(p, f, e, k, m)
  {
  }

  method Rounds0To9(x: array<Word>, a0: Word, b0: Word, c0: Word, d0: Word, e0: Word,
                    ghost s: seq<Hash>, ghost w: seq<Word>)
    returns (a: Word, b: Word, c: Word, d: Word, e: Word)
    requires x.Length == 16 && Scheduled(w) && x[..] == w[..16]
    requires Run(s, w) && s[0] == Hash(a0, b0, c0, d0, e0)
    ensures x[..] == w[..16]
    ensures s[10] == Hash(a, b, c, d, e)
  {
    a, b, c, d, e := a0, b0, c0, d0, e0;
    e, b := R(a, b, c, d, e, F1, K1, x[0], s, w, 0);
    d, a := R(e, a, b, c, d, F1, K1, x[1], s, w, 1);
    c, e := R(d, e, a, b, c, F1, K1, x[2], s, w, 2);
    b, d := R(c, d, e, a, b, F1, K1, x[3], s, w, 3);
    a, c := R(b, c, d, e, a, F1, K1, x[4], s, w, 4);
    e, b := R(a, b, c, d, e, F1, K1, x[5], s, w, 5);
    d, a := R(e, a, b, c, d, F1, K1, x[6], s, w, 6);
    c, e := R(d, e, a, b, c, F1, K1, x[7], s, w, 7);
    b, d := R(c, d, e, a, b, F1, K1, x[8], s, w, 8);
    a, c := R(b, c, d, e, a, F1, K1, x[9], s, w, 9);
  }

  method Rounds10To19(x: array<Word>, a0: Word, b0: Word, c0: Word, d0: Word, e0: Word,
                      ghost s: seq<Hash>, ghost w: seq<Word>)
    returns (a: Word, b: Word, c: Word, d: Word, e: Word)
    requires x.Length == 16 && Scheduled(w) && x[..] == w[..16]
    requires Run(s, w) && s[10] == Hash(a0, b0, c0, d0, e0)
    modifies x
    ensures Window(x[..], w, 20)
    ensures s[20] == Hash(a, b, c, d, e)
  {
    var m;
    a, b, c, d, e := a0, b0, c0, d0, e0;
    e, b := R(a, b, c, d, e, F1, K1, x[10], s, w, 10);
    d, a := R(e, a, b, c, d, F1, K1, x[11], s, w, 11);
    c, e := R(d, e, a, b, c, F1, K1, x[12], s, w, 12);
    b, d := R(c, d, e, a, b, F1, K1, x[13], s, w, 13);
    a, c := R(b, c, d, e, a, F1, K1, x[14], s, w, 14);
    e, b := R(a, b, c, d, e, F1, K1, x[15], s, w, 15);
    m := M(x, 16, w);
    d, a := R(e, a, b, c, d, F1, K1, m, s, w, 16);
    m := M(x, 17, w);
    c, e := R(d, e, a, b, c, F1, K1, m, s, w, 17);
    m := M(x, 18, w);
    b, d := R(c, d, e, a, b, F1, K1, m, s, w, 18);
    m := M(x, 19, w);
    a, c := R(b, c, d, e, a, F1, K1, m, s, w, 19);
  }

  method Rounds20To29(x: array<Word>, a0: Word, b0: Word, c0: Word, d0: Word, e0: Word,
                      ghost s: seq<Hash>, ghost w: seq<Word>)
    returns (a: Word, b: Word, c: Word, d: Word, e: Word)
    requires x.Length == 16 && Scheduled(w) && Window(x[..], w, 20)
    requires Run(s, w) && s[20] == Hash(a0, b0, c0, d0, e0)
    modifies x
    ensures Window(x[..], w, 30)
    ensures s[30] == Hash(a, b, c, d, e)
  {
    var m;
    a, b, c, d, e := a0, b0, c0, d0, e0;
    m := M(x, 20, w);
    e, b := R(a, b, c, d, e, F2, K2, m, s, w, 20);
    m := M(x, 21, w);
    d, a := R(e, a, b, c, d, F2, K2, m, s, w, 21);
    m := M(x, 22, w);
    c, e := R(d, e, a, b, c, F2, K2, m, s, w, 22);
    m := M(x, 23, w);
    b, d := R(c, d, e, a, b, F2, K2, m, s, w, 23);
    m := M(x, 24, w);
    a, c := R(b, c, d, e, a, F2, K2, m, s, w, 24);
    m := M(x, 25, w);
    e, b := R(a, b, c, d, e, F2, K2, m, s, w, 25);
    m := M(x, 26, w);
    d, a := R(e, a, b, c, d, F2, K2, m, s, w, 26);
    m := M(x, 27, w);
    c, e := R(d, e, a, b, c, F2, K2, m, s, w, 27);
    m := M(x, 28, w);
    b, d := R(c, d, e, a, b, F2, K2, m, s, w, 28);
    m := M(x, 29, w);
    a, c := R(b, c, d, e, a, F2, K2, m, s, w, 29);
  }

  method Rounds30To39(x: array<Word>, a0: Word, b0: Word, c0: Word, d0: Word, e0: Word,
                      ghost s: seq<Hash>, ghost w: seq<Word>)
    returns (a: Word, b: Word, c: Word, d: Word, e: Word)
    requires x.Length == 16 && Scheduled(w) && Window(x[..], w, 30)
    requires Run(s, w) && s[30] == Hash(a0, b0, c0, d0, e0)
    modifies x
    ensures Window(x[..], w, 40)
    ensures s[40] == Hash(a, b, c, d, e)
  {
    var m;
    a, b, c, d, e := a0, b0, c0, d0, e0;
    m := M(x, 30, w);
    e, b := R(a, b, c, d, e, F2, K2, m, s, w, 30);
    m := M(x, 31, w);
    d, a := R(e, a, b, c, d, F2, K2, m, s, w, 31);
    m := M(x, 32, w);
    c, e := R(d, e, a, b, c, F2, K2, m, s, w, 32);
    m := M(x, 33, w);
    b, d := R(c, d, e, a, b, F2, K2, m, s, w, 33);
    m := M(x, 34, w);
    a, c := R(b, c, d, e, a, F2, K2, m, s, w, 34);
    m := M(x, 35, w);
    e, b := R(a, b, c, d, e, F2, K2, m, s, w, 35);
    m := M(x, 36, w);
    d, a := R(e, a, b, c, d, F2, K2, m, s, w, 36);
    m := M(x, 37, w);
    c, e := R(d, e, a, b, c, F2, K2, m, s, w, 37);
    m := M(x, 38, w);
    b, d := R(c, d, e, a, b, F2, K2, m, s, w, 38);
    m := M(x, 39, w);
    a, c := R(b, c, d, e, a, F2, K2, m, s, w, 39);
  }

  method Rounds40To49(x: array<Word>, a0: Word, b0: Word, c0: Word, d0: Word, e0: Word,
                      ghost s: seq<Hash>, ghost w: seq<Word>)
    returns (a: Word, b: Word, c: Word, d: Word, e: Word)
    requires x.Length == 16 && Scheduled(w) && Window(x[..], w, 40)
    requires Run(s, w) && s[40] == Hash(a0, b0, c0, d0, e0)
    modifies x
    ensures Window(x[..], w, 50)
    ensures s[50] == Hash(a, b, c, d, e)
  {
    var m;
    a, b, c, d, e := a0, b0, c0, d0, e0;
    m := M(x, 40, w);
    e, b := R(a, b, c, d, e, F3, K3, m, s, w, 40);
    m := M(x, 41, w);
    d, a := R(e, a, b, c, d, F3, K3, m, s, w, 41);
    m := M(x, 42, w);
    c, e := R(d, e, a, b, c, F3, K3, m, s, w, 42);
    m := M(x, 43, w);
    b, d := R(c, d, e, a, b, F3, K3, m, s, w, 43);
    m := M(x, 44, w);
    a, c := R(b, c, d, e, a, F3, K3, m, s, w, 44);
    m := M(x, 45, w);
    e, b := R(a, b, c, d, e, F3, K3, m, s, w, 45);
    m := M(x, 46, w);
    d, a := R(e, a, b, c, d, F3, K3, m, s, w, 46);
    m := M(x, 47, w);
    c, e := R(d, e, a, b, c, F3, K3, m, s, w, 47);
    m := M(x, 48, w);
    b, d := R(c, d, e, a, b, F3, K3, m, s, w, 48);
    m := M(x, 49, w);
    a, c := R(b, c, d, e, a, F3, K3, m, s, w, 49);
  }

  method Rounds50To59(x: array<Word>, a0: Word, b0: Word, c0: Word, d0: Word, e0: Word,
                      ghost s: seq<Hash>, ghost w: seq<Word>)
    returns (a: Word, b: Word, c: Word, d: Word, e: Word)
    requires x.Length == 16 && Scheduled(w) && Window(x[..], w, 50)
    requires Run(s, w) && s[50] == Hash(a0, b0, c0, d0, e0)
    modifies x
    ensures Window(x[..], w, 60)
    ensures s[60] == Hash(a, b, c, d, e)
  {
    var m;
    a, b, c, d, e := a0, b0, c0, d0, e0;
    m := M(x, 50, w);
    e, b := R(a, b, c, d, e, F3, K3, m, s, w, 50);
    m := M(x, 51, w);
    d, a := R(e, a, b, c, d, F3, K3, m, s, w, 51);
    m := M(x, 52, w);
    c, e := R(d, e, a, b, c, F3, K3, m, s, w, 52);
    m := M(x, 53, w);
    b, d := R(c, d, e, a, b, F3, K3, m, s, w, 53);
    m := M(x, 54, w);
    a, c := R(b, c, d, e, a, F3, K3, m, s, w, 54);
    m := M(x, 55, w);
    e, b := R(a, b, c, d, e, F3, K3, m, s, w, 55);
    m := M(x, 56, w);
    d, a := R(e, a, b, c, d, F3, K3, m, s, w, 56);
    m := M(x, 57, w);
    c, e := R(d, e, a, b, c, F3, K3, m, s, w, 57);
    m := M(x, 58, w);
    b, d := R(c, d, e, a, b, F3, K3, m, s, w, 58);
    m := M(x, 59, w);
    a, c := R(b, c, d, e, a, F3, K3, m, s, w, 59);
  }

  method Rounds60To69(x: array<Word>, a0: Word, b0: Word, c0: Word, d0: Word, e0: Word,
                      ghost s: seq<Hash>, ghost w: seq<Word>)
    returns (a: Word, b: Word, c: Word, d: Word, e: Word)
    requires x.Length == 16 && Scheduled(w) && Window(x[..], w, 60)
    requires Run(s, w) && s[60] == Hash(a0, b0, c0, d0, e0)
    modifies x
    ensures Window(x[..], w, 70)
    ensures s[70] == Hash(a, b, c, d, e)
  {
    var m;
    a, b, c, d, e := a0, b0, c0, d0, e0;
    m := M(x, 60, w);
    e, b := R(a, b, c, d, e, F4, K4, m, s, w, 60);
    m := M(x, 61, w);
    d, a := R(e, a, b, c, d, F4, K4, m, s, w, 61);
    m := M(x, 62, w);
    c, e := R(d, e, a, b, c, F4, K4, m, s, w, 62);
    m := M(x, 63, w);
    b, d := R(c, d, e, a, b, F4, K4, m, s, w, 63);
    m := M(x, 64, w);
    a, c := R(b, c, d, e, a, F4, K4, m, s, w, 64);
    m := M(x, 65, w);
    e, b := R(a, b, c, d, e, F4, K4, m, s, w, 65);
    m := M(x, 66, w);
    d, a := R(e, a, b, c, d, F4, K4, m, s, w, 66);
    m := M(x, 67, w);
    c, e := R(d, e, a, b, c, F4, K4, m, s, w, 67);
    m := M(x, 68, w);
    b, d := R(c, d, e, a, b, F4, K4, m, s, w, 68);
    m := M(x, 69, w);
    a, c := R(b, c, d, e, a, F4, K4, m, s, w, 69);
  }

  method Rounds70To79(x: array<Word>, a0: Word, b0: Word, c0: Word, d0: Word, e0: Word,
                      ghost s: seq<Hash>, ghost w: seq<Word>)
    returns (a: Word, b: Word, c: Word, d: Word, e: Word)
    requires x.Length == 16 && Scheduled(w) && Window(x[..], w, 70)
    requires Run(s, w) && s[70] == Hash(a0, b0, c0, d0, e0)
    modifies x
    ensures Window(x[..], w, 80)
    ensures s[80] == Hash(a, b, c, d, e)
  {
    var m;
    a, b, c, d, e := a0, b0, c0, d0, e0;
    m := M(x, 70, w);
    e, b := R(a, b, c, d, e, F4, K4, m, s, w, 70);
    m := M(x, 71, w);
    d, a := R(e, a, b, c, d, F4, K4, m, s, w, 71);
    m := M(x, 72, w);
    c, e := R(d, e, a, b, c, F4, K4, m, s, w, 72);
    m := M(x, 73, w);
    b, d := R(c, d, e, a, b, F4, K4, m, s, w, 73);
    m := M(x, 74, w);
    a, c := R(b, c, d, e, a, F4, K4, m, s, w, 74);
    m := M(x, 75, w);
    e, b := R(a, b, c, d, e, F4, K4, m, s, w, 75);
    m := M(x, 76, w);
    d, a := R(e, a, b, c, d, F4, K4, m, s, w, 76);
    m := M(x, 77, w);
    c, e := R(d, e, a, b, c, F4, K4, m, s, w, 77);
    m := M(x, 78, w);
    b, d := R(c, d, e, a, b, F4, K4, m, s, w, 78);
    m := M(x, 79, w);
    a, c := R(b, c, d, e, a, F4, K4, m, s, w, 79);
  }

  /** Every working-variable state of the reference, as one list. */
  ghost function States(h: Hash, w: seq<Word>): (s: seq<Hash>)
    ensures Run(s, w)
    ensures s[0] == h && s[|w|] == Rounds(h, w, |w|)
  {
    seq(|w| + 1, t requires 0 <= t <= |w| => Rounds(h, w, t))
  }

  /** One block: the chaining value `h` becomes the one that FIPS 180-4 computes. */
  method ProcessOneBlock(h: Hash, block: seq<Byte>) returns (r: Hash)
    requires |block| == 64
    ensures r == Compress(h, block)
  {
    var x := new Word[16];
    for t := 0 to 16
      invariant x[..t] == BlockWords(block)[..t]
    {
      SwappedLoadIsBigEndian(block[4 * t], block[4 * t + 1], block[4 * t + 2], block[4 * t + 3]);
      x[t] := Swap(LoadWord(block[4 * t], block[4 * t + 1], block[4 * t + 2], block[4 * t + 3]));
      assert x[..t + 1] == x[..t] + [x[t]];
    }
    assert x[..] == x[..16];
    ghost var w := Expand(BlockWords(block));
    ExpandIsScheduled(BlockWords(block));
    var a, b, c, d, e := RunRounds(x, h, w);
    r := Hash(Add(h.a, a), Add(h.b, b), Add(h.c, c), Add(h.d, d), Add(h.e, e));
  }

  lemma ExpandIsScheduled(words: seq<Word>)
    requires |words| == 16
    ensures Scheduled(Expand(words))
    ensures words == Expand(words)[..16]
  {
    forall t | 16 <= t < 80
      ensures Expand(words)[t] == NextWord(Expand(words), t)
    {
      ExpandFollowsRecurrence(words, t);
    }
  }

  method RunRounds(x: array<Word>, h: Hash, ghost w: seq<Word>)
    returns (a: Word, b: Word, c: Word, d: Word, e: Word)
    requires x.Length == 16 && Scheduled(w) && x[..] == w[..16]
    modifies x
    ensures Hash(a, b, c, d, e) == Rounds(h, w, |w|)
  {
    ghost var s := States(h, w);
    a, b, c, d, e := h.a, h.b, h.c, h.d, h.e;
    a, b, c, d, e := Rounds0To9(x, a, b, c, d, e, s, w);
    a, b, c, d, e := Rounds10To19(x, a, b, c, d, e, s, w);
    a, b, c, d, e := Rounds20To29(x, a, b, c, d, e, s, w);
    a, b, c, d, e := Rounds30To39(x, a, b, c, d, e, s, w);
    a, b, c, d, e := Rounds40To49(x, a, b, c, d, e, s, w);
    a, b, c, d, e := Rounds50To59(x, a, b, c, d, e, s, w);
    a, b, c, d, e := Rounds60To69(x, a, b, c, d, e, s, w);
    a, b, c, d, e := Rounds70To79(x, a, b, c, d, e, s, w);
  }
}
