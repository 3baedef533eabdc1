/** The byte, numbers as bytes, and facts about division and slices that several models use. */
module Arithmetic {
  type Byte = x: nat | x < 0x100

  /** Quotient and remainder are the only ones that fit. */
  lemma DivUnique(x: int, m: int, q: int, r: int)
    requires 0 <= r < m
    requires x == q * m + r
    ensures x / m == q && x % m == r
  {
    var d := q - x / m;
    assert d * m == x % m - r by {
      assert x == x / m * m + x % m;
      assert d * m == q * m - x / m * m;
    }
    MultipleGrows(d, m);
  }

  lemma MultipleGrows(d: int, m: int)
    requires m > 0
    ensures d >= 1 ==> d * m >= m
    ensures d <= -1 ==> d * m <= -m
  {
  }

  /** A number below 2^32 is made of its four bytes. */
  lemma SplitIntoBytes(v: nat)
    ensures v == v / 0x100_0000 * 0x100_0000 + v / 0x1_0000 % 0x100 * 0x1_0000 + v / 0x100 % 0x100 * 0x100 + v % 0x100
  {
    var q := v / 0x100;
    var r := q / 0x100;
    DivUnique(v, 0x1_0000, r, q % 0x100 * 0x100 + v % 0x100);
    DivUnique(v, 0x100_0000, r / 0x100, r % 0x100 * 0x1_0000 + q % 0x100 * 0x100 + v % 0x100);
  }

  lemma SliceOfSlice<T>(m: seq<T>, at: nat, n: nat, i: nat, j: nat)
    requires i <= j <= n && at + n <= |m|
    ensures m[at..at + n][i..j] == m[at + i..at + j]
  {
    var inner := m[at..at + n];
    forall k | 0 <= k < j - i
      ensures inner[i..j][k] == m[at + i..at + j][k]
    {
      assert inner[i..j][k] == inner[i + k] == m[at + (i + k)];
    }
  }

  lemma SliceGrows<T>(m: seq<T>, i: nat, j: nat)
    requires i <= j < |m|
    ensures m[i..j + 1] == m[i..j] + [m[j]]
  {
  }

  lemma SliceJoins<T>(m: seq<T>, i: nat, j: nat, k: nat)
    requires i <= j <= k <= |m|
    ensures m[i..k] == m[i..j] + m[j..k]
  {
  }

  /** The four bytes of a 32-bit number on a little-endian machine. */
  function IntBytes(v: nat): (b: seq<Byte>)
    requires v < 0x1_0000_0000
    ensures |b| == 4
  {
    [v % 0x100, v / 0x100 % 0x100, v / 0x1_0000 % 0x100, v / 0x100_0000]
  }

  function IntAt(m: seq<Byte>, at: nat): nat
    requires at + 4 <= |m|
  {
    var b0: nat, b1: nat, b2: nat, b3: nat := m[at], m[at + 1], m[at + 2], m[at + 3];
    b0 + b1 * 0x100 + b2 * 0x1_0000 + b3 * 0x100_0000
  }

  lemma IntIsRead(m: seq<Byte>, at: nat, v: nat)
    requires v < 0x1_0000_0000 && at + 4 <= |m| && m[at..at + 4] == IntBytes(v)
    ensures IntAt(m, at) == v
  {
    SplitIntoBytes(v);
    assert m[at] == m[at..at + 4][0] && m[at + 1] == m[at..at + 4][1];
    assert m[at + 2] == m[at..at + 4][2] && m[at + 3] == m[at..at + 4][3];
  }
}
