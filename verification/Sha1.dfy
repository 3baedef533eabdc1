/**
 The streaming context of include/sysfn/sha1.h: a 128-byte staging buffer that is drained at two
 thresholds, a byte counter in two 32-bit words, and the padding written by the final call.
 */
module Sha1 {
  import Arithmetic
  import opened Fips180
  import opened Sha1Rounds

  type Uint32 = x: nat | x < 0x1_0000_0000

  const BLOCKSIZE: nat := 32768

  /** The counter after `len` more bytes: a double-word increment with one carry test. */
  function AddCount(low: Uint32, high: Uint32, len: nat): (Uint32, Uint32) {
    var low' := (low + len % 0x1_0000_0000) % 0x1_0000_0000;
    (low', if low' < len then (high + 1) % 0x1_0000_0000 else high)
  }

  /** The carry test is right for every length below 2^32 and for just those above it that carry once. */
  lemma CarryTestIsExact(low: Uint32, high: Uint32, len: nat)
    ensures var (low', high') := AddCount(low, high, len);
      high' * 0x1_0000_0000 + low' == (high * 0x1_0000_0000 + low + len) % 0x1_0000_0000_0000_0000
      <==> (len < 0x1_0000_0000 || (low + len) / 0x1_0000_0000 % 0x1_0000_0000 == 1)
  {
    var sum := low + len;
    var carry, rest := sum / 0x1_0000_0000, sum % 0x1_0000_0000;
    var top := (high + carry) / 0x1_0000_0000;
    var wrapped := (high + carry) % 0x1_0000_0000;
    Arithmetic.DivUnique(high * 0x1_0000_0000 + sum, 0x1_0000_0000_0000_0000, top, wrapped * 0x1_0000_0000 + rest);
    Arithmetic.DivUnique(low + len % 0x1_0000_0000, 0x1_0000_0000, carry - len / 0x1_0000_0000, rest);
    if len >= 0x1_0000_0000 {
      WrapUnique(high, carry);
    }
  }

  lemma WrapUnique(high: Uint32, carry: nat)
    ensures (high + carry) % 0x1_0000_0000 == (high + 1) % 0x1_0000_0000 <==> carry % 0x1_0000_0000 == 1
  {
    var top, r := (high + 1) / 0x1_0000_0000, (high + 1) % 0x1_0000_0000;
    if carry % 0x1_0000_0000 == 1 {
      Arithmetic.DivUnique(high + carry, 0x1_0000_0000, top + carry / 0x1_0000_0000, r);
    } else if (high + carry) % 0x1_0000_0000 == r {
      Arithmetic.DivUnique(carry, 0x1_0000_0000, (high + carry) / 0x1_0000_0000 - top, 1);
    }
  }

  function SwapNat(v: Uint32): Uint32 {
    v % 0x100 * 0x100_0000 + v / 0x100 % 0x100 * 0x1_0000 + v / 0x1_0000 % 0x100 * 0x100 + v / 0x100_0000
  }

  /** The bytes of a 32-bit store on a little-endian machine. */
  function StoreNat(v: Uint32): seq<Byte> {
    [(v % 0x100) as Byte, (v / 0x100 % 0x100) as Byte, (v / 0x1_0000 % 0x100) as Byte, (v / 0x100_0000) as Byte]
  }

  lemma SwappedStoreIsBigEndian(v: Uint32)
    ensures StoreNat(SwapNat(v)) == NatBytes(v)
  {
    hide SwapNat;
    SwapReverses(v);
  }

  /** The lowest byte of the swapped number is the highest of `v`, and so on. */
  lemma SwapReverses(v: Uint32)
    ensures var w := SwapNat(v);
      && w % 0x100 == v / 0x100_0000 && w / 0x100 % 0x100 == v / 0x1_0000 % 0x100
      && w / 0x1_0000 % 0x100 == v / 0x100 % 0x100 && w / 0x100_0000 == v % 0x100
  {
    SplitBytes(v % 0x100, v / 0x100 % 0x100, v / 0x1_0000 % 0x100, v / 0x100_0000);
  }

  lemma SplitBytes(b3: nat, b2: nat, b1: nat, b0: nat)
    requires b0 < 0x100 && b1 < 0x100 && b2 < 0x100 && b3 < 0x100
    ensures var v := b3 * 0x100_0000 + b2 * 0x1_0000 + b1 * 0x100 + b0;
      v % 0x100 == b0 && v / 0x100 % 0x100 == b1 && v / 0x1_0000 % 0x100 == b2 && v / 0x100_0000 == b3
  {
    var v := b3 * 0x100_0000 + b2 * 0x1_0000 + b1 * 0x100 + b0;
    Arithmetic.DivUnique(v, 0x100, b3 * 0x1_0000 + b2 * 0x100 + b1, b0);
    Arithmetic.DivUnique(v / 0x100, 0x100, b3 * 0x100 + b2, b1);
    Arithmetic.DivUnique(v, 0x1_0000, b3 * 0x100 + b2, b1 * 0x100 + b0);
    Arithmetic.DivUnique(v / 0x1_0000, 0x100, b3, b2);
    Arithmetic.DivUnique(v, 0x100_0000, b3, b2 * 0x1_0000 + b1 * 0x100 + b0);
  }

  function StoreWord(w: Word): seq<Byte> {
    [(w & 0xff) as Byte, ((w >> 8) & 0xff) as Byte, ((w >> 16) & 0xff) as Byte, ((w >> 24) & 0xff) as Byte]
  }

  lemma SwappedWordIsBigEndian(w: Word)
    ensures StoreWord(Swap(w)) == WordBytes(w)
  {
  }

  /** In memory order the initial value counts up through the nibbles and down again. */
  lemma InitialCounts()
    ensures StoreWord(INITIAL.a) + StoreWord(INITIAL.b) == [0x01, 0x23, 0x45, 0x67, 0x89, 0xab, 0xcd, 0xef]
    ensures StoreWord(INITIAL.c) + StoreWord(INITIAL.d) == [0xfe, 0xdc, 0xba, 0x98, 0x76, 0x54, 0x32, 0x10]
    ensures StoreWord(INITIAL.e) == [0xf0, 0xe1, 0xd2, 0xc3]
  {
  }

  method Memcpy(dst: array<Byte>, at: nat, src: seq<Byte>)
    requires at + |src| <= dst.Length
    modifies dst
    ensures dst[..at] == old(dst[..at])
    ensures dst[at..at + |src|] == src
    ensures dst[at + |src|..] == old(dst[at + |src|..])
  {
    forall i | 0 <= i < |src| {
      dst[at + i] := src[i];
    }
  }

  /** `memcpy` inside one array, which is only defined when the two ranges do not overlap. */
  method MemcpyWithin(a: array<Byte>, at: nat, from: nat, n: nat)
    requires at + n <= from && from + n <= a.Length
    modifies a
    ensures a[..at] == old(a[..at])
    ensures a[at..at + n] == old(a[from..from + n])
    ensures a[at + n..] == old(a[at + n..])
  {
    Memcpy(a, at, a[from..from + n]);
  }

  class Context {
    var A: Word
    var B: Word
    var C: Word
    var D: Word
    var E: Word
    var low: Uint32
    var high: Uint32
    var buflen: nat
    const buffer: array<Byte>
    /** Every byte handed to the context so far. */
    ghost var absorbed: seq<Byte>

    ghost predicate Valid()
      reads this, buffer
    {
      buflen <= 64 && Staged()
    }

    /** The buffer, up to its whole 128 bytes, holds what is absorbed and not yet compressed. */
    ghost predicate Staged()
      reads this, buffer
    {
      && buffer.Length == 128
      && buflen <= 128
      && buflen <= |absorbed|
      && (|absorbed| - buflen) % 64 == 0
      && buffer[..buflen] == absorbed[|absorbed| - buflen..]
      && State() == Chain(INITIAL, absorbed[..|absorbed| - buflen])
    }

    ghost function State(): Hash
      reads this
    {
      Hash(A, B, C, D, E)
    }

    /** The counter holds the number of bytes already compressed, modulo 2^64. */
    ghost predicate CountExact()
      reads this
    {
      |absorbed| >= buflen && Counts(|absorbed| - buflen)
    }

    constructor ()
      ensures Valid() && CountExact() && fresh(buffer)
      ensures absorbed == []
    {
      A, B, C, D, E := 0x67452301, 0xefcdab89, 0x98badcfe, 0x10325476, 0xc3d2e1f0;
      low, high, buflen := 0, 0, 0;
      buffer := new Byte[128];
      absorbed := [];
    }

    method ProcessBlock(data: seq<Byte>)
      requires |data| % 64 == 0
      modifies this`A, this`B, this`C, this`D, this`E, this`low, this`high
      ensures State() == Chain(old(State()), data)
      ensures (low, high) == AddCount(old(low), old(high), |data|)
    {
      var count := AddCount(low, high, |data|);
      low, high := count.0, count.1;
      var h := ProcessBlocks(Hash(A, B, C, D, E), data);
      A, B, C, D, E := h.a, h.b, h.c, h.d, h.e;
    }

    /** Compress `data`, the continuation of what is already compressed, and count its bytes. */
    method CompressNext(data: seq<Byte>, ghost done: seq<Byte>)
      requires |data| % 64 == 0 && |done| % 64 == 0
      requires State() == Chain(INITIAL, done)
      modifies this`A, this`B, this`C, this`D, this`E, this`low, this`high
      ensures State() == Chain(INITIAL, done + data)
      ensures old(Counts(|done|)) && |data| < 0x1_0000_0000 ==> Counts(|done| + |data|)
    {
      hide Compress, Chain, AddCount;
      ChainConcat(INITIAL, done, data);
      if Counts(|done|) && |data| < 0x1_0000_0000 {
        CountStep(low, high, |done|, |data|);
      }
      ProcessBlock(data);
    }

    /** The counter holds `n` modulo 2^64. */
    ghost predicate Counts(n: nat)
      reads this`low, this`high
    {
      high * 0x1_0000_0000 + low == n % 0x1_0000_0000_0000_0000
    }

    /** `unaligned` says whether the part of `data` left after topping up the buffer is misaligned. */
    method ProcessBytes(data: seq<Byte>, unaligned: bool)
      requires Valid()
      modifies this, buffer
      ensures Valid()
      ensures absorbed == old(absorbed) + data
      ensures old(CountExact()) && (unaligned || |data| < 0x1_0000_0000) ==> CountExact()
    {
      hide Chain;
      ghost var start := absorbed;
      var rest := data;
      if buflen != 0 {
        rest := TopUp(rest);
      }
      assert start + data == absorbed + rest;
      if |rest| >= 64 {
        if unaligned {
          rest := DrainUnaligned(rest);
        } else {
          rest := DrainAligned(rest);
        }
      }
      assert start + data == absorbed + rest;
      if |rest| > 0 {
        StoreTail(rest);
      }
    }

    /** Fill the buffer from a non-empty state and drain its whole blocks once it exceeds 64 bytes. */
    method TopUp(data: seq<Byte>) returns (rest: seq<Byte>)
      requires Valid() && buflen != 0
      modifies this, buffer
      ensures Valid() && old(absorbed) + data == absorbed + rest
      ensures rest != [] ==> buflen == 0
      ensures |rest| <= |data|
      ensures old(CountExact()) ==> CountExact()
    {
      hide Chain, CountExact;
      var leftOver := buflen;
      var add := if 128 - leftOver > |data| then |data| else 128 - leftOver;
      Fill(data[..add]);
      if buflen > 64 {
        DrainBuffer();
      }
      rest := data[add..];
      assert data == data[..add] + rest;
    }

    method Fill(data: seq<Byte>)
      requires Valid() && buflen + |data| <= 128
      modifies this`buflen, this`absorbed, buffer
      ensures Staged() && buflen == old(buflen) + |data| && absorbed == old(absorbed) + data
      ensures old(CountExact()) ==> CountExact()
    {
      hide Chain;
      ghost var done := absorbed[..|absorbed| - buflen];
      Memcpy(buffer, buflen, data);
      absorbed := absorbed + data;
      assert buffer[..buflen + |data|] == buffer[..buflen] + buffer[buflen..buflen + |data|];
      buflen := buflen + |data|;
      assert done == absorbed[..|absorbed| - buflen];
    }

    method DrainBuffer()
      requires Staged() && buflen > 64
      modifies this, buffer
      ensures Valid() && buflen == old(buflen) % 64 && absorbed == old(absorbed)
      ensures old(CountExact()) ==> CountExact()
    {
      hide Chain, Counts, Staged;
      StagedSplits();
      ghost var done := absorbed[..|absorbed| - buflen];
      var left := buflen % 64;
      var whole := buflen - left;
      CompressNext(buffer[..whole], done);
      ghost var tail := absorbed[|absorbed| - left..];
      MemcpyWithin(buffer, 0, whole, left);
      assert buffer[..left] == buffer[0..left] == tail;
      buflen := left;
      IsStaged();
    }

    /** The whole blocks at the front of a buffer that holds more than one, and what is left behind them. */
    lemma StagedSplits()
      requires Staged() && buflen > 64
      ensures buffer.Length == 128 && buflen <= 128 && buflen <= |absorbed|
      ensures var left := buflen % 64;
        var whole, done := buflen - left, absorbed[..|absorbed| - buflen];
        && (whole == 64 || whole == 128) && left <= whole && |done| % 64 == 0
        && State() == Chain(INITIAL, done)
        && done + buffer[..whole] == absorbed[..|absorbed| - left]
        && buffer[whole..whole + left] == absorbed[|absorbed| - left..]
    {
      hide Chain;
      var left := buflen % 64;
      var whole := buflen - left;
      assert whole == if buflen == 128 then 128 else 64;
      var staged := buffer[..buflen];
      SplitStaged(absorbed, staged, left);
      assert buffer[..whole] == staged[..whole] && buffer[whole..buflen] == staged[whole..];
    }

    lemma IsStaged()
      requires buffer.Length == 128 && buflen < 64 && buflen <= |absorbed| && (|absorbed| - buflen) % 64 == 0
      requires buffer[..buflen] == absorbed[|absorbed| - buflen..]
      requires State() == Chain(INITIAL, absorbed[..|absorbed| - buflen])
      ensures Valid()
    {
    }

    method DrainUnaligned(data: seq<Byte>) returns (rest: seq<Byte>)
      requires Valid() && buflen == 0 && |data| >= 64
      modifies this, buffer
      ensures Valid() && buflen == 0 && old(absorbed) + data == absorbed + rest
      ensures |rest| <= 64
      ensures old(CountExact()) ==> CountExact()
    {
      hide Chain;
      rest := data;
      while |rest| > 64
        invariant Valid() && buflen == 0 && old(absorbed) + data == absorbed + rest
        invariant old(CountExact()) ==> CountExact()
      {
        StoreTail(rest[..64]);
        assert rest == rest[..64] + rest[64..];
        rest := rest[64..];
      }
    }

    method DrainAligned(data: seq<Byte>) returns (rest: seq<Byte>)
      requires Valid() && buflen == 0 && |data| >= 64
      modifies this
      ensures Valid() && buflen == 0 && old(absorbed) + data == absorbed + rest
      ensures |rest| < 64
      ensures old(CountExact()) && |data| < 0x1_0000_0000 ==> CountExact()
    {
      hide Chain;
      var whole := |data| - |data| % 64;
      AbsorbBlocks(data[..whole]);
      rest := data[whole..];
      assert data == data[..whole] + rest;
    }

    /** `sha1_process_block` on memory outside the context, while nothing is staged. */
    method AbsorbBlocks(data: seq<Byte>)
      requires Valid() && buflen == 0 && |data| % 64 == 0
      modifies this
      ensures Valid() && buflen == 0 && absorbed == old(absorbed) + data
      ensures old(CountExact()) && |data| < 0x1_0000_0000 ==> CountExact()
    {
      hide Chain;
      assert absorbed == absorbed[..|absorbed| - buflen];
      CompressNext(data, absorbed);
      absorbed := absorbed + data;
      assert absorbed == absorbed[..|absorbed| - buflen];
    }

    /** Keep at most 64 bytes for later, compressing them at once when they make a block. */
    method StoreTail(data: seq<Byte>)
      requires Valid() && buflen == 0 && 0 < |data| <= 64
      modifies this, buffer
      ensures Valid() && absorbed == old(absorbed) + data
      ensures |data| == 64 ==> buflen == 0
      ensures old(CountExact()) ==> CountExact()
    {
      hide Chain;
      var leftOver := buflen;
      assert absorbed == absorbed[..|absorbed| - buflen];
      Memcpy(buffer, leftOver, data);
      assert buffer[..|data|] == buffer[0..|data|] == data;
      leftOver := leftOver + |data|;
      if leftOver >= 64 {
        CompressNext(buffer[..64], absorbed);
        leftOver := leftOver - 64;
        MemcpyWithin(buffer, 0, 64, leftOver);
      }
      absorbed := absorbed + data;
      buflen := leftOver;
      assert absorbed[..|absorbed| - buflen] == if |data| == 64 then absorbed else old(absorbed);
    }

    /** Write the padding behind the staged bytes, compress the last one or two blocks, read the digest. */
    method Finish() returns (digest: seq<Byte>)
      requires Valid()
      modifies this, buffer
      ensures |digest| == 20
      ensures old(CountExact()) ==> digest == Digest(old(absorbed))
    {
      hide Chain, AddCount, LengthField, CountBytes, Padded, HashBytes, Zeros, Digest;
      var bytes := buflen;
      ghost var done := absorbed[..|absorbed| - bytes];
      var size := if bytes < 56 then 16 else 32;
      ghost var staged, exact := buffer[..bytes], CountExact();
      assert done + staged == absorbed;
      if exact {
        CountStep(low, high, |done|, bytes);
      }
      var count := AddCount(low, high, bytes);
      low, high := count.0, count.1;
      Pad(bytes, size);
      ghost var last := buffer[..4 * size];
      ProcessBlock(buffer[..4 * size]);
      digest := Read();
      if exact {
        LastBlocks(done, staged, size, count.0, count.1, last);
      }
    }

    /** Place the padding and the length behind `bytes` staged bytes. */
    method Pad(bytes: nat, size: nat)
      requires buffer.Length == 128 && bytes <= 64 && size == if bytes < 56 then 16 else 32
      modifies buffer
      ensures buffer[..4 * size]
           == old(buffer[..bytes]) + [0x80] + Zeros(4 * size - bytes - 9) + CountBytes(low, high)
    {
      hide Staged, CountBytes;
      var at := 4 * (size - 2);
      PadLength(at);
      ghost var length := buffer[at..][..8];
      var fillbuf: seq<Byte> := seq(64, i => if i == 0 then 0x80 else 0);
      Memcpy(buffer, bytes, fillbuf[..at - bytes]);
      assert fillbuf[..at - bytes] == [0x80] + Zeros(at - bytes - 1);
      assert buffer[at..at + 8] == buffer[at..][..8] == length;
      assert buffer[..4 * size] == buffer[..bytes] + buffer[bytes..at] + buffer[at..at + 8];
    }

    /** Store the bit count, most significant word first. */
    method PadLength(at: nat)
      requires at + 8 <= buffer.Length
      modifies buffer
      ensures buffer[..at] == old(buffer[..at])
      ensures buffer[at..][..8] == CountBytes(low, high)
    {
      hide StoreNat, NatBytes, SwapNat;
      LengthWordsBound(low, high);
      var bitsHigh := high * 8 % 0x1_0000_0000 + low / 0x2000_0000;
      var bitsLow := low * 8 % 0x1_0000_0000;
      SwappedStoreIsBigEndian(bitsHigh);
      SwappedStoreIsBigEndian(bitsLow);
      Memcpy(buffer, at, StoreNat(SwapNat(bitsHigh)));
      Memcpy(buffer, at + 4, StoreNat(SwapNat(bitsLow)));
      assert buffer[..at] == buffer[..at + 4][..at];
      assert buffer[at..at + 4] == buffer[..at + 4][at..] == NatBytes(bitsHigh);
      assert buffer[at..][..8] == buffer[at..at + 4] + buffer[at + 4..at + 8];
    }

    /** The hash in the byte order of FIPS 180-4. */
    method Read() returns (r: seq<Byte>)
      ensures r == HashBytes(State())
    {
      hide WordBytes;
      SwappedWordIsBigEndian(A);
      SwappedWordIsBigEndian(B);
      SwappedWordIsBigEndian(C);
      SwappedWordIsBigEndian(D);
      SwappedWordIsBigEndian(E);
      r := StoreWord(Swap(A)) + StoreWord(Swap(B)) + StoreWord(Swap(C)) + StoreWord(Swap(D)) + StoreWord(Swap(E));
    }
  }

  lemma LengthWordsBound(low: Uint32, high: Uint32)
    ensures high * 8 % 0x1_0000_0000 + low / 0x2000_0000 < 0x1_0000_0000
  {
    Arithmetic.DivUnique(high * 8, 0x1_0000_0000, high / 0x2000_0000, high % 0x2000_0000 * 8);
  }

  /** The two length words stored at the end of the last block. */
  function CountBytes(low: Uint32, high: Uint32): (r: seq<Byte>)
    ensures |r| == 8
  {
    LengthWordsBound(low, high);
    NatBytes(high * 8 % 0x1_0000_0000 + low / 0x2000_0000) + NatBytes(low * 8 % 0x1_0000_0000)
  }

  lemma CountBytesIsLengthField(low: Uint32, high: Uint32, n: nat)
    requires high * 0x1_0000_0000 + low == n % 0x1_0000_0000_0000_0000
    ensures CountBytes(low, high) == LengthField(n)
  {
    hide NatBytes;
    LengthWords(low, high, n / 0x1_0000_0000_0000_0000);
  }

  lemma LengthWords(low: Uint32, high: Uint32, q: nat)
    ensures var n := q * 0x1_0000_0000_0000_0000 + high * 0x1_0000_0000 + low;
      && 8 * n % 0x1_0000_0000 == low * 8 % 0x1_0000_0000
      && 8 * n / 0x1_0000_0000 % 0x1_0000_0000 == high * 8 % 0x1_0000_0000 + low / 0x2000_0000
  {
    var n := q * 0x1_0000_0000_0000_0000 + high * 0x1_0000_0000 + low;
    var top, bottom := low / 0x2000_0000, low % 0x2000_0000;
    Arithmetic.DivUnique(low * 8, 0x1_0000_0000, top, bottom * 8);
    Arithmetic.DivUnique(8 * n, 0x1_0000_0000, q * 0x8_0000_0000 + 8 * high + top, bottom * 8);
    LengthWordsBound(low, high);
    Arithmetic.DivUnique(8 * n / 0x1_0000_0000, 0x1_0000_0000,
              q * 8 + high * 8 / 0x1_0000_0000, high * 8 % 0x1_0000_0000 + top);
  }

  /** What `Pad` leaves behind the compressed blocks is the tail of the padded message. */
  lemma PaddedTail(done: seq<Byte>, staged: seq<Byte>, size: nat)
    requires |done| % 64 == 0 && |staged| <= 64 && size == if |staged| < 56 then 16 else 32
    ensures Padded(done + staged)
         == done + (staged + [0x80] + Zeros(4 * size - |staged| - 9) + LengthField(|done + staged|))
  {
    assert (55 - |done + staged|) % 64 == 4 * size - |staged| - 9;
  }

  /** The chain over the last blocks ends in the chain over the padded message. */
  lemma LastBlocks(done: seq<Byte>, staged: seq<Byte>, size: nat, low: Uint32, high: Uint32, last: seq<Byte>)
    requires |done| % 64 == 0 && |staged| <= 64 && size == if |staged| < 56 then 16 else 32
    requires high * 0x1_0000_0000 + low == |done + staged| % 0x1_0000_0000_0000_0000
    requires last == staged + [0x80] + Zeros(4 * size - |staged| - 9) + CountBytes(low, high)
    ensures HashBytes(Chain(Chain(INITIAL, done), last)) == Digest(done + staged)
  {
    hide Chain, LengthField, CountBytes, Padded, HashBytes, Zeros;
    CountBytesIsLengthField(low, high, |done + staged|);
    PaddedTail(done, staged, size);
    ChainConcat(INITIAL, done, last);
  }

  lemma CountStep(low: Uint32, high: Uint32, n: nat, len: nat)
    requires high * 0x1_0000_0000 + low == n % 0x1_0000_0000_0000_0000
    requires len < 0x1_0000_0000
    ensures var (low', high') := AddCount(low, high, len);
      high' * 0x1_0000_0000 + low' == (n + len) % 0x1_0000_0000_0000_0000
  {
    hide AddCount;
    CarryTestIsExact(low, high, len);
    ModAdd(n, len);
  }

  lemma ModAdd(x: nat, y: nat)
    ensures (x % 0x1_0000_0000_0000_0000 + y) % 0x1_0000_0000_0000_0000 == (x + y) % 0x1_0000_0000_0000_0000
  {
  }

  lemma SplitStaged(all: seq<Byte>, staged: seq<Byte>, left: nat)
    requires left <= |staged| <= |all| && staged == all[|all| - |staged|..]
    ensures all[..|all| - |staged|] + staged[..|staged| - left] == all[..|all| - left]
    ensures staged[|staged| - left..] == all[|all| - left..]
  {
  }

  method ProcessBlocks(start: Hash, data: seq<Byte>) returns (h: Hash)
    requires |data| % 64 == 0
    ensures h == Chain(start, data)
  {
    hide Compress;
    h := start;
    var at := 0;
    assert data[at..] == data;
    while at < |data|
      invariant at <= |data| && at % 64 == 0
      invariant Chain(h, data[at..]) == Chain(start, data)
    {
      ChainStep(h, data, at);
      h := ProcessOneBlock(h, data[at..at + 64]);
      at := at + 64;
    }
  }

  lemma ChainStep(h: Hash, data: seq<Byte>, at: nat)
    requires at + 64 <= |data|
    ensures Chain(h, data[at..]) == Chain(Compress(h, data[at..at + 64]), data[at + 64..])
  {
    assert data[at..][..64] == data[at..at + 64] && data[at..][64..] == data[at + 64..];
  }

  /** `sha1_buffer`: the digest of one piece of memory. */
  method Sha1Buffer(data: seq<Byte>, unaligned: bool) returns (digest: seq<Byte>)
    ensures unaligned || |data| < 0x1_0000_0000 ==> digest == Digest(data)
  {
    var ctx := new Context();
    ctx.ProcessBytes(data, unaligned);
    assert [] + data == data;
    digest := ctx.Finish();
  }

  datatype Piece = Piece(data: seq<Byte>, unaligned: bool)

  function Joined(pieces: seq<Piece>): seq<Byte> {
    if pieces == [] then [] else Joined(pieces[..|pieces| - 1]) + pieces[|pieces| - 1].data
  }

  /** However a message is cut into calls, empty and misaligned pieces included, the digest is that of the whole. */
  method Sha1OfPieces(pieces: seq<Piece>) returns (digest: seq<Byte>)
    requires forall p | p in pieces :: p.unaligned || |p.data| < 0x1_0000_0000
    ensures digest == Digest(Joined(pieces))
  {
    var ctx := new Context();
    for i := 0 to |pieces|
      invariant ctx.Valid() && ctx.CountExact() && fresh(ctx) && fresh(ctx.buffer)
      invariant ctx.absorbed == Joined(pieces[..i])
    {
      assert pieces[..i + 1][..i] == pieces[..i];
      ctx.ProcessBytes(pieces[i].data, pieces[i].unaligned);
    }
    assert pieces[..|pieces|] == pieces;
    digest := ctx.Finish();
  }

  /** How a read turns out: how much it delivers at most, and whether an error cuts it short. */
  datatype ReadStep = ReadStep(atMost: nat, fault: bool)

  /** A C stream: `rest` is still to be read, `plan` says how the coming reads turn out. */
  class Stream {
    var rest: seq<Byte>
    var plan: seq<ReadStep>
    /** The error and the end-of-file indicator; neither is ever cleared. */
    var failed: bool
    var ended: bool
    /** The last read delivered nothing. */
    ghost var dry: bool

    constructor (data: seq<Byte>, plan: seq<ReadStep>)
      ensures rest == data && !failed && !ended
    {
      rest, this.plan, failed, ended, dry := data, plan, false, false, false;
    }

    /** `fread`: a result short of `k` may come with an error; an empty one comes with an error or at the end. */
    method Read(k: nat) returns (chunk: seq<Byte>)
      requires k > 0
      modifies this
      ensures |chunk| <= k && old(rest) == chunk + rest
      ensures dry <==> chunk == []
      ensures chunk == [] ==> failed || rest == []
      ensures old(failed) ==> failed
      ensures failed && !old(failed) ==> |chunk| < k
      ensures old(ended) ==> ended
      ensures ended && !old(ended) ==> |chunk| < k && rest == []
    {
      var step := if plan == [] then ReadStep(k, false) else plan[0];
      plan := if plan == [] then [] else plan[1..];
      var want := if step.atMost >= k then k else if step.atMost == 0 && !step.fault && !failed then 1 else step.atMost;
      var n := if want <= |rest| then want else |rest|;
      failed := failed || (step.fault && n < k);
      ended := ended || (n < k && n == |rest| && !step.fault);
      chunk := rest[..n];
      rest := rest[n..];
      dry := n == 0;
    }
  }

  datatype ChunkEnd = Full | Last | Failed

  /**
   Collect BLOCKSIZE bytes, or what is left before the end of the stream, or fail. When the end was
   noted before the call, the first bytes delivered are taken for the last ones.
   */
  method ReadChunk(stream: Stream) returns (chunk: seq<Byte>, end: ChunkEnd)
    modifies stream
    ensures old(stream.rest) == chunk + stream.rest
    ensures |chunk| <= BLOCKSIZE
    ensures end == Full ==> |chunk| == BLOCKSIZE && stream.ended == old(stream.ended) && !stream.dry
    ensures end == Last ==> (stream.rest == [] || old(stream.ended)) && !(stream.failed && stream.dry)
    ensures end == Failed <==> stream.failed && stream.dry
  {
    chunk := [];
    while true
      invariant |chunk| < BLOCKSIZE && stream.ended == old(stream.ended)
      invariant old(stream.ended) ==> chunk == []
      invariant old(stream.rest) == chunk + stream.rest
      decreases BLOCKSIZE - |chunk|
    {
      var piece := stream.Read(BLOCKSIZE - |chunk|);
      chunk := chunk + piece;
      if |chunk| == BLOCKSIZE {
        return chunk, Full;
      }
      if |piece| == 0 {
        return chunk, if stream.failed then Failed else Last;
      }
      if stream.ended {
        return chunk, Last;
      }
    }
  }

  /**
   `sha1_stream`: whole chunks are compressed in place, the last one goes through the buffer. An error
   that comes with bytes is passed over; the call fails exactly when a read delivers nothing while
   the error indicator is set, and otherwise the digest is that of all that was read: everything in
   the stream, unless its end was noted before the call.
   */
  method Sha1Stream(stream: Stream) returns (ok: bool, digest: seq<Byte>)
    modifies stream
    ensures |stream.rest| <= |old(stream.rest)|
    ensures ok ==> digest == Digest(old(stream.rest)[..|old(stream.rest)| - |stream.rest|])
    ensures ok ==> stream.rest == [] || old(stream.ended)
    ensures ok <==> !(stream.failed && stream.dry)
  {
    hide Chain, Digest, Context.Staged;
    ghost var all, ended := stream.rest, stream.ended;
    var ctx := new Context();
    while true
      invariant stream.ended == ended
      invariant ctx.Valid() && ctx.CountExact() && ctx.buflen == 0 && fresh(ctx) && fresh(ctx.buffer)
      invariant all == ctx.absorbed + stream.rest
      decreases |stream.rest|
    {
      var chunk, end := ReadChunk(stream);
      ReadSoFar(all, ctx.absorbed, chunk, stream.rest);
      if end == Failed {
        return false, [];
      }
      if end == Last {
        if |chunk| > 0 {
          ctx.ProcessBytes(chunk, false);
        }
        digest := ctx.Finish();
        return true, digest;
      }
      ctx.AbsorbBlocks(chunk);
    }
  }

  lemma ReadSoFar(all: seq<Byte>, before: seq<Byte>, chunk: seq<Byte>, rest: seq<Byte>)
    requires all == before + (chunk + rest)
    ensures all == before + chunk + rest && all[..|all| - |rest|] == before + chunk
    ensures chunk == [] ==> before + chunk == before
  {
  }
}
