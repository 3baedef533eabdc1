/**
 The converter of include/utils_qt/utils_from_qt5.h: a copier that moves ASCII in blocks of 16
 and, where a block is not all ASCII, a hint that tells the scalar decoder how far to go before
 blocks are tried again. `spacing` is the number of mask bits a byte contributes: 1 when built
 for SSE2, 2 when built for AVX2. Addresses are indices; `base` is where the output starts.
 */
module Utf8Converter {
  import opened Arithmetic
  import opened Unicode
  import opened Wrappers

  /** The mask the vector unit returns: one bit in `spacing` for every byte, the first byte lowest. */
  function Mask(s: seq<Byte>, spacing: nat): nat {
    if s == [] then 0
    else (if s[0] >= 0x80 then 1 else 0) + (if spacing == 1 then 2 else 4) * Mask(s[1..], spacing)
  }

  /** The index of the highest bit that is set. */
  function BitScanReverse(n: nat): nat
    requires n > 0
  {
    if n == 1 then 0 else 1 + BitScanReverse(n / 2)
  }

  lemma {:induction false} MaskIsZeroOnAscii(s: seq<Byte>, spacing: nat)
    ensures Mask(s, spacing) == 0 <==> Ascii(s)
  {
    if s != [] {
      MaskIsZeroOnAscii(s[1..], spacing);
      assert s == s[..1] + s[1..];
      assert Ascii(s) <==> s[0] < 0x80 && Ascii(s[1..]);
    }
  }

  /** The highest mask bit belongs to the last byte that is not ASCII. */
  lemma {:induction false} HighestBitIsLastNonAscii(s: seq<Byte>, spacing: nat)
    requires spacing == 1 || spacing == 2
    requires Mask(s, spacing) > 0
    ensures var last := BitScanReverse(Mask(s, spacing)) / spacing;
      last < |s| && s[last] >= 0x80 && Ascii(s[last + 1..])
  {
    hide Ascii, BitScanReverse, Mask;
    MaskHead(s, spacing);
    var tail := s[1..];
    var rest := Mask(tail, spacing);
    MaskIsZeroOnAscii(tail, spacing);
    if rest > 0 {
      HighestBitIsLastNonAscii(tail, spacing);
      HighestBitShifts(if s[0] >= 0x80 then 1 else 0, rest, spacing);
      OneByteOn(BitScanReverse(rest), spacing);
      var last := BitScanReverse(rest) / spacing;
      assert tail[last + 1..] == s[last + 2..] && tail[last] == s[last + 1];
    } else {
      HighestBitOfOne();
    }
  }

  lemma OneByteOn(bit: nat, spacing: nat)
    requires spacing == 1 || spacing == 2
    ensures (bit + spacing) / spacing == bit / spacing + 1
  {
    if spacing == 2 {
      assert (bit + 2) / 2 == bit / 2 + 1;
    }
  }

  lemma MaskHead(s: seq<Byte>, spacing: nat)
    requires (spacing == 1 || spacing == 2) && Mask(s, spacing) > 0
    ensures s != []
    ensures Mask(s, spacing)
         == (if s[0] >= 0x80 then 1 else 0) + (if spacing == 1 then 2 else 4) * Mask(s[1..], spacing)
  {
  }

  lemma HighestBitOfOne()
    ensures BitScanReverse(1) == 0
  {
  }

  lemma HighestBitShifts(bit: nat, n: nat, spacing: nat)
    requires bit <= 1 && n > 0 && (spacing == 1 || spacing == 2)
    ensures BitScanReverse(bit + (if spacing == 1 then 2 else 4) * n) == BitScanReverse(n) + spacing
  {
    if spacing == 2 {
      assert (bit + 4 * n) / 2 == 2 * n;
      assert (2 * n) / 2 == n;
    } else {
      assert (bit + 2 * n) / 2 == n;
    }
  }

  /** `done` says that the input is used up; if not, the byte at `src'` stopped the copier. */
  method SimdDecodeAscii(chars: seq<Byte>, dest: array<Utf16>, dst: nat, src: nat, nextAscii: nat, spacing: nat)
    returns (done: bool, dst': nat, src': nat, nextAscii': nat)
    requires spacing == 1 || spacing == 2
    requires src <= |chars| && dst + (|chars| - src) <= dest.Length
    modifies dest
    ensures src <= src' <= |chars| && dst' - dst == src' - src
    ensures Ascii(chars[src..src'])
    ensures dest[dst..dst'] == chars[src..src']
    ensures forall k | 0 <= k < dst || dst' <= k < dest.Length :: dest[k] == old(dest[k])
    ensures done <==> src' == |chars|
    ensures (|chars| - src' < 16 && nextAscii' == nextAscii) || LastNonAsciiOfBlock(chars, src', nextAscii')
  {
    hide Ascii, Mask, BitScanReverse, LastNonAsciiOfBlock;
    dst', src', nextAscii' := dst, src, nextAscii;
    AsciiNone(chars, src);
    while |chars| - src' >= 16
      invariant src <= src' <= |chars| && dst' - dst == src' - src
      invariant Ascii(chars[src..src'])
      invariant dest[dst..dst'] == chars[src..src']
      invariant forall k | 0 <= k < dst || dst' <= k < dest.Length :: dest[k] == old(dest[k])
    {
      var data := chars[src'..src' + 16];
      var n := Mask(data, spacing);
      MaskIsZeroOnAscii(data, spacing);
      if n != 0 {
        ghost var block, mid, written := src', dst', dest[dst..dst'];
        dst', src', n := CopyAsciiFront(chars, dest, dst', src', n, spacing);
        nextAscii' := src' + BitScanReverse(n) / spacing + 1;
        HintIsLastNonAscii(chars, src', block + 16, spacing);
        AsciiJoins(chars, src, block, src');
        assert dest[dst..mid] == written;
        SliceOfArrayJoins(dest, dst, mid, dst');
        return false, dst', src', nextAscii';
      }
      ghost var written := dest[dst..dst'];
      StoreBlock(dest, dst', data);
      AsciiJoins(chars, src, src', src' + 16);
      assert dest[dst..dst'] == written;
      SliceOfArrayJoins(dest, dst, dst', dst' + 16);
      src', dst' := src' + 16, dst' + 16;
    }
    done := src' == |chars|;
  }

  /** `next` is one past the last byte that is not ASCII in a block that begins at or before `src`. */
  ghost predicate LastNonAsciiOfBlock(chars: seq<Byte>, src: nat, next: nat) {
    && src < next <= |chars|
    && chars[src] >= 0x80 && chars[next - 1] >= 0x80
    && exists end :: next <= end <= |chars| && src < end <= src + 16 && Ascii(chars[next..end])
  }

  lemma HintIsLastNonAscii(chars: seq<Byte>, src: nat, end: nat, spacing: nat)
    requires spacing == 1 || spacing == 2
    requires src < end <= |chars| && end <= src + 16
    requires Mask(chars[src..end], spacing) > 0 && chars[src] >= 0x80
    ensures LastNonAsciiOfBlock(chars, src, src + BitScanReverse(Mask(chars[src..end], spacing)) / spacing + 1)
  {
    hide Mask, BitScanReverse;
    HighestBitIsLastNonAscii(chars[src..end], spacing);
    var next := src + BitScanReverse(Mask(chars[src..end], spacing)) / spacing + 1;
    assert chars[src..end][next - src..] == chars[next..end];
  }

  lemma AsciiNone(chars: seq<Byte>, at: nat)
    requires at <= |chars|
    ensures Ascii(chars[at..at])
  {
  }

  lemma AsciiJoins(chars: seq<Byte>, from: nat, mid: nat, to: nat)
    requires from <= mid <= to <= |chars|
    requires Ascii(chars[from..mid]) && Ascii(chars[mid..to])
    ensures Ascii(chars[from..to])
    ensures chars[from..to] == chars[from..mid] + chars[mid..to]
  {
    assert chars[from..to] == chars[from..mid] + chars[mid..to];
  }

  /** One 16-word store. */
  method StoreBlock(dest: array<Utf16>, at: nat, data: seq<Byte>)
    requires at + |data| <= dest.Length
    modifies dest
    ensures dest[at..at + |data|] == data
    ensures forall k | 0 <= k < at || at + |data| <= k < dest.Length :: dest[k] == old(dest[k])
  {
    forall i | 0 <= i < |data| {
      dest[at + i] := data[i];
    }
  }

  method CopyAsciiFront(chars: seq<Byte>, dest: array<Utf16>, dst: nat, src: nat, mask: nat, spacing: nat)
    returns (dst': nat, src': nat, n: nat)
    requires spacing == 1 || spacing == 2
    requires src + 16 <= |chars| && dst + 16 <= dest.Length
    requires mask == Mask(chars[src..src + 16], spacing) > 0
    modifies dest
    ensures src <= src' < src + 16 && dst' - dst == src' - src
    ensures Ascii(chars[src..src']) && chars[src'] >= 0x80
    ensures n == Mask(chars[src'..src + 16], spacing) > 0
    ensures dest[dst..dst'] == chars[src..src']
    ensures forall k | 0 <= k < dst || dst' <= k < dest.Length :: dest[k] == old(dest[k])
  {
    hide Mask, Ascii;
    dst', src', n := dst, src, mask;
    AsciiNone(chars, src);
    MaskStep(chars, src, src + 16, spacing);
    while n % 2 == 0
      invariant src <= src' < src + 16 && dst' - dst == src' - src
      invariant Ascii(chars[src..src'])
      invariant n == Mask(chars[src'..src + 16], spacing) > 0 && (n % 2 == 1 <==> chars[src'] >= 0x80)
      invariant forall k | dst <= k < dst' :: dest[k] == chars[src + (k - dst)]
      invariant forall k | 0 <= k < dst || dst' <= k < dest.Length :: dest[k] == old(dest[k])
      decreases src + 16 - src'
    {
      MaskStep(chars, src', src + 16, spacing);
      AsciiGrows(chars, src, src');
      dest[dst'] := chars[src'];
      dst', src' := dst' + 1, src' + 1;
      n := n / (if spacing == 1 then 2 else 4);
      MaskStep(chars, src', src + 16, spacing);
    }
    SlicesAgree(dest, dst, chars, src, src' - src);
  }

  lemma SliceOfArrayJoins(dest: array<Utf16>, i: nat, j: nat, k: nat)
    requires i <= j <= k <= dest.Length
    ensures dest[i..k] == dest[i..j] + dest[j..k]
  {
  }

  lemma SlicesAgree(dest: array<Utf16>, dst: nat, chars: seq<Byte>, src: nat, n: nat)
    requires dst + n <= dest.Length && src + n <= |chars|
    requires forall k | dst <= k < dst + n :: dest[k] == chars[src + (k - dst)]
    ensures dest[dst..dst + n] == chars[src..src + n]
  {
    var written, read := dest[dst..dst + n], chars[src..src + n];
    forall j | 0 <= j < n
      ensures written[j] == read[j]
    {
      assert dest[dst + j] == chars[src + j];
    }
  }

  lemma AsciiGrows(chars: seq<Byte>, src: nat, src': nat)
    requires src <= src' < |chars| && Ascii(chars[src..src']) && chars[src'] < 0x80
    ensures Ascii(chars[src..src' + 1])
  {
    SliceGrows(chars, src, src');
  }

  /** The lowest mask bit tells whether the first byte is ASCII; the others are the mask of the rest. */
  lemma MaskStep(chars: seq<Byte>, src: nat, end: nat, spacing: nat)
    requires spacing == 1 || spacing == 2
    requires src < end <= |chars| && Mask(chars[src..end], spacing) > 0
    ensures var n, rest := Mask(chars[src..end], spacing), chars[src + 1..end];
      && (n % 2 == 1 <==> chars[src] >= 0x80)
      && (n % 2 == 0 ==> n / (if spacing == 1 then 2 else 4) == Mask(rest, spacing) > 0 && src + 1 < end)
  {
    var s := chars[src..end];
    assert s[1..] == chars[src + 1..end];
    MaskParts(s, spacing);
  }

  lemma MaskParts(s: seq<Byte>, spacing: nat)
    requires (spacing == 1 || spacing == 2) && s != [] && Mask(s, spacing) > 0
    ensures var n, rest := Mask(s, spacing), Mask(s[1..], spacing);
      && (n % 2 == 1 <==> s[0] >= 0x80)
      && (n % 2 == 0 ==> n / (if spacing == 1 then 2 else 4) == rest > 0 && |s| > 1)
  {
    var rest := Mask(s[1..], spacing);
    if spacing == 1 {
      DivUnique(Mask(s, spacing), 2, rest, Mask(s, spacing) - 2 * rest);
    } else {
      DivUnique(Mask(s, spacing), 4, rest, Mask(s, spacing) - 4 * rest);
      DivUnique(Mask(s, spacing), 2, 2 * rest, Mask(s, spacing) - 4 * rest);
    }
  }

  /** The words written so far and the bytes still to come make up the wanted output. */
  ghost predicate Halfway(written: seq<Utf16>, rest: seq<Byte>, goal: seq<Utf16>) {
    written + Decode(rest) == goal
  }

  /** One turn of the scalar loop: the decoder's words, or one replacement for one bad byte. */
  method DecodeScalar(chars: seq<Byte>, dest: array<Utf16>, dst: nat, src: nat) returns (dst': nat, src': nat)
    requires src < |chars| && dst + (|chars| - src) <= dest.Length
    modifies dest
    ensures src < src' <= |chars| && dst < dst' && dst' - dst <= src' - src
    ensures dest[dst..dst'] + Decode(chars[src'..]) == Decode(chars[src..])
    ensures forall k | 0 <= k < dst || dst' <= k < dest.Length :: dest[k] == old(dest[k])
  {
    hide SequenceLength, Value, Encode16;
    var rest := chars[src..];
    var used := SequenceLength(rest);
    assert rest[DecodeOne(rest).used..] == chars[src + DecodeOne(rest).used..];
    if used == 0 {
      dest[dst] := REPLACEMENT;
      dst', src' := dst + 1, src + 1;
    } else {
      var words := Encode16(Value(rest));
      dest[dst] := words[0];
      if |words| == 2 {
        dest[dst + 1] := words[1];
      }
      dst', src' := dst + |words|, src + used;
    }
    assert dest[dst..dst'] == DecodeOne(rest).words;
  }

  /**
   The output is what the scalar decoder alone makes of the input without one leading byte order
   mark. It needs no more words than the input has bytes, and nothing else in `dest` is touched.
   */
  method Convert(chars: seq<Byte>, dest: array<Utf16>, base: nat, spacing: nat) returns (n: nat)
    requires spacing == 1 || spacing == 2
    requires base + |chars| <= dest.Length
    modifies dest
    ensures n <= |chars|
    ensures dest[base..base + n] == Decode(WithoutBom(chars))
    ensures forall k | 0 <= k < base || base + n <= k < dest.Length :: dest[k] == old(dest[k])
  {
    hide Decode, WithoutBom, Ascii, Halfway, LastNonAsciiOfBlock;
    ghost var goal := Decode(WithoutBom(chars));
    var done, dst, src, nextAscii := SimdDecodeAscii(chars, dest, base, 0, |chars|, spacing);
    FirstRun(chars, src);
    if !done {
      if src == 0 && |chars| >= 3 && chars[..3] == [0xEF, 0xBB, 0xBF] {
        src := 3;
      }
      while src < |chars|
        invariant src <= |chars| && base <= dst && dst - base <= src
        invariant Halfway(dest[base..dst], chars[src..], goal)
        invariant forall k | 0 <= k < base || dst <= k < dest.Length :: dest[k] == old(dest[k])
        decreases |chars| - src
      {
        nextAscii := |chars|;
        done, dst, src, nextAscii := NextRun(chars, dest, base, dst, src, nextAscii, spacing, goal);
        if done {
          break;
        }
        dst, src := DecodeUntil(chars, dest, base, dst, src, nextAscii, goal);
      }
    }
    AllConverted(dest[base..dst], chars[src..], goal);
    n := dst - base;
  }

  /** `SimdDecodeAscii` behind output that is already there. */
  method NextRun(chars: seq<Byte>, dest: array<Utf16>, base: nat, dst: nat, src: nat, nextAscii: nat, spacing: nat,
                 ghost goal: seq<Utf16>)
    returns (done: bool, dst': nat, src': nat, nextAscii': nat)
    requires spacing == 1 || spacing == 2
    requires base + |chars| <= dest.Length
    requires src < |chars| == nextAscii && base <= dst && dst - base <= src
    requires Halfway(dest[base..dst], chars[src..], goal)
    modifies dest
    ensures src <= src' <= |chars| && nextAscii' <= |chars| && dst <= dst' && dst' - base <= src'
    ensures done <==> src' == |chars|
    ensures Halfway(dest[base..dst'], chars[src'..], goal)
    ensures forall k | 0 <= k < base || dst' <= k < dest.Length :: dest[k] == old(dest[k])
  {
    hide Decode, Ascii, Halfway;
    ghost var written := dest[base..dst];
    done, dst', src', nextAscii' := SimdDecodeAscii(chars, dest, dst, src, nextAscii, spacing);
    AsciiRun(written, chars, src, src', goal);
    assert dest[base..dst'] == written + dest[dst..dst'];
  }

  /** The scalar loop runs at least once and stops at the first boundary not before `nextAscii`. */
  method DecodeUntil(chars: seq<Byte>, dest: array<Utf16>, base: nat, dst: nat, src: nat, nextAscii: nat,
                     ghost goal: seq<Utf16>)
    returns (dst': nat, src': nat)
    requires base + |chars| <= dest.Length
    requires src < |chars| && nextAscii <= |chars| && base <= dst && dst - base <= src
    requires Halfway(dest[base..dst], chars[src..], goal)
    modifies dest
    ensures src < src' <= |chars| && nextAscii <= src' && dst < dst' && dst' - base <= src'
    ensures Halfway(dest[base..dst'], chars[src'..], goal)
    ensures forall k | 0 <= k < base || dst' <= k < dest.Length :: dest[k] == old(dest[k])
  {
    hide Decode, Halfway;
    dst', src' := dst, src;
    while true
      invariant src <= src' < |chars| && dst <= dst' && dst' - base <= src'
      invariant Halfway(dest[base..dst'], chars[src'..], goal)
      invariant forall k | 0 <= k < base || dst' <= k < dest.Length :: dest[k] == old(dest[k])
      decreases |chars| - src'
    {
      dst', src' := DecodeNext(chars, dest, base, dst', src', goal);
      if src' >= nextAscii {
        break;
      }
    }
  }

  /** `DecodeScalar` behind output that is already there. */
  method DecodeNext(chars: seq<Byte>, dest: array<Utf16>, base: nat, dst: nat, src: nat, ghost goal: seq<Utf16>)
    returns (dst': nat, src': nat)
    requires base + |chars| <= dest.Length
    requires src < |chars| && base <= dst && dst - base <= src
    requires Halfway(dest[base..dst], chars[src..], goal)
    modifies dest
    ensures src < src' <= |chars| && dst < dst' && dst' - base <= src'
    ensures Halfway(dest[base..dst'], chars[src'..], goal)
    ensures forall k | 0 <= k < base || dst' <= k < dest.Length :: dest[k] == old(dest[k])
  {
    hide Decode;
    ghost var written := dest[base..dst];
    dst', src' := DecodeScalar(chars, dest, dst, src);
    assert dest[base..dst'] == written + dest[dst..dst'];
  }

  /** After the first run of blocks and the step over a mark, the rest of the loop can take over. */
  lemma FirstRun(chars: seq<Byte>, src: nat)
    requires src <= |chars| && Ascii(chars[0..src])
    ensures var start := if src == 0 && |chars| >= 3 && chars[..3] == [0xEF, 0xBB, 0xBF] then 3 else src;
      Halfway(chars[0..src], chars[start..], Decode(WithoutBom(chars)))
  {
    hide Decode;
    if src > 0 {
      assert chars[0] == chars[0..src][0] < 0x80;
    }
    assert chars == chars[0..src] + chars[src..];
    DecodeAscii(chars[0..src], chars[src..]);
  }

  lemma AllConverted(written: seq<Utf16>, rest: seq<Byte>, goal: seq<Utf16>)
    requires Halfway(written, rest, goal)
    ensures rest == [] ==> written == goal
  {
  }

  lemma AsciiRun(written: seq<Utf16>, chars: seq<Byte>, from: nat, src: nat, goal: seq<Utf16>)
    requires from <= src <= |chars| && Ascii(chars[from..src])
    requires Halfway(written, chars[from..], goal)
    ensures Halfway(written + chars[from..src], chars[src..], goal)
  {
    hide Decode;
    assert chars[from..] == chars[from..src] + chars[src..];
    DecodeAscii(chars[from..src], chars[src..]);
  }

  /**
   On the UTF-8 encoding of scalar values the result is their UTF-16 encoding, less one leading mark, and
   reads back as those values.
   */
  lemma ConvertsEncodedText(vs: seq<Scalar>)
    ensures Decode(WithoutBom(EncodeAll8(vs)))
         == EncodeAll16(if vs != [] && vs[0] == 0xFEFF then vs[1..] else vs)
    ensures ReadAll16(Decode(WithoutBom(EncodeAll8(vs))))
         == Some(if vs != [] && vs[0] == 0xFEFF then vs[1..] else vs)
  {
    hide Decode, Encode8, Encode16, Value;
    EncodeAll16IsRead(if vs != [] && vs[0] == 0xFEFF then vs[1..] else vs);
    DecodeTranscodes(vs);
    if vs != [] {
      var head, rest := Encode8(vs[0]), EncodeAll8(vs[1..]);
      Encode8IsRead(vs[0], rest);
      BomIsRead(head + rest);
      if vs[0] == 0xFEFF {
        assert (head + rest)[..3] == head == [0xEF, 0xBB, 0xBF] && (head + rest)[3..] == rest;
        DecodeTranscodes(vs[1..]);
      }
    }
  }

  lemma BomIsRead(s: seq<Byte>)
    ensures Encode8(0xFEFF) == [0xEF, 0xBB, 0xBF]
    ensures |s| >= 3 && s[..3] == [0xEF, 0xBB, 0xBF] ==> SequenceLength(s) > 0 && Value(s) == 0xFEFF
  {
    if |s| >= 3 && s[..3] == [0xEF, 0xBB, 0xBF] {
      assert s[0] == s[..3][0] && s[1] == s[..3][1] && s[2] == s[..3][2];
    }
  }
}
