/**
 The reference for text: UTF-8 well-formedness as the grammar of RFC 3629, section 4, states it,
 UTF-16 words as RFC 2781, section 2.1, forms them, and the scalar decoder that replaces each
 byte it cannot use by U+FFFD.
 */
module Unicode {
  import opened Arithmetic
  import opened Wrappers

  type Utf16 = x: nat | x < 0x1_0000
  type Scalar = x: nat | x < 0xD800 || 0xE000 <= x < 0x11_0000

  const REPLACEMENT: Utf16 := 0xFFFD

  predicate Tail(b: Byte) { 0x80 <= b <= 0xBF }

  /** The length of the well-formed sequence at the head of `s`, or 0 when there is none. */
  function SequenceLength(s: seq<Byte>): (n: nat)
    ensures n <= 4 && n <= |s|
  {
    if |s| >= 1 && s[0] <= 0x7F then 1
    else if |s| >= 2 && 0xC2 <= s[0] <= 0xDF && Tail(s[1]) then 2
    else if |s| >= 3 && Lead3(s[0], s[1]) && Tail(s[2]) then 3
    else if |s| >= 4 && Lead4(s[0], s[1]) && Tail(s[2]) && Tail(s[3]) then 4
    else 0
  }

  predicate Lead3(b0: Byte, b1: Byte) {
    || (b0 == 0xE0 && 0xA0 <= b1 <= 0xBF)
    || (0xE1 <= b0 <= 0xEC && Tail(b1))
    || (b0 == 0xED && 0x80 <= b1 <= 0x9F)
    || (0xEE <= b0 <= 0xEF && Tail(b1))
  }

  predicate Lead4(b0: Byte, b1: Byte) {
    || (b0 == 0xF0 && 0x90 <= b1 <= 0xBF)
    || (0xF1 <= b0 <= 0xF3 && Tail(b1))
    || (b0 == 0xF4 && 0x80 <= b1 <= 0x8F)
  }

  /** The scalar value of a well-formed sequence. */
  function Value(s: seq<Byte>): (v: Scalar)
    requires SequenceLength(s) > 0
  {
    match SequenceLength(s)
    case 1 => s[0]
    case 2 => Digits(0, 0, s[0] - 0xC0, s[1] - 0x80)
    case 3 => Digits(0, s[0] - 0xE0, s[1] - 0x80, s[2] - 0x80)
    case _ => Digits(s[0] - 0xF0, s[1] - 0x80, s[2] - 0x80, s[3] - 0x80)
  }

  /** A number from its base-64 digits. */
  function Digits(d3: nat, d2: nat, d1: nat, d0: nat): nat {
    d3 * 0x4_0000 + d2 * 0x1000 + d1 * 0x40 + d0
  }

  lemma DigitsAreUnique(d3: nat, d2: nat, d1: nat, d0: nat)
    requires d0 < 0x40 && d1 < 0x40 && d2 < 0x40
    ensures var v := Digits(d3, d2, d1, d0);
      && v % 0x40 == d0 && v / 0x40 % 0x40 == d1 && v / 0x1000 % 0x40 == d2 && v / 0x4_0000 == d3
      && v / 0x40 == d3 * 0x1000 + d2 * 0x40 + d1 && v / 0x1000 == d3 * 0x40 + d2
  {
    var v := Digits(d3, d2, d1, d0);
    DivUnique(v, 0x40, d3 * 0x1000 + d2 * 0x40 + d1, d0);
    DivUnique(v / 0x40, 0x40, d3 * 0x40 + d2, d1);
    DivUnique(v, 0x1000, d3 * 0x40 + d2, d1 * 0x40 + d0);
    DivUnique(v / 0x1000, 0x40, d3, d2);
    DivUnique(v, 0x4_0000, d3, d2 * 0x1000 + d1 * 0x40 + d0);
  }

  function Encode16(v: Scalar): (w: seq<Utf16>)
    ensures 1 <= |w| <= 2
  {
    if v < 0x1_0000 then [v]
    else [0xD800 + (v - 0x1_0000) / 0x400, 0xDC00 + (v - 0x1_0000) % 0x400]
  }

  /**
   RFC 2781, section 2.2: the scalar value at the head of `w` and the words behind it; nothing when the
   head is a surrogate that is not the first of a pair.
   */
  function Read16(w: seq<Utf16>): (r: Option<(Scalar, seq<Utf16>)>)
    requires w != []
    ensures r.Some? ==> |r.value.1| < |w|
  {
    var hi: nat := w[0];
    if hi < 0xD800 || hi > 0xDFFF then Some((hi, w[1..]))
    else if hi > 0xDBFF || |w| == 1 then None
    else
      var lo: nat := w[1];
      if lo < 0xDC00 || lo > 0xDFFF then None else Some((0x1_0000 + (hi - 0xD800) * 0x400 + (lo - 0xDC00), w[2..]))
  }

  /** The scalar values that UTF-16 text stands for, if it is well-formed. */
  function ReadAll16(w: seq<Utf16>): Option<seq<Scalar>>
    decreases |w|
  {
    if w == [] then Some([])
    else
      match Read16(w)
      case None => None
      case Some((v, rest)) =>
        match ReadAll16(rest)
        case None => None
        case Some(vs) => Some([v] + vs)
  }

  /** Reading a pair of surrogates back undoes how it was formed. */
  lemma Encode16IsRead(v: Scalar, t: seq<Utf16>)
    ensures Read16(Encode16(v) + t) == Some((v, t))
  {
    assert (Encode16(v) + t)[|Encode16(v)|..] == t;
    if v >= 0x1_0000 {
      assert v - 0x1_0000 == (v - 0x1_0000) / 0x400 * 0x400 + (v - 0x1_0000) % 0x400;
    }
  }

  /** UTF-16 text formed from scalar values reads back as them, so different texts never look alike. */
  lemma {:induction false} EncodeAll16IsRead(vs: seq<Scalar>)
    ensures ReadAll16(EncodeAll16(vs)) == Some(vs)
  {
    if vs != [] {
      Encode16IsRead(vs[0], EncodeAll16(vs[1..]));
      EncodeAll16IsRead(vs[1..]);
      assert [vs[0]] + vs[1..] == vs;
    }
  }

  lemma {:induction false} EncodeAll16Joins(vs: seq<Scalar>, us: seq<Scalar>)
    ensures EncodeAll16(vs + us) == EncodeAll16(vs) + EncodeAll16(us)
  {
    if vs == [] {
      assert vs + us == us;
    } else {
      assert (vs + us)[1..] == vs[1..] + us;
      EncodeAll16Joins(vs[1..], us);
    }
  }

  lemma {:induction false} EncodeAsciiIsSame(vs: seq<Scalar>)
    requires forall i | 0 <= i < |vs| :: vs[i] < 0x80
    ensures |EncodeAll16(vs)| == |vs| && forall i | 0 <= i < |vs| :: EncodeAll16(vs)[i] == vs[i]
  {
    if vs != [] {
      EncodeAsciiIsSame(vs[1..]);
      assert EncodeAll16(vs) == [vs[0]] + EncodeAll16(vs[1..]);
    }
  }

  /** What one call of the scalar decoder does at the head of a non-empty `s`. */
  datatype Decoded = Decoded(used: nat, words: seq<Utf16>)

  function DecodeOne(s: seq<Byte>): (d: Decoded)
    requires s != []
    ensures 1 <= d.used <= |s| && 1 <= |d.words| <= d.used
  {
    var n := SequenceLength(s);
    if n == 0 then Decoded(1, [REPLACEMENT]) else Decoded(n, Encode16(Value(s)))
  }

  /**
   A byte is skipped for the one word U+FFFD exactly when no encoding of a scalar value starts there;
   otherwise the whole encoding is consumed for the words of that value.
   */
  lemma DecodeOneIff(s: seq<Byte>, v: Scalar, t: seq<Byte>)
    requires s != []
    ensures s == Encode8(v) + t ==>
      DecodeOne(s).used == |Encode8(v)| && Read16(DecodeOne(s).words) == Some((v, []))
    ensures (forall u: Scalar :: !(Encode8(u) <= s)) ==> DecodeOne(s).used == 1 && DecodeOne(s).words == [0xFFFD]
  {
    hide Encode8, Value, Encode16, Read16;
    if s == Encode8(v) + t {
      Encode8IsRead(v, t);
      Encode16IsRead(v, []);
      assert Encode16(v) + [] == Encode16(v);
    }
    if SequenceLength(s) > 0 {
      SequenceIsEncode8(s);
      assert Encode8(Value(s)) <= s;
    }
  }

  /** The plain scalar decoder, run to the end of the input. */
  function Decode(s: seq<Byte>): (w: seq<Utf16>)
    ensures |w| <= |s|
    decreases |s|
  {
    if s == [] then [] else DecodeOne(s).words + Decode(s[DecodeOne(s).used..])
  }

  /** Whatever the bytes, the output is well-formed UTF-16. */
  lemma {:induction false} DecodeIsText(s: seq<Byte>)
    ensures ReadAll16(Decode(s)).Some?
    decreases |s|
  {
    hide Encode16, Read16, SequenceLength, Value;
    if s != [] {
      var rest := s[DecodeOne(s).used..];
      DecodeIsText(rest);
      var v: Scalar := if SequenceLength(s) == 0 then 0xFFFD else Value(s);
      DecodeOneEncodes(s);
      Encode16IsRead(v, Decode(rest));
    }
  }

  lemma DecodeOneEncodes(s: seq<Byte>)
    requires s != []
    ensures DecodeOne(s).words == Encode16(if SequenceLength(s) == 0 then 0xFFFD else Value(s))
  {
  }

  function WithoutBom(s: seq<Byte>): seq<Byte> {
    if |s| >= 3 && s[..3] == [0xEF, 0xBB, 0xBF] then s[3..] else s
  }

  predicate Ascii(s: seq<Byte>) {
    forall i | 0 <= i < |s| :: s[i] < 0x80
  }

  lemma {:induction false} DecodeAscii(s: seq<Byte>, t: seq<Byte>)
    requires Ascii(s)
    ensures Decode(s + t) == s + Decode(t)
    decreases |s|
  {
    hide DecodeOne, Ascii;
    if s == [] {
      assert s + t == t;
    } else {
      var u := s + t;
      AsciiTail(s);
      DecodeOneAscii(u);
      assert u[1..] == s[1..] + t && u[..1] == s[..1];
      DecodeAscii(s[1..], t);
      assert Decode(u) == s[..1] + (s[1..] + Decode(t));
    }
  }

  lemma AsciiTail(s: seq<Byte>)
    requires Ascii(s) && s != []
    ensures s[0] < 0x80 && Ascii(s[1..])
  {
  }

  lemma DecodeOneAscii(s: seq<Byte>)
    requires s != [] && s[0] < 0x80
    ensures DecodeOne(s) == Decoded(1, s[..1])
  {
    assert SequenceLength(s) == 1;
  }

  /** RFC 3629, section 3: the octets of a scalar value. */
  function Encode8(v: Scalar): (s: seq<Byte>)
    ensures 1 <= |s| <= 4
  {
    if v < 0x80 then [v]
    else if v < 0x800 then [0xC0 + v / 0x40, 0x80 + v % 0x40]
    else if v < 0x1_0000 then [0xE0 + v / 0x1000, 0x80 + v / 0x40 % 0x40, 0x80 + v % 0x40]
    else [0xF0 + v / 0x4_0000, 0x80 + v / 0x1000 % 0x40, 0x80 + v / 0x40 % 0x40, 0x80 + v % 0x40]
  }

  function EncodeAll8(vs: seq<Scalar>): seq<Byte> {
    if vs == [] then [] else Encode8(vs[0]) + EncodeAll8(vs[1..])
  }

  function EncodeAll16(vs: seq<Scalar>): seq<Utf16> {
    if vs == [] then [] else Encode16(vs[0]) + EncodeAll16(vs[1..])
  }

  lemma Encode8IsRead(v: Scalar, t: seq<Byte>)
    ensures SequenceLength(Encode8(v) + t) == |Encode8(v)|
    ensures Value(Encode8(v) + t) == v
  {
    hide Encode8, Value, SequenceLength;
    Encode8IsShape(v);
    ShapeIsRead(Encode8(v), t);
    ShapeIsRead(Encode8(v), []);
    assert Encode8(v) + [] == Encode8(v);
    ValueOfEncode8(v);
  }

  predicate Shape(e: seq<Byte>) {
    match |e|
    case 1 => e[0] < 0x80
    case 2 => 0xC2 <= e[0] <= 0xDF && Tail(e[1])
    case 3 => Lead3(e[0], e[1]) && Tail(e[2])
    case 4 => Lead4(e[0], e[1]) && Tail(e[2]) && Tail(e[3])
    case _ => false
  }

  lemma Encode8IsShape(v: Scalar)
    ensures Shape(Encode8(v))
  {
    hide Lead3, Lead4;
    if 0x800 <= v < 0x1_0000 {
      ThreeByteLead(v);
    } else if v >= 0x1_0000 {
      FourByteLead(v);
    }
  }

  lemma ThreeByteLead(v: Scalar)
    requires 0x800 <= v < 0x1_0000
    ensures Lead3(0xE0 + v / 0x1000, 0x80 + v / 0x40 % 0x40)
  {
    DigitsOf(v);
  }

  lemma FourByteLead(v: Scalar)
    requires v >= 0x1_0000
    ensures Lead4(0xF0 + v / 0x4_0000, 0x80 + v / 0x1000 % 0x40)
  {
    DigitsOf(v);
  }

  lemma ShapeIsRead(e: seq<Byte>, t: seq<Byte>)
    requires Shape(e)
    ensures SequenceLength(e + t) == SequenceLength(e) == |e|
    ensures Value(e + t) == Value(e)
  {
    assert forall i | 0 <= i < |e| :: (e + t)[i] == e[i];
  }

  lemma ValueOfEncode8(v: Scalar)
    requires SequenceLength(Encode8(v)) == |Encode8(v)|
    ensures Value(Encode8(v)) == v
  {
    hide SequenceLength, Digits;
    DigitsOf(v);
  }

  lemma DigitsOf(v: nat)
    ensures v == Digits(0, 0, v / 0x40, v % 0x40)
    ensures v == Digits(0, v / 0x1000, v / 0x40 % 0x40, v % 0x40)
    ensures v == Digits(v / 0x4_0000, v / 0x1000 % 0x40, v / 0x40 % 0x40, v % 0x40)
  {
    var q := v / 0x40;
    var r := q / 0x40;
    DivUnique(v, 0x1000, r, q % 0x40 * 0x40 + v % 0x40);
    DivUnique(v, 0x4_0000, r / 0x40, r % 0x40 * 0x1000 + q % 0x40 * 0x40 + v % 0x40);
  }

  /** On text that encodes scalar values the scalar decoder is UTF-8 to UTF-16 transcoding. */
  lemma {:induction false} DecodeTranscodes(vs: seq<Scalar>)
    ensures Decode(EncodeAll8(vs)) == EncodeAll16(vs)
  {
    if vs != [] {
      var head, rest := Encode8(vs[0]), EncodeAll8(vs[1..]);
      Encode8IsRead(vs[0], rest);
      assert (head + rest)[|head|..] == rest;
      DecodeTranscodes(vs[1..]);
    }
  }

  /** A well-formed head is the encoding of its value, so the grammar admits no other sequence. */
  lemma SequenceIsEncode8(s: seq<Byte>)
    requires SequenceLength(s) > 0
    ensures s[..SequenceLength(s)] == Encode8(Value(s))
  {
    match SequenceLength(s)
    case 1 =>
    case 2 => DigitsAreUnique(0, 0, s[0] - 0xC0, s[1] - 0x80);
    case 3 => ThreeBytes(s[0], s[1], s[2]);
      assert s[..3] == [s[0], s[1], s[2]];
    case _ => FourBytes(s[0], s[1], s[2], s[3]);
      assert s[..4] == [s[0], s[1], s[2], s[3]];
  }

  lemma ThreeBytes(b0: Byte, b1: Byte, b2: Byte)
    requires Lead3(b0, b1) && Tail(b2)
    ensures Encode8(Digits(0, b0 - 0xE0, b1 - 0x80, b2 - 0x80)) == [b0, b1, b2]
  {
    DigitsAreUnique(0, b0 - 0xE0, b1 - 0x80, b2 - 0x80);
  }

  lemma FourBytes(b0: Byte, b1: Byte, b2: Byte, b3: Byte)
    requires Lead4(b0, b1) && Tail(b2) && Tail(b3)
    ensures Encode8(Digits(b0 - 0xF0, b1 - 0x80, b2 - 0x80, b3 - 0x80)) == [b0, b1, b2, b3]
  {
    DigitsAreUnique(b0 - 0xF0, b1 - 0x80, b2 - 0x80, b3 - 0x80);
  }
}
