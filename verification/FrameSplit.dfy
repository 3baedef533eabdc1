/**
 The reference for the wire format of trace_proto/header.h: a frame is a 4-byte header, one byte
 of version and three bytes of payload length, and a payload of that length.
 */
module FrameSplit {
  import opened Arithmetic

  const HEADER_SIZE: nat := 4

  type Bytes = seq<Byte>

  /** The low byte of the header word is the version, the other three are the payload length. */
  function PayloadLength(header: Bytes): (n: nat)
    requires |header| >= HEADER_SIZE
    ensures n < 0x100_0000
  {
    var b1: nat, b2: nat, b3: nat := header[1], header[2], header[3];
    b1 + b2 * 0x100 + b3 * 0x1_0000
  }

  predicate Complete(s: Bytes) {
    |s| >= HEADER_SIZE && |s| >= HEADER_SIZE + PayloadLength(s)
  }

  function FirstFrame(s: Bytes): (n: nat)
    requires Complete(s)
    ensures HEADER_SIZE <= n <= |s|
  {
    HEADER_SIZE + PayloadLength(s)
  }

  /** The complete frames at the head of `s`. */
  function Split(s: Bytes): seq<Bytes>
    decreases |s|
  {
    if Complete(s) then [s[..FirstFrame(s)]] + Split(s[FirstFrame(s)..]) else []
  }

  /** What follows the last complete frame. */
  function Remainder(s: Bytes): Bytes
    decreases |s|
  {
    if Complete(s) then Remainder(s[FirstFrame(s)..]) else s
  }

  lemma {:induction false} SplitExtends(s: Bytes, t: Bytes)
    ensures Split(s + t) == Split(s) + Split(Remainder(s) + t)
    ensures Remainder(s + t) == Remainder(Remainder(s) + t)
    decreases |s|
  {
    if Complete(s) {
      var n := FirstFrame(s);
      CompleteExtends(s, t);
      assert (s + t)[..n] == s[..n] && (s + t)[n..] == s[n..] + t;
      SplitExtends(s[n..], t);
    }
  }

  lemma CompleteExtends(s: Bytes, t: Bytes)
    requires Complete(s)
    ensures Complete(s + t) && FirstFrame(s + t) == FirstFrame(s)
  {
    assert forall i | 0 <= i < |s| :: (s + t)[i] == s[i];
  }

  /** Every frame, the one at the end that is not complete included, has version 1 and fits `room`. */
  ghost predicate WellFormed(s: Bytes, room: nat)
    decreases |s|
  {
    |s| >= HEADER_SIZE ==>
      && s[0] == 1
      && HEADER_SIZE + PayloadLength(s) <= room
      && (Complete(s) ==> WellFormed(s[FirstFrame(s)..], room))
  }

  lemma {:induction false} WellFormedRemainder(s: Bytes, t: Bytes, room: nat)
    requires WellFormed(s + t, room)
    ensures WellFormed(Remainder(s) + t, room)
    decreases |s|
  {
    if Complete(s) {
      var n := FirstFrame(s);
      CompleteExtends(s, t);
      assert (s + t)[n..] == s[n..] + t;
      WellFormedRemainder(s[n..], t, room);
    }
  }

  lemma OneFrame(s: Bytes)
    requires Complete(s) && FirstFrame(s) == |s|
    ensures Split(s) == [s] && Remainder(s) == []
  {
    assert s[..|s|] == s && s[|s|..] == [];
  }

  function Payload(frame: Bytes): Bytes {
    if |frame| >= HEADER_SIZE then frame[HEADER_SIZE..] else []
  }

  predicate Sendable(payload: Bytes) { |payload| < 0x100_0000 }

  /** What a sender writes: one 32-bit word with the version in 8 bits and the length in 24, then the payload. */
  function Frame(payload: Bytes): Bytes
    requires Sendable(payload)
  {
    IntBytes(1 + |payload| * 0x100) + payload
  }

  /** The header a sender writes announces the length of the payload behind it. */
  lemma HeaderIsRead(n: nat, t: Bytes)
    requires n < 0x100_0000
    ensures var s := IntBytes(1 + n * 0x100) + t; s[0] == 1 && PayloadLength(s) == n
  {
    var v := 1 + n * 0x100;
    SplitIntoBytes(v);
    DivUnique(v, 0x100, n, 1);
  }

  lemma FrameIsRead(payload: Bytes, t: Bytes)
    requires Sendable(payload)
    ensures var s, f := Frame(payload) + t, Frame(payload);
      && Complete(s) && FirstFrame(s) == |f| && s[0] == 1
      && s[..|f|] == f && s[|f|..] == t && Payload(f) == payload
  {
    hide IntBytes, PayloadLength;
    HeaderIsRead(|payload|, payload + t);
    assert Frame(payload) + t == IntBytes(1 + |payload| * 0x100) + (payload + t);
  }

  lemma FrameIsSplit(payload: Bytes, t: Bytes, room: nat)
    requires Sendable(payload)
    ensures var s := Frame(payload) + t;
      && Split(s) == [Frame(payload)] + Split(t) && Remainder(s) == Remainder(t)
      && (WellFormed(s, room) <==> HEADER_SIZE + |payload| <= room && WellFormed(t, room))
  {
    hide Frame, PayloadLength;
    FrameIsRead(payload, t);
    assert |Frame(payload)| == HEADER_SIZE + |payload| by {
      FrameLength(payload);
    }
  }

  lemma FrameLength(payload: Bytes)
    requires Sendable(payload)
    ensures |Frame(payload)| == HEADER_SIZE + |payload|
  {
  }

  function Frames(ps: seq<Bytes>): (fs: seq<Bytes>)
    requires forall p | p in ps :: Sendable(p)
    ensures |fs| == |ps|
  {
    seq(|ps|, i requires 0 <= i < |ps| => Frame(ps[i]))
  }

  /** The bytes of all frames, one behind the other. */
  function Stream(ps: seq<Bytes>): Bytes
    requires forall p | p in ps :: Sendable(p)
  {
    if ps == [] then [] else Frame(ps[0]) + Stream(ps[1..])
  }

  /** Splitting undoes framing, whatever follows. */
  lemma {:induction false} StreamIsSplit(ps: seq<Bytes>, t: Bytes, room: nat)
    requires forall p | p in ps :: Sendable(p)
    ensures Split(Stream(ps) + t) == Frames(ps) + Split(t) && Remainder(Stream(ps) + t) == Remainder(t)
    ensures WellFormed(Stream(ps) + t, room) <==>
      WellFormed(t, room) && forall p | p in ps :: HEADER_SIZE + |p| <= room
  {
    hide Frame, Split, Remainder, WellFormed;
    if ps == [] {
      assert Stream(ps) + t == t;
    } else {
      var tail := Stream(ps[1..]) + t;
      assert Stream(ps) + t == Frame(ps[0]) + tail;
      FrameIsSplit(ps[0], tail, room);
      StreamIsSplit(ps[1..], t, room);
      assert Frames(ps) == [Frame(ps[0])] + Frames(ps[1..]);
    }
  }

  lemma NoFrame()
    ensures Split([]) == []
  {
  }

  /** A stream that was cut off anywhere splits into the first of the payloads that were sent. */
  lemma PayloadsInOrder(ps: seq<Bytes>, received: Bytes)
    requires (forall p | p in ps :: Sendable(p)) && received <= Stream(ps)
    ensures var fs := Split(received);
      |fs| <= |ps| && fs == Frames(ps)[..|fs|] && forall k | 0 <= k < |fs| :: Payload(fs[k]) == ps[k]
  {
    hide Frame, Payload, Split, Remainder, WellFormed;
    var rest := Stream(ps)[|received|..];
    StreamIsSplit(ps, [], 0);
    assert received + rest == Stream(ps) == Stream(ps) + [];
    SplitExtends(received, rest);
    var fs := Split(received);
    assert Split(Stream(ps)) == Frames(ps) by {
      NoFrame();
    }
    assert fs == Frames(ps)[..|fs|];
    forall k | 0 <= k < |fs|
      ensures Payload(fs[k]) == ps[k]
    {
      FrameIsRead(ps[k], []);
      assert Frames(ps)[k] == Frame(ps[k]);
    }
  }
}
