/**
 The receiving side of trace_server/connection_stream.cpp: a resumable header and payload state
 machine over a receive buffer (trace_proto/decoder.h) and a bump allocator for decoded commands
 (include/membuffer.h) that is rewound only between batches.
 */
module Framing {
  import opened Arithmetic
  import opened FrameSplit

  const GROW_BYTES: nat := 16384
  const DECODER_ROOM: nat := 64 * 1024
  const BATCH_LIMIT: nat := 128

  /** `HeapBuffer` under `MemBuffer`: a vector of bytes of which the first `endOffset` are taken. */
  class MemBuffer {
    var heap: Bytes
    var endOffset: nat
    /** How often the vector was replaced; a replacement moves every byte. */
    ghost var moves: nat

    ghost predicate Valid()
      reads this
    {
      endOffset <= |heap|
    }

    constructor (capacity: nat)
      ensures Valid() && |heap| == capacity && endOffset == 0 && moves == 0
    {
      heap, endOffset, moves := seq(capacity, _ => 0), 0, 0;
    }

    function Available(): nat
      requires Valid()
      reads this
    {
      |heap| - endOffset
    }

    function CalcNextSize(): nat
      reads this
    {
      |heap| + GROW_BYTES
    }

    method ResizeStorage(n: nat)
      requires Valid() && endOffset <= n
      modifies this
      ensures Valid() && |heap| == n && endOffset == old(endOffset) && moves == old(moves) + 1
      ensures heap[..endOffset] == old(heap[..endOffset])
    {
      var tmp: Bytes := seq(n, _ => 0);
      heap := heap[..endOffset] + tmp[endOffset..];
      moves := moves + 1;
    }

    method MoveEnd(n: nat) returns (ok: bool)
      requires Valid()
      modifies this`endOffset
      ensures Valid()
      ensures ok <==> old(endOffset) + n <= |heap|
      ensures endOffset == if ok then old(endOffset) + n else old(endOffset)
    {
      ok := endOffset + n <= |heap|;
      if ok {
        endOffset := endOffset + n;
      }
    }

    method Malloc(size: nat) returns (ok: bool, mem: nat)
      requires Valid()
      modifies this
      ensures Valid()
      ensures old(endOffset) + size <= old(|heap|) ==> ok && heap == old(heap) && moves == old(moves)
      ensures old(endOffset) + size > old(|heap|) ==> moves == old(moves) + 1 && |heap| == old(|heap|) + GROW_BYTES
      ensures ok <==> old(endOffset) + size <= |heap|
      ensures ok ==> mem == old(endOffset) && endOffset == mem + size
      ensures !ok ==> endOffset == old(endOffset)
      ensures heap[..old(endOffset)] == old(heap[..endOffset])
    {
      mem := endOffset;
      ok := MoveEnd(size);
      if !ok {
        ResizeStorage(CalcNextSize());
        mem := endOffset;
        ok := MoveEnd(size);
      }
    }

    method Write(at: nat, data: Bytes)
      requires Valid() && at + |data| <= |heap|
      modifies this`heap
      ensures Valid() && |heap| == old(|heap|)
      ensures heap[..at] == old(heap[..at]) && heap[at..at + |data|] == data
    {
      heap := heap[..at] + data + heap[at + |data|..];
    }

    method Reset()
      modifies this`endOffset
      ensures endOffset == 0
    {
      endOffset := 0;
    }
  }

  /** A socket or file: `rest` has not been read yet, `plan` bounds what each coming read delivers. */
  class Source {
    var rest: Bytes
    var plan: seq<nat>
    /** The last read delivered less than was asked for. */
    ghost var short: bool

    constructor (data: Bytes, plan: seq<nat>)
      ensures rest == data && this.plan == plan
    {
      rest, this.plan, short := data, plan, false;
    }

    /** Nothing holds the coming reads back; if one was short, the data is at its end. */
    ghost predicate Willing()
      reads this
    {
      plan == [] && (short ==> rest == [])
    }

    /** An empty chunk stands for every count that is not positive. */
    method Read(max: nat) returns (chunk: Bytes)
      modifies this
      ensures |chunk| <= max && old(rest) == chunk + rest
      ensures short <==> |chunk| < max
      ensures old(plan) == [] ==> Willing()
    {
      var limit := if plan == [] then max else plan[0];
      plan := if plan == [] then [] else plan[1..];
      var n := if max <= limit && max <= |rest| then max else if limit <= |rest| then limit else |rest|;
      chunk, rest := rest[..n], rest[n..];
      short := |chunk| < max;
    }
  }

  /** What the decoder makes of a payload: the blocks it allocates, in order, and whether it succeeds. */
  datatype Decoding = Decoding(ok: bool, blocks: seq<Bytes>)

  function Joined(blocks: seq<Bytes>): Bytes {
    if blocks == [] then [] else Joined(blocks[..|blocks| - 1]) + blocks[|blocks| - 1]
  }

  /** The memory a handled command occupies until its batch is committed. */
  datatype Held = Held(start: nat, end: nat)

  datatype Result = Ok | NeedMore | DecodeFailed

  datatype Progress = Nothing | Partial | Full

  class Connection {
    const dcd: MemBuffer
    var hasHdr: bool
    var hasPayload: bool
    const asn1: MemBuffer
    /** The decoder is a function of the payload. */
    const decoder: Bytes -> Decoding

    /** Every byte read, every frame handed to the decoder. */
    ghost var received: Bytes
    ghost var frames: seq<Bytes>
    /** Handled commands that await commit, and the memory contents that past commits delivered. */
    ghost var pending: seq<Held>
    ghost var committed: seq<Bytes>
    /** Set once the allocator was rewound or replaced under a pending command. */
    ghost var clobbered: bool

    ghost predicate Valid()
      reads this, dcd, asn1
    {
      && dcd != asn1
      && !hasPayload
      && dcd.Valid()
      && BufferInStep()
      && AllocatorSound()
    }

    ghost function Buffered(): Bytes
      requires dcd.Valid()
      reads dcd
    {
      dcd.heap[..dcd.endOffset]
    }

    /** The receive buffer holds what follows the frames handed on. */
    ghost predicate BufferInStep()
      reads this`hasHdr, this`received, this`frames, dcd
    {
      && dcd.Valid() && |dcd.heap| == GROW_BYTES
      && (hasHdr <==> |Buffered()| >= HEADER_SIZE)
      && (Complete(Buffered()) ==> Stalled())
      && NoneEmpty(frames)
      && Split(received) == frames + Split(Buffered())
      && Remainder(received) == Remainder(Buffered())
    }

    /** A header that announces no payload: the next read asks for nothing and gets nothing. */
    ghost predicate Stalled()
      requires dcd.Valid()
      reads this`hasHdr, dcd
    {
      hasHdr && |Buffered()| == HEADER_SIZE && PayloadLength(Buffered()) == 0
    }

    /** The receive buffer holds one complete frame of the version the decoder knows. */
    ghost predicate FrameReady()
      reads this, dcd
    {
      && hasHdr && hasPayload && dcd != asn1
      && dcd.Valid() && |dcd.heap| == GROW_BYTES
      && Complete(Buffered()) && FirstFrame(Buffered()) == |Buffered()| && Buffered()[0] == 1
      && NoneEmpty(frames) && |Buffered()| > HEADER_SIZE
      && Split(received) == frames + Split(Buffered())
      && Remainder(received) == Remainder(Buffered())
    }

    ghost predicate AllocatorSound()
      reads this`pending, this`committed, this`clobbered, this`frames, asn1
    {
      && asn1.Valid() && |asn1.heap| >= DECODER_ROOM
      && (!clobbered ==>
        && HeldApart(pending, asn1.endOffset)
        && committed + Contents(asn1.heap, pending) == Outputs(frames, decoder))
    }

    constructor (decoder: Bytes -> Decoding)
      ensures Valid() && !hasHdr && received == [] && frames == [] && pending == [] && committed == [] && !clobbered
      ensures this.decoder == decoder && fresh(dcd) && fresh(asn1)
      ensures Buffered() == [] && asn1.Available() == DECODER_ROOM
    {
      this.decoder := decoder;
      dcd := new MemBuffer(GROW_BYTES);
      asn1 := new MemBuffer(DECODER_ROOM);
      hasHdr, hasPayload := false, false;
      received, frames, pending, committed, clobbered := [], [], [], [], false;
      new;
      hide Valid, Buffered, MemBuffer.Available, MemBuffer.Valid;
      StartsEmpty();
    }

    lemma StartsEmpty()
      requires dcd.Valid() && dcd.endOffset == 0 && asn1.Valid() && asn1.endOffset == 0 && dcd != asn1
      requires !hasHdr && !hasPayload && received == [] && frames == [] && committed == [] && pending == []
      requires |dcd.heap| == GROW_BYTES && |asn1.heap| == DECODER_ROOM
      ensures Valid() && Buffered() == [] && asn1.Available() == DECODER_ROOM
    {
      assert Buffered() == [];
      assert committed + Contents(asn1.heap, pending) == [];
    }

    /** Append what was read to the receive buffer; the frame in it is then complete or not. */
    method Receive(chunk: Bytes)
      requires Valid() && !Stalled() && chunk != []
      requires |Buffered() + chunk| <= GROW_BYTES
      requires hasHdr ==> |Buffered() + chunk| <= HEADER_SIZE + PayloadLength(Buffered())
      requires !hasHdr ==> |Buffered() + chunk| <= HEADER_SIZE
      modifies this`received, this`hasHdr, this`hasPayload, dcd
      ensures received == old(received) + chunk
      ensures dcd.Valid() && |dcd.heap| == GROW_BYTES
      ensures Buffered() == old(Buffered()) + chunk
      ensures hasHdr <==> |Buffered()| >= HEADER_SIZE
      ensures hasPayload <==> old(hasHdr) && Complete(Buffered()) && FirstFrame(Buffered()) == |Buffered()|
      ensures Split(received) == frames + Split(Buffered())
      ensures Remainder(received) == Remainder(Buffered())
    {
      hide Split, Remainder, AllocatorSound;
      ghost var before := Buffered();
      SplitExtends(received, chunk);
      RemainderIsBuffered();
      dcd.Write(dcd.endOffset, chunk);
      var _ := dcd.MoveEnd(|chunk|);
      received := received + chunk;
      assert Buffered() == before + chunk;
      assert forall i | 0 <= i < |before| :: Buffered()[i] == before[i];
      if !hasHdr {
        hasHdr := dcd.endOffset == HEADER_SIZE;
      } else {
        hasPayload := dcd.endOffset == HEADER_SIZE + PayloadLength(dcd.heap[..dcd.endOffset]);
      }
    }

    /** `onHandleCommandsCommit`: the pending commands are read where they lie, in order. */
    method Commit()
      requires AllocatorSound()
      modifies this`pending, this`committed
      ensures AllocatorSound() && pending == []
      ensures !clobbered ==> committed == old(committed + Contents(asn1.heap, pending)) == Outputs(frames, decoder)
    {
      if !clobbered {
        committed := committed + Contents(asn1.heap, pending);
      }
      pending := [];
      assert Contents(asn1.heap, []) == [];
      assert !clobbered ==> committed + [] == committed;
    }

    /** Rewinding the allocator is harmless exactly when nothing awaits commit. */
    method ResetAllocator()
      requires AllocatorSound()
      modifies asn1`endOffset, this`clobbered
      ensures AllocatorSound() && asn1.endOffset == 0
      ensures clobbered <==> old(clobbered) || pending != []
    {
      asn1.Reset();
      clobbered := clobbered || pending != [];
    }

    method GrowAllocator()
      requires AllocatorSound() && asn1.endOffset == 0
      modifies asn1, this`clobbered
      ensures AllocatorSound() && asn1.endOffset == 0 && |asn1.heap| == old(|asn1.heap|) + GROW_BYTES
      ensures clobbered <==> old(clobbered) || pending != []
    {
      asn1.ResizeStorage(asn1.CalcNextSize());
      clobbered := clobbered || pending != [];
      assert pending == [] ==> Contents(asn1.heap, pending) == old(Contents(asn1.heap, pending));
    }

    /** Make room for `estimate` bytes, after committing and rewinding when they are not there. */
    method EnsureRoom(estimate: nat, batch: nat) returns (batch': nat)
      requires AllocatorSound() && estimate <= DECODER_ROOM
      modifies this`pending, this`committed, this`clobbered, asn1
      ensures AllocatorSound() && estimate <= asn1.Available()
      ensures batch' == if old(asn1.Available()) < estimate then 0 else batch
      ensures old(asn1.Available()) < estimate ==> pending == [] && asn1.endOffset == 0
      ensures old(asn1.Available()) >= estimate ==>
        pending == old(pending) && asn1.endOffset == old(asn1.endOffset) && asn1.heap == old(asn1.heap)
      ensures clobbered == old(clobbered)
    {
      batch' := batch;
      if asn1.Available() < estimate {
        Commit();
        batch' := 0;
        ResetAllocator();
        GrowAllocator();
      }
    }

    /** `ber_decode`: allocate and fill one block after the other; no allocation moves the storage. */
    method BerDecode(payload: Bytes) returns (ok: bool, ghost start: nat)
      requires asn1.Valid() && |Joined(decoder(payload).blocks)| <= asn1.Available()
      modifies asn1
      ensures asn1.Valid() && asn1.moves == old(asn1.moves) && |asn1.heap| == old(|asn1.heap|)
      ensures ok == decoder(payload).ok
      ensures start == old(asn1.endOffset) <= asn1.endOffset
      ensures asn1.heap[..start] == old(asn1.heap[..asn1.endOffset])
      ensures asn1.heap[start..asn1.endOffset] == Joined(decoder(payload).blocks)
    {
      hide Joined;
      var d := decoder(payload);
      start := asn1.endOffset;
      NothingJoined(d.blocks);
      for i := 0 to |d.blocks|
        invariant asn1.Valid() && asn1.moves == old(asn1.moves) && |asn1.heap| == old(|asn1.heap|)
        invariant asn1.endOffset == start + |Joined(d.blocks[..i])|
        invariant asn1.heap[..start] == old(asn1.heap[..asn1.endOffset])
        invariant asn1.heap[start..asn1.endOffset] == Joined(d.blocks[..i])
      {
        JoinedPrefix(d.blocks, i);
        var fits, mem := asn1.Malloc(|d.blocks[i]|);
        ghost var before := asn1.heap;
        asn1.Write(mem, d.blocks[i]);
        BlockAdded(before, asn1.heap, start, mem, asn1.endOffset);
      }
      assert d.blocks[..|d.blocks|] == d.blocks;
      ok := d.ok;
    }

    /** `DecodingContext::resetCurrentCommand` after the frame in the buffer went to the decoder. */
    method NextFrame()
      requires FrameReady()
      modifies this`hasHdr, this`hasPayload, this`frames, dcd
      ensures !hasHdr && !hasPayload && BufferInStep() && dcd.endOffset == 0
      ensures frames == old(frames) + [old(Buffered())]
    {
      OneFrame(Buffered());
      frames := frames + [Buffered()];
      hasHdr, hasPayload := false, false;
      dcd.Reset();
      assert Buffered() == [];
    }

    /** Decode and handle the complete frame in the receive buffer. */
    method HandleFrame(batch: nat) returns (ok: bool, batch': nat)
      requires FrameReady() && AllocatorSound() && Frugal(decoder)
      modifies this`hasHdr, this`hasPayload, this`frames, this`pending, this`committed, this`clobbered, dcd, asn1
      ensures Valid() && !hasHdr && dcd.endOffset == 0
      ensures frames == old(frames) + [old(Buffered())]
      ensures ok == decoder(Payload(old(Buffered()))).ok
      ensures ok ==> clobbered == old(clobbered) && 0 < batch' <= batch + 1
      ensures !ok ==> (clobbered <==> old(clobbered) || pending != [])
      ensures var kept := if old(asn1.Available()) < 4 * |Payload(old(Buffered()))| then [] else old(pending);
        if ok then |pending| == |kept| + 1 && kept <= pending else pending == kept
      ensures ok && old(asn1.Available()) >= 4 * |Payload(old(Buffered()))| ==>
        asn1.Available() >= old(asn1.Available()) - 4 * |Payload(old(Buffered()))|
    {
      hide Contents, Outputs, Split, Remainder, NoneEmpty, BufferInStep;
      ghost var frame := Buffered();
      var payload := dcd.heap[HEADER_SIZE..dcd.endOffset];
      assert payload == Payload(frame);
      batch' := EnsureRoom(|payload| * 4, batch);
      ghost var before, heap := pending, asn1.heap;
      assert |Joined(decoder(payload).blocks)| <= 4 * |payload|;
      ghost var start;
      ok, start := BerDecode(payload);
      OutputsOfNext(frames, frame, decoder);
      if !ok {
        if !clobbered {
          ContentsKept(heap, asn1.heap, start, before);
        }
        NextFrame();
        ResetAllocator();
        return;
      }
      if !clobbered {
        ContentsOfNext(heap, asn1.heap, start, asn1.endOffset, before);
      }
      pending := pending + [Held(start, asn1.endOffset)];
      batch' := batch' + 1;
      NextFrame();
    }

    /** Read at most the rest of a header. */
    method ReadHeader(src: Source) returns (progress: Progress)
      requires Valid() && !hasHdr
      modifies this`received, this`hasHdr, this`hasPayload, dcd, src
      ensures Valid() && received + src.rest == old(received + src.rest)
      ensures progress == Nothing ==> !hasHdr && dcd.endOffset == old(dcd.endOffset) && received == old(received)
      ensures progress != Nothing ==> |src.rest| < old(|src.rest|)
      ensures hasHdr <==> progress == Full
      ensures progress != Full ==> src.short
      ensures old(src.plan) == [] ==> src.Willing()
    {
      hide AllocatorSound, Split, Remainder;
      var chunk := src.Read(HEADER_SIZE - dcd.endOffset);
      if chunk == [] {
        return Nothing;
      }
      Receive(chunk);
      return if hasHdr then Full else Partial;
    }

    /** Read at most the rest of a payload. */
    method ReadPayload(src: Source) returns (progress: Progress)
      requires Valid() && hasHdr
      requires WellFormed(received + src.rest, GROW_BYTES)
      modifies this`received, this`hasHdr, this`hasPayload, dcd, src
      ensures received + src.rest == old(received + src.rest)
      ensures hasHdr && AllocatorSound()
      ensures progress == Nothing ==> Valid() && received == old(received) && (Stalled() <==> old(Stalled()))
      ensures progress == Partial ==> Valid()
      ensures progress == Full ==> FrameReady() && |src.rest| < old(|src.rest|)
      ensures old(Stalled()) ==> progress == Nothing
      ensures progress != Full ==> src.short || old(Stalled())
      ensures old(src.plan) == [] ==> src.Willing()
    {
      hide AllocatorSound, Split, Remainder;
      BufferedIsBounded(src.rest);
      ghost var header := Buffered();
      var want := HEADER_SIZE + PayloadLength(dcd.heap[..dcd.endOffset]) - dcd.endOffset;
      var chunk := src.Read(want);
      if chunk == [] {
        return Nothing;
      }
      Receive(chunk);
      assert Buffered()[0] == header[0];
      return if hasPayload then Full else Partial;
    }

    lemma RoomIsKnown()
      requires AllocatorSound()
      ensures asn1.Valid()
    {
    }

    /** `HandleFrame` behind the frames that this call, which began with `start` of them, has handled already. */
    method HandleNext(batch: nat, ghost start: nat, ghost room: nat, ghost held: nat) returns (ok: bool, batch': nat)
      requires FrameReady() && AllocatorSound() && Frugal(decoder) && start <= |frames| && asn1.Valid()
      requires InRoom(room, held, frames[start..], asn1.Available(), |pending|)
      requires AllDecode(decoder, frames[start..|frames|])
      modifies this`hasHdr, this`hasPayload, this`frames, this`pending, this`committed, this`clobbered, dcd, asn1
      ensures Valid() && !hasHdr && dcd.endOffset == 0 && asn1.Valid()
      ensures old(frames) <= frames && |frames| == old(|frames|) + 1
      ensures AllDecode(decoder, frames[start..|frames| - (if ok then 0 else 1)])
      ensures ok ==> clobbered == old(clobbered) && 0 < batch' <= batch + 1
      ensures ok ==> InRoom(room, held, frames[start..], asn1.Available(), |pending|)
      ensures !ok ==> !decoder(Payload(frames[|frames| - 1])).ok && (clobbered <==> old(clobbered) || pending != [])
      ensures !ok && 4 * PayloadBytes(frames[start..]) <= room ==> |pending| == held + |frames| - start - 1
    {
      hide AllocatorSound, Split, Remainder, FrameReady, BufferInStep, Frugal, PayloadBytes, InRoom, Payload, Outputs,
        AllDecode;
      ghost var before, available, waiting := frames, asn1.Available(), |pending|;
      ok, batch' := HandleFrame(batch);
      RoomIsKnown();
      assert frames[start..] == before[start..] + [frames[|before|]];
      InRoomStep(room, held, before[start..], available, waiting, frames[|before|], asn1.Available(), |pending|, ok);
      assert before[start..|before|] == before[start..] == frames[start..|before|];
      assert frames[start..|frames|] == frames[start..];
      if ok {
        OneMoreDecodes(decoder, before[start..], frames[|before|]);
      }
    }

    /** The half of the loop that reads a payload and, once it is there, handles the frame. */
    method ReadFrame(src: Source, batch: nat, ghost start: nat, ghost room: nat, ghost held: nat)
      returns (res: Result, batch': nat)
      requires Valid() && hasHdr && Frugal(decoder) && start <= |frames| && asn1.Valid()
      requires WellFormed(received + src.rest, GROW_BYTES)
      requires InRoom(room, held, frames[start..], asn1.Available(), |pending|)
      requires AllDecode(decoder, frames[start..|frames|])
      modifies this`received, this`frames, this`hasHdr, this`hasPayload, this`pending, this`committed, this`clobbered
      modifies dcd, asn1, src
      ensures Valid() && dcd.Valid() && asn1.Valid()
      ensures received + src.rest == old(received + src.rest)
      ensures old(src.plan) == [] ==> src.Willing()
      ensures res == NeedMore ==>
        && hasHdr && frames == old(frames) && batch' == batch && clobbered == old(clobbered)
        && (src.short || Stalled())
        && (old(Stalled()) ==> Stalled() && received == old(received))
      ensures res != NeedMore ==>
        && !hasHdr && dcd.endOffset == 0 && !old(Stalled()) && |src.rest| < old(|src.rest|)
        && old(frames) <= frames && |frames| == old(|frames|) + 1
      ensures AllDecode(decoder, frames[start..|frames| - (if res == DecodeFailed then 1 else 0)])
      ensures res == Ok ==>
        clobbered == old(clobbered) && 0 < batch' <= batch + 1
        && InRoom(room, held, frames[start..], asn1.Available(), |pending|)
      ensures res == DecodeFailed ==>
        !decoder(Payload(frames[|frames| - 1])).ok && (clobbered <==> old(clobbered) || pending != [])
      ensures res == DecodeFailed && 4 * PayloadBytes(frames[start..]) <= room ==>
        |pending| == held + |frames| - start - 1
    {
      hide AllocatorSound, Split, Remainder, WellFormed, BufferInStep, FrameReady, Frugal, PayloadBytes, InRoom,
        AllDecode, Payload, Outputs, NoneEmpty, PayloadLength, Buffered, Complete;
      var progress := ReadPayload(src);
      RoomIsKnown();
      if progress != Full {
        Outlook();
        return NeedMore, batch;
      }
      var ok;
      ok, batch' := HandleNext(batch, start, room, held);
      Outlook();
      return if ok then Ok else DecodeFailed, batch';
    }

    /** The loop of `ProcessStream`: read until the source runs dry, a batch is full, or a frame does not decode. */
    method ReadBatch(src: Source) returns (res: Result, batch: nat)
      requires Valid() && Frugal(decoder)
      requires WellFormed(received + src.rest, GROW_BYTES)
      modifies this`received, this`frames, this`hasHdr, this`hasPayload, this`pending, this`committed, this`clobbered
      modifies dcd, asn1, src
      ensures Valid() && dcd.Valid()
      ensures received + src.rest == old(received + src.rest)
      ensures old(frames) <= frames
      ensures res == DecodeFailed ==> |frames| > old(|frames|)
      ensures AllDecode(decoder, frames[old(|frames|)..|frames| - (if res == DecodeFailed then 1 else 0)])
      ensures res == DecodeFailed && 4 * PayloadBytes(frames[old(|frames|)..]) <= old(asn1.Available()) ==>
        |pending| == old(|pending|) + |frames| - old(|frames|) - 1
      ensures old(src.plan) == [] ==> src.plan == [] && (res != DecodeFailed && |frames| < old(|frames|) + BATCH_LIMIT
                                                         ==> src.rest == [] || Stalled())
      ensures res == Ok ==> !hasHdr && (batch == 0 <==> frames == old(frames))
      ensures res == Ok && batch == 0 ==> pending == old(pending)
      ensures res == Ok && batch > 0 ==> dcd.endOffset == 0
      ensures res != DecodeFailed ==> clobbered == old(clobbered)
      ensures res == DecodeFailed ==> (clobbered <==> old(clobbered) || pending != [])
      ensures res == DecodeFailed ==> !decoder(Payload(frames[|frames| - 1])).ok && !hasHdr
      ensures res == Ok ==> src.short || |frames| >= old(|frames|) + BATCH_LIMIT
      ensures res == NeedMore ==> src.short || Stalled()
      ensures old(Stalled()) ==> res == NeedMore && received == old(received) && frames == old(frames)
    {
      hide Valid, AllocatorSound, Split, Remainder, WellFormed, BufferInStep, FrameReady, Frugal, NoneEmpty,
        PayloadBytes, Outputs, InRoom, AllDecode, Payload, MemBuffer.Available, Buffered, MemBuffer.Valid,
        PayloadLength, Complete, Joined, Contents, HeldApart;
      Outlook();
      res, batch := Ok, 0;
      ghost var room, held := asn1.Available(), |pending|;
      assert frames[|frames|..] == [];
      assert frames[|frames|..|frames|] == [];
      NoneToDecode(decoder);
      AllInRoom(room, held);
      while true
        invariant Valid() && dcd.Valid() && asn1.Valid()
        invariant received + src.rest == old(received + src.rest)
        invariant old(frames) <= frames
        invariant clobbered == old(clobbered) && res == Ok
        invariant batch > 0 && !hasHdr ==> dcd.endOffset == 0
        invariant batch == 0 ==> pending == old(pending)
        invariant batch == 0 <==> |frames| == old(|frames|)
        invariant batch <= |frames| - old(|frames|)
        invariant old(Stalled()) ==> Stalled() && received == old(received) && batch == 0
        invariant AllDecode(decoder, frames[old(|frames|)..|frames|])
        invariant InRoom(room, held, frames[old(|frames|)..], asn1.Available(), |pending|)
        invariant old(src.plan) == [] ==> src.plan == []
        decreases |src.rest|
      {
        if !hasHdr {
          var progress := ReadHeader(src);
          Outlook();
          if progress == Nothing {
            break;
          }
          if progress == Partial {
            return NeedMore, batch;
          }
        } else {
          res, batch := ReadFrame(src, batch, old(|frames|), room, held);
          Outlook();
          if res != Ok {
            return;
          }
          if batch >= BATCH_LIMIT {
            break;
          }
        }
      }
    }

    /** Read until the source has nothing more, a batch is full, or a frame does not decode. */
    method ProcessStream(src: Source) returns (res: Result)
      requires Valid() && Frugal(decoder)
      requires WellFormed(received + src.rest, GROW_BYTES)
      modifies this`received, this`frames, this`hasHdr, this`hasPayload, this`pending, this`committed, this`clobbered
      modifies dcd, asn1, src
      ensures Valid()
      ensures received + src.rest == old(received + src.rest)
      ensures old(frames) <= frames <= Split(received)
      ensures frames == Split(received) <==> NoneEmpty(Split(received))
      ensures Stalled() <==> !NoneEmpty(Split(received))
      ensures res == DecodeFailed ==> |frames| > old(|frames|)
      ensures AllDecode(decoder, frames[old(|frames|)..|frames| - (if res == DecodeFailed then 1 else 0)])
      ensures res == DecodeFailed && 4 * PayloadBytes(frames[old(|frames|)..]) <= old(asn1.Available()) ==>
        |pending| == old(|pending|) + |frames| - old(|frames|) - 1
      ensures old(src.plan) == [] ==> src.plan == [] && (res != DecodeFailed && |frames| < old(|frames|) + BATCH_LIMIT
                                                         ==> src.rest == [] || Stalled())
      ensures res == Ok ==> pending == (if frames == old(frames) then old(pending) else [])
      ensures res == Ok && frames != old(frames) && !clobbered ==> committed == Outputs(frames, decoder)
      ensures res != DecodeFailed ==> clobbered == old(clobbered)
      ensures res == DecodeFailed ==> (clobbered <==> old(clobbered) || pending != [])
      ensures res == DecodeFailed ==> |frames| > old(|frames|) && !decoder(Payload(frames[|frames| - 1])).ok && !hasHdr
      ensures res == Ok ==> src.short || |frames| >= old(|frames|) + BATCH_LIMIT
      ensures res == NeedMore ==> src.short || Stalled()
      ensures old(Stalled()) ==> res == NeedMore && received == old(received) && frames == old(frames)
    {
      hide Valid, AllocatorSound, Split, Remainder, WellFormed, BufferInStep, Frugal, NoneEmpty, PayloadBytes,
        Outputs, AllDecode, Payload, MemBuffer.Available, Buffered, MemBuffer.Valid, PayloadLength;
      Outlook();
      var batch;
      res, batch := ReadBatch(src);
      Outlook();
      if res == Ok && batch > 0 {
        FinishBatch();
        Outlook();
      }
    }

    /** Commit and rewind; the receive buffer is reset too, which discards nothing. */
    method FinishBatch()
      requires Valid() && !hasHdr && dcd.endOffset == 0
      modifies this`hasHdr, this`hasPayload, this`pending, this`committed, this`clobbered, dcd, asn1
      ensures Valid() && pending == [] && !hasHdr && !Stalled() && frames == Split(received)
      ensures clobbered == old(clobbered)
      ensures !clobbered ==> committed == Outputs(frames, decoder)
    {
      hide AllocatorSound, Split, Remainder, Outputs;
      FramesSoFar();
      Commit();
      hasHdr, hasPayload := false, false;
      dcd.Reset();
      ResetAllocator();
    }

    lemma RemainderIsBuffered()
      requires BufferInStep() && !Stalled()
      ensures Split(Buffered()) == [] && Remainder(received) == Buffered()
    {
    }

    /** Every complete frame that was read has been handed on, unless it announces an empty payload. */
    lemma FramesSoFar()
      requires BufferInStep()
      ensures dcd.Valid()
      ensures frames <= Split(received)
      ensures frames == Split(received) <==> !Stalled()
      ensures Stalled() <==> !NoneEmpty(Split(received))
      ensures Stalled() ==> hasHdr && Split(received) == frames + [Buffered()]
    {
      if Stalled() {
        OneFrame(Buffered());
        assert (frames + [Buffered()])[|frames|] == Buffered();
      }
    }

    /**
     Of the payloads a sender framed, the decoder has been handed the first ones, unchanged and in their
     order; once the whole stream was read, all of them exactly when none is empty.
     */
    lemma PayloadsArrive(ps: seq<Bytes>)
      requires Valid() && (forall p | p in ps :: Sendable(p)) && received <= Stream(ps)
      ensures |frames| <= |ps| && forall k | 0 <= k < |frames| :: Payload(frames[k]) == ps[k]
      ensures received == Stream(ps) ==> (|frames| == |ps| <==> forall p | p in ps :: p != [])
    {
      hide Payload, Split, Remainder, Frame, Valid, AllocatorSound;
      Outlook();
      PayloadsInOrder(ps, received);
      if received == Stream(ps) {
        WholeStream(ps);
      }
    }

    lemma Outlook()
      requires Valid()
      ensures dcd.Valid() && asn1.Valid() && dcd != asn1
      ensures frames <= Split(received) && (frames == Split(received) <==> NoneEmpty(Split(received)))
      ensures Stalled() <==> !NoneEmpty(Split(received))
      ensures Stalled() ==> hasHdr
    {
      FramesSoFar();
    }

    lemma BufferedIsBounded(rest: Bytes)
      requires BufferInStep() && WellFormed(received + rest, GROW_BYTES)
      ensures dcd.Valid()
      ensures hasHdr ==> HEADER_SIZE + PayloadLength(Buffered()) <= GROW_BYTES
      ensures hasHdr ==> |Buffered()| <= HEADER_SIZE + PayloadLength(Buffered())
      ensures hasHdr && !Stalled() ==> Buffered()[0] == 1 && |Buffered()| < HEADER_SIZE + PayloadLength(Buffered())
    {
      WellFormedRemainder(received, rest, GROW_BYTES);
      if hasHdr && !Stalled() {
        assert Remainder(received) == Buffered();
        assert forall i | 0 <= i < |Buffered()| :: (Buffered() + rest)[i] == Buffered()[i];
      }
    }
  }

  /** What lies below `end` is untouched by writes above it. */
  lemma ContentsKept(before: Bytes, after: Bytes, end: nat, held: seq<Held>)
    requires end <= |before| == |after| && after[..end] == before[..end] && HeldApart(held, end)
    ensures Contents(after, held) == Contents(before, held)
  {
    forall i | 0 <= i < |held|
      ensures after[held[i].start..held[i].end] == before[held[i].start..held[i].end]
    {
      SliceOfSlice(after, 0, end, held[i].start, held[i].end);
      SliceOfSlice(before, 0, end, held[i].start, held[i].end);
    }
  }

  lemma ContentsOfNext(before: Bytes, after: Bytes, start: nat, end: nat, held: seq<Held>)
    requires start <= end <= |before| == |after| && after[..start] == before[..start] && HeldApart(held, start)
    ensures HeldApart(held + [Held(start, end)], end)
    ensures Contents(after, held + [Held(start, end)]) == Contents(before, held) + [after[start..end]]
  {
    ContentsKept(before, after, start, held);
  }

  lemma NothingJoined(blocks: seq<Bytes>)
    ensures Joined(blocks[..0]) == []
  {
  }

  /** What was written from `mem` on comes behind what lay there before. */
  lemma BlockAdded(before: Bytes, after: Bytes, start: nat, mem: nat, end: nat)
    requires start <= mem <= end <= |after| == |before| && after[..mem] == before[..mem]
    ensures after[..start] == before[..start]
    ensures after[start..end] == before[start..mem] + after[mem..end]
  {
    SliceOfSlice(after, 0, mem, 0, start);
    SliceOfSlice(before, 0, mem, 0, start);
    SliceOfSlice(after, 0, mem, start, mem);
    SliceOfSlice(before, 0, mem, start, mem);
    SliceJoins(after, start, mem, end);
  }

  lemma {:induction false} JoinedPrefix(blocks: seq<Bytes>, i: nat)
    requires i < |blocks|
    ensures Joined(blocks[..i + 1]) == Joined(blocks[..i]) + blocks[i]
    ensures |Joined(blocks[..i + 1])| <= |Joined(blocks)|
    decreases |blocks|
  {
    assert blocks[..i + 1][..i] == blocks[..i];
    if i + 1 < |blocks| {
      var front := blocks[..|blocks| - 1];
      JoinedPrefix(front, i);
      assert front[..i + 1] == blocks[..i + 1];
    } else {
      assert blocks[..i + 1] == blocks;
    }
  }

  const GOOD: Bytes := [1, 1, 0, 0, 7]
  const BAD: Bytes := [1, 1, 0, 0, 8]
  const EMPTY: Bytes := [1, 0, 0, 0]

  /**
   A decode failure rewinds the allocator under a command that still awaits commit: one frame is
   handled, the next, which arrives with it, does not decode.
   */
  method FailureUnderPendingCommand() returns (c: Connection, res: Result)
    ensures fresh(c) && c.Valid() && res == DecodeFailed && c.frames == [GOOD, BAD]
    ensures |c.pending| == 1 && c.clobbered
  {
    hide Frugal, SampleDecoder, Connection.Valid, Split, WellFormed, PayloadBytes, NoneEmpty, Source.Willing;
    SampleIsFrugal();
    TwoFrames();
    c := new Connection(SampleDecoder);
    var src := new Source(GOOD + BAD, []);
    assert c.received + src.rest == GOOD + BAD;
    res := c.ProcessStream(src);
    assert c.frames[0..] == c.frames;
    HandledBoth(c.received, src.rest, c.frames, res);
  }

  lemma TwoFrames()
    ensures Split(GOOD + BAD) == [GOOD, BAD] && WellFormed(GOOD + BAD, GROW_BYTES)
  {
    var all := GOOD + BAD;
    assert all[..5] == GOOD && all[5..] == BAD;
    OneFrame(BAD);
    assert BAD[5..] == [];
  }

  /** Nothing else can have come of the two frames. */
  lemma HandledBoth(received: Bytes, rest: Bytes, frames: seq<Bytes>, res: Result)
    requires received + rest == GOOD + BAD && frames <= Split(received)
    requires frames == Split(received) <==> NoneEmpty(Split(received))
    requires res == DecodeFailed ==> |frames| > 0
    requires AllDecode(SampleDecoder, frames[..|frames| - (if res == DecodeFailed then 1 else 0)])
    requires res == DecodeFailed ==> !SampleDecoder(Payload(frames[|frames| - 1])).ok
    requires res != DecodeFailed && |frames| < BATCH_LIMIT ==> rest == [] || !NoneEmpty(Split(received))
    ensures res == DecodeFailed && frames == [GOOD, BAD] && PayloadBytes(frames) == 2
  {
    hide Split, SampleDecoder, NoneEmpty, PayloadBytes;
    SampleIsFrugal();
    TwoFrames();
    SplitExtends(received, rest);
    var all := Split(received);
    assert all <= [GOOD, BAD];
    NotEmpty(all);
    assert Payload(GOOD) == [7] && Payload(BAD) == [8];
    assert rest == [] ==> received == GOOD + BAD;
    assert frames[|frames| - 1] != GOOD;
    assert frames == [GOOD, BAD];
    BytesOfBoth();
  }

  lemma NotEmpty(frames: seq<Bytes>)
    requires frames <= [GOOD, BAD]
    ensures NoneEmpty(frames)
  {
    forall f | f in frames
      ensures |f| > HEADER_SIZE
    {
      assert f in [GOOD, BAD];
    }
  }

  lemma BytesOfBoth()
    ensures PayloadBytes([GOOD, BAD]) == 2
  {
    PayloadBytesGrow([GOOD], BAD);
    PayloadBytesGrow([], GOOD);
    assert [GOOD] + [BAD] == [GOOD, BAD] && [] + [GOOD] == [GOOD];
  }

  /** A header that announces no payload: from then on no call hands on another frame, whatever arrives. */
  method EmptyPayloadStalls() returns (c: Connection, res: Result)
    ensures fresh(c) && c.Valid() && c.frames == [] && Split(c.received) == [EMPTY] && res == NeedMore
  {
    hide Frugal, SampleDecoder, Connection.Valid, Split, WellFormed, PayloadBytes, NoneEmpty;
    SampleIsFrugal();
    StallingStream();
    c := new Connection(SampleDecoder);
    var src := new Source(EMPTY, []);
    assert c.received + src.rest == EMPTY;
    res := c.ProcessStream(src);
    StalledAtOnce(c.received, src.rest, c.frames, res);
    assert c.received == EMPTY;
    src := new Source(GOOD, []);
    res := c.ProcessStream(src);
  }

  lemma StallingStream()
    ensures Split(EMPTY) == [EMPTY] && WellFormed(EMPTY, GROW_BYTES) && WellFormed(EMPTY + GOOD, GROW_BYTES)
  {
    OneFrame(EMPTY);
    var all := EMPTY + GOOD;
    assert all[4..] == GOOD && EMPTY[4..] == [] && GOOD[5..] == [];
  }

  lemma StalledAtOnce(received: Bytes, rest: Bytes, frames: seq<Bytes>, res: Result)
    requires received + rest == EMPTY && frames <= Split(received)
    requires frames == Split(received) <==> NoneEmpty(Split(received))
    requires res == DecodeFailed ==> |frames| > 0
    requires res != DecodeFailed && |frames| < BATCH_LIMIT ==> rest == [] || !NoneEmpty(Split(received))
    ensures frames == [] && received == EMPTY
  {
    hide Split, NoneEmpty;
    StallingStream();
    SplitExtends(received, rest);
    if rest == [] {
      assert received == EMPTY;
    }
    assert Split(received) <= [EMPTY];
    EmptyIsNot();
    assert Split(received) == [] || Split(received) == [EMPTY];
    assert NoneEmpty([]) by {
      NotEmpty([]);
    }
  }

  lemma EmptyIsNot()
    ensures !NoneEmpty([EMPTY])
  {
    assert EMPTY in [EMPTY];
  }

  function SampleDecoder(payload: Bytes): Decoding {
    if payload == [7] then Decoding(true, [[0]]) else Decoding(false, [])
  }

  lemma SampleIsFrugal()
    ensures Frugal(SampleDecoder) && SampleDecoder([7]).ok && !SampleDecoder([8]).ok
  {
    assert Joined([[0]]) == [0];
  }

  /** Held regions lie below `end`, one behind the other. */
  ghost predicate HeldApart(held: seq<Held>, end: nat) {
    && (forall i | 0 <= i < |held| :: held[i].start <= held[i].end <= end)
    && (forall i, j | 0 <= i < j < |held| :: held[i].end <= held[j].start)
  }

  function Contents(heap: Bytes, held: seq<Held>): seq<Bytes>
    requires forall i | 0 <= i < |held| :: held[i].start <= held[i].end <= |heap|
  {
    seq(|held|, i requires 0 <= i < |held| => heap[held[i].start..held[i].end])
  }

  ghost predicate AllDecode(decoder: Bytes -> Decoding, frames: seq<Bytes>) {
    forall f | f in frames :: decoder(Payload(f)).ok
  }

  lemma NoneToDecode(decoder: Bytes -> Decoding)
    ensures AllDecode(decoder, [])
  {
  }

  lemma OneMoreDecodes(decoder: Bytes -> Decoding, frames: seq<Bytes>, f: Bytes)
    requires AllDecode(decoder, frames) && decoder(Payload(f)).ok
    ensures AllDecode(decoder, frames + [f])
  {
  }

  /** No frame announces an empty payload. */
  ghost predicate NoneEmpty(frames: seq<Bytes>) {
    forall f | f in frames :: |f| > HEADER_SIZE
  }

  lemma WholeStream(ps: seq<Bytes>)
    requires forall p | p in ps :: Sendable(p)
    ensures Split(Stream(ps)) == Frames(ps)
    ensures NoneEmpty(Frames(ps)) <==> forall p | p in ps :: p != []
  {
    hide Split, Remainder, WellFormed, Frame;
    StreamIsSplit(ps, [], 0);
    NoFrame();
    assert Stream(ps) + [] == Stream(ps) && Frames(ps) + [] == Frames(ps);
    forall p | p in ps
      ensures Frame(p) in Frames(ps) && (|Frame(p)| > HEADER_SIZE <==> p != [])
    {
      var k :| 0 <= k < |ps| && ps[k] == p;
      assert Frames(ps)[k] == Frame(p);
      FrameLength(p);
    }
  }

  function PayloadBytes(frames: seq<Bytes>): nat {
    if frames == [] then 0 else PayloadBytes(frames[..|frames| - 1]) + |Payload(frames[|frames| - 1])|
  }

  /** While the estimates for `handled` fit the room there was, all of it is still pending. */
  ghost predicate InRoom(room: nat, before: nat, handled: seq<Bytes>, available: nat, pending: nat) {
    4 * PayloadBytes(handled) <= room ==>
      available >= room - 4 * PayloadBytes(handled) && pending == before + |handled|
  }

  lemma AllInRoom(room: nat, before: nat)
    ensures InRoom(room, before, [], room, before)
  {
  }

  lemma InRoomStep(room: nat, before: nat, handled: seq<Bytes>, available: nat, pending: nat, f: Bytes,
                   available': nat, pending': nat, ok: bool)
    requires InRoom(room, before, handled, available, pending)
    requires available >= 4 * |Payload(f)| ==>
      (ok ==> available' >= available - 4 * |Payload(f)|) && pending' == pending + if ok then 1 else 0
    ensures ok ==> InRoom(room, before, handled + [f], available', pending')
    ensures !ok && 4 * PayloadBytes(handled + [f]) <= room ==> pending' == before + |handled|
  {
    PayloadBytesGrow(handled, f);
  }

  lemma PayloadBytesGrow(frames: seq<Bytes>, f: Bytes)
    ensures PayloadBytes(frames + [f]) == PayloadBytes(frames) + |Payload(f)|
  {
    assert (frames + [f])[..|frames|] == frames;
  }

  /** The decoder's output for each frame it accepts. */
  function Outputs(frames: seq<Bytes>, decoder: Bytes -> Decoding): seq<Bytes> {
    if frames == [] then []
    else
      var d := decoder(Payload(frames[|frames| - 1]));
      Outputs(frames[..|frames| - 1], decoder) + (if d.ok then [Joined(d.blocks)] else [])
  }

  /** The decoder never needs more than four times the payload. */
  ghost predicate Frugal(decoder: Bytes -> Decoding) {
    forall p :: |Joined(decoder(p).blocks)| <= 4 * |p|
  }

  lemma OutputsOfNext(frames: seq<Bytes>, f: Bytes, decoder: Bytes -> Decoding)
    ensures var d := decoder(Payload(f));
      Outputs(frames + [f], decoder) == Outputs(frames, decoder) + (if d.ok then [Joined(d.blocks)] else [])
  {
    assert (frames + [f])[..|frames|] == frames;
  }
}
