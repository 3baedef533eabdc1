/**
 The message memory of trace_client/AsioSocketClient.h (its twin is in socket_asio_client.h): a
 bump buffer of 64-byte aligned regions, each headed by the size of the message in it and the size
 of the region, and the flush that walks the regions by those sizes.
 */
module ClientMemory {
  import opened Arithmetic
  import opened Wrappers

  const MEM_SIZE: nat := 1024 * 1024
  const MEM_ALIGN: nat := 64
  const HEADER_SIZE: nat := 8

  type Bytes = seq<Byte>

  function Padding(at: nat): (p: nat)
    ensures p < MEM_ALIGN && (at + p) % MEM_ALIGN == 0
  {
    if at % MEM_ALIGN == 0 then 0
    else
      assert at + (MEM_ALIGN - at % MEM_ALIGN) == MEM_ALIGN * (at / MEM_ALIGN + 1);
      MEM_ALIGN - at % MEM_ALIGN
  }

  /** `std::align`: move `at` up to the alignment if `size` bytes still fit in `space` after that. */
  function StdAlign(size: nat, at: nat, space: nat): (end: Option<nat>)
    ensures end.Some? ==> end.value >= at
  {
    if space < size + Padding(at) then None else Some(at + Padding(at))
  }

  /** The end of the region that AcquireMem carves for `n` bytes; the space check leaves out the header. */
  function RegionEnd(write: nat, n: nat): (end: Option<nat>)
    requires write <= MEM_SIZE
    ensures end.Some? ==> end.value >= write + n + HEADER_SIZE
  {
    StdAlign(n, write + n + HEADER_SIZE, MEM_SIZE - write)
  }

  /**
   Leaving the header out of the space check does no harm: the answer is the aligned end of header
   and message, and it is given exactly when that end lies inside the memory.
   */
  lemma RegionFits(write: nat, n: nat)
    requires write <= MEM_SIZE
    ensures var end := write + n + HEADER_SIZE + Padding(write + n + HEADER_SIZE);
      && end % MEM_ALIGN == 0
      && RegionEnd(write, n) == if end <= MEM_SIZE then Some(end) else None
  {
    var end := write + n + HEADER_SIZE + Padding(write + n + HEADER_SIZE);
    if end > MEM_SIZE {
      assert end / MEM_ALIGN > MEM_SIZE / MEM_ALIGN;
      assert end >= MEM_SIZE + MEM_ALIGN;
    }
  }

  /** A message in memory: where its region starts and ends. */
  datatype Region = Region(at: nat, end: nat, msg: Bytes)

  /** The regions follow one another, aligned, from 0 to `end`, each with room for header and message. */
  ghost predicate Chained(rs: seq<Region>, end: nat) {
    if rs == [] then end == 0
    else
      var last := rs[|rs| - 1];
      && last.end == end <= MEM_SIZE && end % MEM_ALIGN == 0
      && last.at + HEADER_SIZE + |last.msg| <= end
      && Chained(rs[..|rs| - 1], last.at)
  }

  lemma {:induction false} ChainedParts(rs: seq<Region>, end: nat, i: nat)
    requires Chained(rs, end) && i <= |rs|
    ensures var at := if i == |rs| then end else rs[i].at;
      Chained(rs[..i], at) && at <= end && at % MEM_ALIGN == 0
    ensures i < |rs| ==> rs[i].at + HEADER_SIZE + |rs[i].msg| <= rs[i].end <= end
    ensures i + 1 < |rs| ==> rs[i].end == rs[i + 1].at
    ensures i + 1 == |rs| ==> rs[i].end == end
    decreases |rs|
  {
    if i == |rs| {
      assert rs[..i] == rs;
    } else {
      var front := rs[..|rs| - 1];
      if i < |front| {
        ChainedParts(front, rs[|rs| - 1].at, i);
        assert front[..i] == rs[..i];
      }
    }
  }

  /** Different regions share no byte. */
  lemma {:induction false} RegionsAreDisjoint(rs: seq<Region>, end: nat, i: nat, j: nat)
    requires Chained(rs, end) && i < j < |rs|
    ensures rs[i].end <= rs[j].at
    decreases j - i
  {
    ChainedParts(rs, end, i);
    ChainedParts(rs, end, i + 1);
    if i + 1 < j {
      RegionsAreDisjoint(rs, end, i + 1, j);
    }
  }

  function Messages(rs: seq<Region>): seq<Bytes> {
    seq(|rs|, i requires 0 <= i < |rs| => rs[i].msg)
  }

  /** The memory holds the header and the message of `r`. */
  predicate Holds(m: Bytes, r: Region) {
    && r.at + HEADER_SIZE + |r.msg| <= r.end <= |m| && |r.msg| < 0x1_0000_0000 && r.end - r.at < 0x1_0000_0000
    && m[r.at..r.at + 4] == IntBytes(|r.msg|)
    && m[r.at + 4..r.at + 8] == IntBytes(r.end - r.at)
    && m[r.at + HEADER_SIZE..r.at + HEADER_SIZE + |r.msg|] == r.msg
  }

  /** Memory outside a region does not matter to it. */
  lemma HoldsOutside(m: Bytes, m': Bytes, r: Region)
    requires Holds(m, r) && |m'| == |m|
    requires forall k | r.at <= k < r.end :: m'[k] == m[k]
    ensures Holds(m', r)
  {
    assert m'[r.at..r.at + 4] == m[r.at..r.at + 4];
    assert m'[r.at + 4..r.at + 8] == m[r.at + 4..r.at + 8];
    assert m'[r.at + HEADER_SIZE..r.at + HEADER_SIZE + |r.msg|] == m[r.at + HEADER_SIZE..r.at + HEADER_SIZE + |r.msg|];
  }

  /** The socket: `plan` says which of the coming writes fail; a failed write delivers nothing. */
  class Socket {
    var plan: seq<bool>
    var sent: seq<Bytes>

    constructor (plan: seq<bool>)
      ensures this.plan == plan && sent == []
    {
      this.plan, sent := plan, [];
    }

    method Write(data: Bytes) returns (failed: bool)
      modifies this
      ensures failed ==> sent == old(sent) && old(plan) != [] && plan == old(plan)[1..]
      ensures !failed ==> sent == old(sent) + [data] && |plan| <= |old(plan)|
    {
      failed := plan != [] && plan[0];
      plan := if plan == [] then [] else plan[1..];
      if !failed {
        sent := sent + [data];
      }
    }
  }

  class Memory {
    const memory: array<Byte>
    var readPtr: nat
    var writePtr: nat
    /** The messages accepted so far, and how many of them were flushed. */
    ghost var regions: seq<Region>
    ghost var flushed: nat

    ghost predicate Valid()
      reads this, memory
    {
      && memory.Length == MEM_SIZE
      && Chained(regions, writePtr)
      && (forall r | r in regions :: Holds(memory[..], r))
      && flushed <= |regions|
      && readPtr == if flushed == |regions| then writePtr else regions[flushed].at
    }

    constructor ()
      ensures Valid() && regions == [] && flushed == 0 && fresh(memory)
    {
      memory := new Byte[MEM_SIZE];
      readPtr, writePtr := 0, 0;
      regions, flushed := [], 0;
    }

    method Store(at: nat, data: Bytes)
      requires at + |data| <= memory.Length
      modifies memory
      ensures memory[at..at + |data|] == data
      ensures forall k | 0 <= k < memory.Length && !(at <= k < at + |data|) :: memory[k] == old(memory[k])
    {
      forall i | 0 <= i < |data| {
        memory[at + i] := data[i];
      }
    }

    /** Advance the write pointer and write the header with size 0, or refuse. */
    method AcquireMem(n: nat) returns (mem: Option<nat>)
      requires memory.Length == MEM_SIZE && writePtr <= MEM_SIZE
      modifies this`writePtr, memory
      ensures mem.None? <==> RegionEnd(old(writePtr), n).None?
      ensures mem.None? ==> writePtr == old(writePtr) && memory[..] == old(memory[..])
      ensures mem.Some? ==> mem.value == old(writePtr) && Some(writePtr) == RegionEnd(old(writePtr), n)
      ensures mem.Some? ==> mem.value + HEADER_SIZE + n <= writePtr <= MEM_SIZE
      ensures mem.Some? ==> memory[mem.value..mem.value + 4] == IntBytes(0)
      ensures mem.Some? ==> memory[mem.value + 4..mem.value + 8] == IntBytes(writePtr - mem.value)
      ensures forall k | 0 <= k < MEM_SIZE && !(old(writePtr) <= k < writePtr) :: memory[k] == old(memory[k])
    {
      hide IntBytes;
      RegionFits(writePtr, n);
      var end := StdAlign(n, writePtr + n + HEADER_SIZE, MEM_SIZE - writePtr);
      if end.None? {
        return None;
      }
      var at := writePtr;
      writePtr := end.value;
      Store(at, IntBytes(0));
      ghost var size := memory[at..at + 4];
      Store(at + 4, IntBytes(end.value - at));
      assert memory[at..at + 4] == size;
      return Some(at);
    }

    /** The message is stored behind all others, or there is no room for it and nothing changes. */
    method WriteToBuffer(msg: Bytes) returns (ok: bool)
      requires Valid()
      modifies this`writePtr, this`regions, memory
      ensures Valid()
      ensures ok <==> RegionEnd(old(writePtr), |msg|).Some?
      ensures ok ==> regions == old(regions) + [Region(old(writePtr), writePtr, msg)]
      ensures !ok ==> regions == old(regions) && writePtr == old(writePtr) && memory[..] == old(memory[..])
    {
      hide IntBytes, Holds;
      ghost var before := memory[..];
      ChainedParts(regions, writePtr, |regions|);
      WriteBound(regions, writePtr);
      RegionFits(writePtr, |msg|);
      var mem := AcquireMem(|msg|);
      if mem.None? {
        return false;
      }
      var at := mem.value;
      ghost var r := Region(at, writePtr, msg);
      FillRegion(at, msg);
      forall q | q in regions
        ensures Holds(memory[..], q)
      {
        ChainedBound(regions, at, q);
        HoldsOutside(before, memory[..], q);
      }
      assert (regions + [r])[..|regions|] == regions;
      regions := regions + [r];
      return true;
    }

    /** Behind the lock: copy the message, then store its size. */
    method FillRegion(at: nat, msg: Bytes)
      requires memory.Length == MEM_SIZE && at + HEADER_SIZE + |msg| <= writePtr <= MEM_SIZE
      requires memory[at + 4..at + 8] == IntBytes(writePtr - at)
      modifies memory
      ensures Holds(memory[..], Region(at, writePtr, msg))
      ensures forall k | 0 <= k < MEM_SIZE && !(at <= k < writePtr) :: memory[k] == old(memory[k])
    {
      hide IntBytes;
      ghost var sizeBytes := memory[at + 4..at + 8];
      Store(at + HEADER_SIZE, msg);
      assert memory[at + 4..at + 8] == sizeBytes;
      ghost var payload := memory[at + HEADER_SIZE..at + HEADER_SIZE + |msg|];
      Store(at, IntBytes(|msg|));
      assert memory[at + 4..at + 8] == sizeBytes;
      assert memory[at + HEADER_SIZE..at + HEADER_SIZE + |msg|] == payload;
      ghost var m := memory[..];
      assert m[at..at + 4] == memory[at..at + 4] && m[at + 4..at + 8] == memory[at + 4..at + 8];
      assert m[at + HEADER_SIZE..at + HEADER_SIZE + |msg|] == memory[at + HEADER_SIZE..at + HEADER_SIZE + |msg|];
    }

    /** Send what was stored since the last flush. The loop holds the lock and retries failed writes. */
    method Flush(socket: Socket)
      requires Valid()
      modifies this`readPtr, this`flushed, socket
      ensures Valid() && readPtr == writePtr && flushed == |regions|
      ensures socket.sent == old(socket.sent) + Messages(regions[old(flushed)..])
    {
      hide IntBytes, Holds, Messages, Chained;
      ghost var first, sent0 := flushed, socket.sent;
      NothingYet(regions, first);
      ReadIsBehind();
      while readPtr != writePtr
        invariant Valid() && first <= flushed && readPtr <= writePtr
        invariant readPtr == writePtr ==> flushed == |regions|
        invariant socket.sent == sent0 + Messages(regions[first..flushed])
        decreases writePtr - readPtr, |socket.plan|
      {
        ghost var r := regions[flushed];
        assert r in regions;
        var size, regionSize := ReadHeader(r);
        var failed := socket.Write(memory[readPtr + HEADER_SIZE..readPtr + HEADER_SIZE + size]);
        if !failed {
          MessagesGrow(regions, first, flushed);
          ChainedParts(regions, writePtr, flushed);
          readPtr := readPtr + regionSize;
          flushed := flushed + 1;
          ReadIsBehind();
        }
      }
      assert regions[first..flushed] == regions[first..];
    }

    /** The read pointer stands at the write pointer only when every region was flushed. */
    lemma ReadIsBehind()
      requires Valid()
      ensures readPtr <= writePtr
      ensures readPtr == writePtr <==> flushed == |regions|
    {
      if flushed < |regions| {
        ChainedParts(regions, writePtr, flushed);
      }
    }

    method ReadHeader(ghost r: Region) returns (size: nat, regionSize: nat)
      requires memory.Length == MEM_SIZE && Holds(memory[..], r) && readPtr == r.at
      ensures size == |r.msg| && regionSize == r.end - r.at
      ensures readPtr + HEADER_SIZE + size <= memory.Length
      ensures memory[readPtr + HEADER_SIZE..readPtr + HEADER_SIZE + size] == r.msg
    {
      IntIsRead(memory[..], r.at, |r.msg|);
      IntIsRead(memory[..], r.at + 4, r.end - r.at);
      size, regionSize := IntAt(memory[..], readPtr), IntAt(memory[..], readPtr + 4);
    }
  }

  lemma NothingYet(rs: seq<Region>, first: nat)
    requires first <= |rs|
    ensures Messages(rs[first..first]) == []
  {
  }

  lemma MessagesGrow(rs: seq<Region>, first: nat, i: nat)
    requires first <= i < |rs|
    ensures Messages(rs[first..i + 1]) == Messages(rs[first..i]) + [rs[i].msg]
  {
  }

  lemma WriteBound(rs: seq<Region>, end: nat)
    requires Chained(rs, end)
    ensures end <= MEM_SIZE
  {
  }

  lemma ChainedBound(rs: seq<Region>, end: nat, r: Region)
    requires Chained(rs, end) && r in rs
    ensures r.end <= end
  {
    var i :| 0 <= i < |rs| && rs[i] == r;
    ChainedParts(rs, end, i);
  }
}
