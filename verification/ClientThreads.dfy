/**
 The same memory under many threads: writers carve a region under the lock and fill it after letting
 the lock go, flushes hold the lock for their whole walk. A schedule says which thread moves next;
 every interleaving is a schedule. After what holds under every schedule come the runs that reach an
 end: a write or a flush that moves alone, and bringing all threads to rest one after the other.
 */
module ClientThreads {
  import opened Arithmetic
  import opened ClientMemory
  import opened Wrappers

  /** Where a thread stands. The phases that hold the lock are those of `Inside`. */
  datatype Phase =
    | Idle
    | Spinning(msg: Bytes)            // AcquireMem waits for the lock
    | Entered(msg: Bytes)
    | Loaded(msg: Bytes, at: nat)     // the write pointer was read
    | Refused                         // std::align found no room
    | Advanced(i: nat)                // the write pointer was moved behind region i
    | Headed(i: nat)                  // the header of region i is written, with size 0
    | Copying(i: nat, done: nat)      // the lock is free again, the copy is under way
    | FlushSpinning
    | Walking                         // at the head of the flush loop
    | Measured(size: nat, inTime: bool) // the size in the header was read

  /** What a thread does where it has a choice, and whether the socket fails its write. */
  datatype Choice = Write(msg: Bytes) | Flush | Go(socketFails: bool)

  /**
   The shared memory, lock and pointers, the phase of each thread, and the history: every region
   carved, by whom, whether its size was stored, what was sent for it, and whether the flush that
   sent it had read its size after the size was stored.
   */
  datatype State = State(
    lock: Option<nat>, read: nat, write: nat, memory: Bytes, threads: map<nat, Phase>,
    regions: seq<Region>, owner: seq<nat>, stored: seq<bool>, sent: seq<Bytes>, inTime: seq<bool>)

  function At(s: State, t: nat): Phase {
    if t in s.threads then s.threads[t] else Idle
  }

  predicate Inside(p: Phase) {
    p.Entered? || p.Loaded? || p.Refused? || p.Advanced? || p.Headed? || p.Walking? || p.Measured?
  }

  /** The thread is between carving region `i` and storing its size. */
  predicate Owns(p: Phase, i: int) {
    (p.Advanced? || p.Headed? || p.Copying?) && p.i == i
  }

  ghost predicate Exclusive(s: State) {
    forall t: nat :: Inside(At(s, t)) <==> s.lock == Some(t)
  }

  ghost predicate Owned(s: State) {
    && |s.owner| == |s.regions| == |s.stored|
    && (forall t: nat, i: int {:trigger Owns(At(s, t), i)} {:trigger s.stored[i], At(s, t)} ::
          Owns(At(s, t), i) <==> 0 <= i < |s.regions| && s.owner[i] == t && !s.stored[i])
  }

  /** Header and, once the size is stored, message of a region. */
  predicate Written(m: Bytes, r: Region, stored: bool) {
    && r.at + HEADER_SIZE + |r.msg| <= r.end <= |m| <= MEM_SIZE
    && m[r.at..r.at + 4] == IntBytes(if stored then |r.msg| else 0)
    && m[r.at + 4..r.at + 8] == IntBytes(r.end - r.at)
    && (stored ==> m[r.at + HEADER_SIZE..r.at + HEADER_SIZE + |r.msg|] == r.msg)
  }

  predicate Copied(m: Bytes, r: Region, done: nat) {
    && r.at + HEADER_SIZE + |r.msg| <= r.end <= |m|
    && done <= |r.msg|
    && m[r.at + HEADER_SIZE..r.at + HEADER_SIZE + done] == r.msg[..done]
  }

  ghost predicate Laid(s: State)
    requires |s.owner| == |s.regions| == |s.stored|
  {
    && |s.memory| == MEM_SIZE
    && Chained(s.regions, s.write)
    && (forall i | 0 <= i < |s.regions| ::
          At(s, s.owner[i]) != Advanced(i) ==> Written(s.memory, s.regions[i], s.stored[i]))
  }

  ghost predicate InStep(s: State, p: Phase)
    requires |s.regions| == |s.stored|
  {
    match p
    case Loaded(msg, at) => at == s.write
    case Advanced(i) => i + 1 == |s.regions|
    case Headed(i) => i + 1 == |s.regions|
    case Copying(i, done) => i < |s.regions| && Copied(s.memory, s.regions[i], done)
    case Measured(size, inTime) =>
      && |s.sent| < |s.regions| && s.read == s.regions[|s.sent|].at
      && (if inTime then s.stored[|s.sent|] && size == |s.regions[|s.sent|].msg| else size == 0)
    case _ => true
  }

  ghost predicate Flushed(s: State)
    requires |s.regions| == |s.stored|
  {
    && |s.sent| == |s.inTime| <= |s.regions|
    && s.read == (if |s.sent| == |s.regions| then s.write else s.regions[|s.sent|].at)
    && (forall k | 0 <= k < |s.sent| :: s.sent[k] == if s.inTime[k] then s.regions[k].msg else [])
  }

  ghost predicate Inv(s: State) {
    && Exclusive(s)
    && Owned(s)
    && Laid(s)
    && Flushed(s)
    && (forall t: nat :: InStep(s, At(s, t)))
  }

  predicate Initial(s: State) {
    && s.lock == None && s.read == s.write == 0 && |s.memory| == MEM_SIZE && s.threads == map[]
    && s.regions == [] && s.owner == [] && s.stored == [] && s.sent == [] && s.inTime == []
  }

  function Moved(s: State, t: nat, p: Phase): State {
    s.(threads := s.threads[t := p])
  }

  function Take(s: State, t: nat, p: Phase): State {
    if s.lock.None? then Moved(s, t, p).(lock := Some(t)) else s
  }

  function Release(s: State, t: nat, p: Phase): State {
    Moved(s, t, p).(lock := None)
  }

  /** `b` copied into the memory at `at`. */
  function Put(m: Bytes, at: nat, b: Bytes): (m': Bytes)
    requires at + |b| <= |m|
    ensures |m'| == |m| && m'[at..at + |b|] == b
    ensures forall k | 0 <= k < |m| && !(at <= k < at + |b|) :: m'[k] == m[k]
  {
    m[..at] + b + m[at + |b|..]
  }

  function Carve(s: State, t: nat, msg: Bytes, at: nat): State
    requires at <= MEM_SIZE && at <= s.write
  {
    match RegionEnd(at, |msg|)
    case None => Moved(s, t, Refused)
    case Some(end) =>
      Moved(s, t, Advanced(|s.regions|)).(
        write := s.write + (end - at),
        regions := s.regions + [Region(at, end, msg)], owner := s.owner + [t], stored := s.stored + [false])
  }

  function Head(s: State, t: nat, i: nat): State
    requires i < |s.regions| && s.regions[i].at + HEADER_SIZE <= s.regions[i].end <= |s.memory| <= MEM_SIZE
  {
    var r := s.regions[i];
    Moved(s, t, Headed(i)).(memory := Put(s.memory, r.at, IntBytes(0) + IntBytes(r.end - r.at)))
  }

  function Copy(s: State, t: nat, i: nat, done: nat): State
    requires i < |s.regions| == |s.stored| && Copied(s.memory, s.regions[i], done) && |s.memory| <= MEM_SIZE
  {
    var r := s.regions[i];
    if done < |r.msg| then
      Moved(s, t, Copying(i, done + 1)).(memory := Put(s.memory, r.at + HEADER_SIZE + done, [r.msg[done]]))
    else
      Moved(s, t, Idle).(memory := Put(s.memory, r.at, IntBytes(|r.msg|)), stored := s.stored[i := true])
  }

  function Measure(s: State, t: nat): State
    requires s.read + HEADER_SIZE <= |s.memory| && |s.sent| < |s.stored|
  {
    Moved(s, t, Measured(IntAt(s.memory, s.read), s.stored[|s.sent|]))
  }

  function Deliver(s: State, t: nat, size: nat, inTime: bool): State
    requires s.read + HEADER_SIZE + size <= |s.memory|
  {
    Moved(s, t, Walking).(
      sent := s.sent + [s.memory[s.read + HEADER_SIZE..s.read + HEADER_SIZE + size]], inTime := s.inTime + [inTime],
      read := s.read + IntAt(s.memory, s.read + 4))
  }

  function Step(s: State, t: nat, c: Choice): State
    requires Inv(s)
  {
    match At(s, t)
    case Idle =>
      (match c
       case Write(msg) => Moved(s, t, Spinning(msg))
       case Flush => Moved(s, t, FlushSpinning)
       case Go(_) => s)
    case Spinning(msg) => Take(s, t, Entered(msg))
    case Entered(msg) => Moved(s, t, Loaded(msg, s.write))
    case Loaded(msg, at) =>
      WriteBound(s.regions, s.write);
      assert InStep(s, At(s, t));
      Carve(s, t, msg, at)
    case Refused => Release(s, t, Idle)
    case Advanced(i) =>
      OwnedRegion(s, t, i);
      Head(s, t, i)
    case Headed(i) => Release(s, t, Copying(i, 0))
    case Copying(i, done) =>
      OwnedRegion(s, t, i);
      assert InStep(s, At(s, t));
      Copy(s, t, i, done)
    case FlushSpinning => Take(s, t, Walking)
    case Walking =>
      if s.read == s.write then
        Release(s, t, Idle)
      else
        NextRegion(s, t);
        Measure(s, t)
    case Measured(size, inTime) =>
      if c.Go? && c.socketFails then
        Moved(s, t, Walking)
      else
        assert InStep(s, At(s, t));
        NextRegion(s, t);
        Deliver(s, t, size, inTime)
  }

  lemma OwnedRegion(s: State, t: nat, i: nat)
    requires Inv(s) && Owns(At(s, t), i)
    ensures i < |s.regions| && s.owner[i] == t && !s.stored[i]
    ensures s.regions[i].at + HEADER_SIZE + |s.regions[i].msg| <= s.regions[i].end <= s.write <= MEM_SIZE
  {
    ChainedParts(s.regions, s.write, i);
    WriteBound(s.regions, s.write);
  }

  /** While a flush walks, the header of every region is in place. */
  lemma NextRegion(s: State, t: nat)
    requires Inv(s) && (At(s, t).Walking? || At(s, t).Measured?) && |s.sent| < |s.regions|
    ensures s.read == s.regions[|s.sent|].at
    ensures Written(s.memory, s.regions[|s.sent|], s.stored[|s.sent|])
  {
    var o := s.owner[|s.sent|];
    assert Inside(At(s, o)) <==> s.lock == Some(o);
    assert Inside(At(s, t)) <==> s.lock == Some(t);
  }

  function Carved(s: State, t: nat, r: Region): State {
    Moved(s, t, Advanced(|s.regions|)).(
      write := r.end, regions := s.regions + [r], owner := s.owner + [t], stored := s.stored + [false])
  }

  lemma CarveKeeps(s: State, t: nat, msg: Bytes, at: nat)
    requires Inv(s) && At(s, t) == Loaded(msg, at)
    requires at <= MEM_SIZE && RegionEnd(at, |msg|).Some?
    ensures at <= s.write && Inv(Carve(s, t, msg, at))
  {
    hide Exclusive, Owned, Laid, Flushed, Padding, StdAlign, RegionEnd;
    LoadedAt(s, t);
    RegionFits(at, |msg|);
    CarveIsCarved(s, t, msg, at);
    CarvedKeeps(s, t, Region(at, RegionEnd(at, |msg|).value, msg));
  }

  lemma LoadedAt(s: State, t: nat)
    requires Inv(s) && At(s, t).Loaded?
    ensures At(s, t).at == s.write
  {
    assert InStep(s, At(s, t));
  }

  lemma CarvedKeeps(s: State, t: nat, r: Region)
    requires Inv(s) && At(s, t).Loaded?
    requires r.at == s.write && r.at + HEADER_SIZE + |r.msg| <= r.end <= MEM_SIZE && r.end % MEM_ALIGN == 0
    ensures Inv(Carved(s, t, r))
  {
    hide Inv, InStep, Carved, Flushed, Exclusive, Owned, Laid;
    CarvedExclusive(s, t, r);
    CarvedOwned(s, t, r);
    CarvedLaid(s, t, r);
    CarvedInStep(s, t, r);
    CarvedFlushed(s, t, r);
    PartsAreInv(Carved(s, t, r));
  }

  lemma PartsAreInv(s: State)
    requires Exclusive(s) && Owned(s) && Laid(s) && Flushed(s) && forall t: nat :: InStep(s, At(s, t))
    ensures Inv(s)
  {
  }

  lemma CarveIsCarved(s: State, t: nat, msg: Bytes, at: nat)
    requires at == s.write <= MEM_SIZE && RegionEnd(at, |msg|).Some?
    ensures Carve(s, t, msg, at) == Carved(s, t, Region(at, RegionEnd(at, |msg|).value, msg))
  {
  }

  lemma CarvedExclusive(s: State, t: nat, r: Region)
    requires Inv(s) && At(s, t).Loaded?
    ensures Exclusive(Carved(s, t, r))
  {
    hide Flushed, Owned, Laid, Chained, InStep;
    forall u: nat
      ensures Inside(At(Carved(s, t, r), u)) <==> s.lock == Some(u)
    {
      assert Inside(At(s, u)) <==> s.lock == Some(u);
    }
  }

  lemma OwnerOf(s: State, t: nat, i: int)
    requires Owned(s)
    ensures |s.owner| == |s.regions| == |s.stored|
    ensures Owns(At(s, t), i) <==> 0 <= i < |s.regions| && s.owner[i] == t && !s.stored[i]
  {
  }

  lemma CarvedOwned(s: State, t: nat, r: Region)
    requires Inv(s) && At(s, t).Loaded?
    ensures Owned(Carved(s, t, r))
  {
    OwnerOf(s, t, 0);
    var s' := Carved(s, t, r);
    assert |s'.owner| == |s'.regions| == |s'.stored|;
    assert Owned(s') by {
      forall u: nat, i: int
        ensures Owns(At(s', u), i) <==> 0 <= i < |s'.regions| && s'.owner[i] == u && !s'.stored[i]
      {
        CarvedOwner(s, t, r, u, i);
      }
    }
  }

  lemma CarvedOwner(s: State, t: nat, r: Region, u: nat, i: int)
    requires Owned(s) && At(s, t).Loaded?
    ensures var s' := Carved(s, t, r);
      |s'.owner| == |s'.regions| == |s'.stored|
      && (Owns(At(s', u), i) <==> 0 <= i < |s'.regions| && s'.owner[i] == u && !s'.stored[i])
  {
    OwnerOf(s, u, i);
  }

  lemma CarvedLaid(s: State, t: nat, r: Region)
    requires Inv(s) && At(s, t).Loaded?
    requires r.at == s.write && r.at + HEADER_SIZE + |r.msg| <= r.end <= MEM_SIZE && r.end % MEM_ALIGN == 0
    ensures Laid(Carved(s, t, r))
  {
    hide Flushed, InStep, Written;
    var s', n := Carved(s, t, r), |s.regions|;
    assert s'.regions[..n] == s.regions;
    assert Chained(s'.regions, s'.write);
    forall i | 0 <= i < |s'.regions| && At(s', s'.owner[i]) != Advanced(i)
      ensures Written(s'.memory, s'.regions[i], s'.stored[i])
    {
      assert i < n;
      var o := s.owner[i];
      if o != t {
        assert At(s', o) == At(s, o);
      }
    }
  }

  lemma CarvedInStep(s: State, t: nat, r: Region)
    requires Inv(s) && At(s, t).Loaded?
    ensures var s' := Carved(s, t, r);
      |s'.regions| == |s'.stored| && forall u: nat :: InStep(s', At(s', u))
  {
    hide Flushed, Laid, Chained, Copied;
    var s' := Carved(s, t, r);
    forall u: nat
      ensures InStep(s', At(s', u))
    {
      assert InStep(s, At(s, u));
      if u != t {
        OthersAreOutside(s, t, u);
      }
    }
  }

  lemma CarvedFlushed(s: State, t: nat, r: Region)
    requires Inv(s) && r.at == s.write
    ensures var s' := Carved(s, t, r); |s'.regions| == |s'.stored| && Flushed(s')
  {
    hide Laid, Chained, InStep, Exclusive;
  }

  lemma OnlyInside(s: State, t: nat, u: nat)
    requires Exclusive(s) && Inside(At(s, t)) && Inside(At(s, u))
    ensures t == u
  {
    assert s.lock == Some(t) && s.lock == Some(u);
  }

  lemma OthersAreOutside(s: State, t: nat, u: nat)
    requires Exclusive(s) && Inside(At(s, t)) && u != t
    ensures !Inside(At(s, u))
  {
    if Inside(At(s, u)) {
      OnlyInside(s, t, u);
      assert false;
    }
  }

  /** Nothing but the phase of `t` and the inside of its own region `i` differs between `s` and `s'`. */
  ghost predicate WroteOwn(s: State, t: nat, i: nat, s': State) {
    && i < |s.regions| && |s'.memory| == |s.memory|
    && s' == Moved(s, t, At(s', t)).(memory := s'.memory, stored := s'.stored, lock := s'.lock)
    && (forall k | 0 <= k < |s.memory| && !(s.regions[i].at <= k < s.regions[i].end) :: s'.memory[k] == s.memory[k])
    && |s'.stored| == |s.stored|
    && (forall j | 0 <= j < |s.stored| && j != i :: s'.stored[j] == s.stored[j])
  }

  /** What a thread writes into its own region, no other region notices. */
  lemma OtherRegionsKeep(s: State, t: nat, i: nat, s': State, j: nat)
    requires Inv(s) && WroteOwn(s, t, i, s') && j < |s.regions| && j != i
    ensures Written(s.memory, s.regions[j], s.stored[j]) ==> Written(s'.memory, s.regions[j], s.stored[j])
    ensures forall done: nat | Copied(s.memory, s.regions[j], done) :: Copied(s'.memory, s.regions[j], done)
  {
    hide Flushed, InStep, Exclusive, Chained, IntBytes, Owned;
    var r := s.regions[j];
    if i < j {
      RegionsAreDisjoint(s.regions, s.write, i, j);
    } else {
      RegionsAreDisjoint(s.regions, s.write, j, i);
    }
    ChainedParts(s.regions, s.write, j);
    WriteBound(s.regions, s.write);
    forall lo, hi | r.at <= lo <= hi <= r.end
      ensures s'.memory[lo..hi] == s.memory[lo..hi]
    {
    }
  }

  lemma WroteOwnKeeps(s: State, t: nat, i: nat, s': State)
    requires Inv(s) && Owns(At(s, t), i) && WroteOwn(s, t, i, s')
    requires LockPassed(s, t, s')
    requires s'.stored[i] <==> !Owns(At(s', t), i)
    requires forall j: int :: Owns(At(s', t), j) ==> j == i
    requires !At(s', t).Advanced? && Written(s'.memory, s.regions[i], s'.stored[i])
    requires InStep(s', At(s', t))
    ensures Inv(s')
  {
    hide Written, Copied;
    assert Others(s, t, s');
    ExclusiveKept(s, t, s');
    WroteOwned(s, t, i, s');
    WroteLaid(s, t, i, s');
    WroteInStep(s, t, i, s');
    WroteFlushed(s, t, i, s');
  }

  ghost predicate Others(s: State, t: nat, s': State) {
    forall u: nat :: u != t ==> At(s', u) == At(s, u)
  }

  /** Only the thread that takes or frees the lock enters or leaves it. */
  ghost predicate LockPassed(s: State, t: nat, s': State) {
    && (s'.lock == s.lock || (s.lock == None && s'.lock == Some(t)) || (s.lock == Some(t) && s'.lock == None))
    && (Inside(At(s', t)) <==> s'.lock == Some(t))
  }

  lemma ExclusiveKept(s: State, t: nat, s': State)
    requires Exclusive(s) && Others(s, t, s') && LockPassed(s, t, s')
    ensures Exclusive(s')
  {
    forall u: nat
      ensures Inside(At(s', u)) <==> s'.lock == Some(u)
    {
      assert Inside(At(s, u)) <==> s.lock == Some(u);
    }
  }

  lemma WroteOwned(s: State, t: nat, i: nat, s': State)
    requires Inv(s) && Owns(At(s, t), i) && WroteOwn(s, t, i, s') && Others(s, t, s')
    requires s'.stored[i] <==> !Owns(At(s', t), i)
    requires forall j: int :: Owns(At(s', t), j) ==> j == i
    ensures Owned(s')
  {
    hide Flushed, Laid, Chained, InStep, Exclusive;
    forall u: nat, j: int
      ensures Owns(At(s', u), j) <==> 0 <= j < |s'.regions| && s'.owner[j] == u && !s'.stored[j]
    {
      OwnerOf(s, u, j);
      OwnerOf(s, t, i);
      if u == t && j != i {
        assert !Owns(At(s, t), j);
      }
    }
  }

  lemma WroteLaid(s: State, t: nat, i: nat, s': State)
    requires Inv(s) && Owns(At(s, t), i) && WroteOwn(s, t, i, s') && Others(s, t, s')
    requires !At(s', t).Advanced? && Written(s'.memory, s.regions[i], s'.stored[i])
    requires Owned(s')
    ensures Laid(s')
  {
    hide Flushed, InStep, Exclusive, Chained, Written;
    assert s.owner[i] == t by {
      assert Owns(At(s, t), i);
    }
    forall j | 0 <= j < |s'.regions| && At(s', s'.owner[j]) != Advanced(j)
      ensures Written(s'.memory, s'.regions[j], s'.stored[j])
    {
      if j != i {
        OtherRegionsKeep(s, t, i, s', j);
        if s.owner[j] == t {
          assert !Owns(At(s, t), j);
        }
        assert At(s, s.owner[j]) != Advanced(j);
      }
    }
  }

  lemma WroteInStep(s: State, t: nat, i: nat, s': State)
    requires Inv(s) && Owns(At(s, t), i) && WroteOwn(s, t, i, s') && Others(s, t, s')
    requires InStep(s', At(s', t))
    ensures forall u: nat :: InStep(s', At(s', u))
  {
    hide Flushed, Laid, Exclusive, Chained, Written, Copied;
    assert !s.stored[i] && s.owner[i] == t by {
      assert Owns(At(s, t), i);
    }
    forall u: nat
      ensures InStep(s', At(s', u))
    {
      assert InStep(s, At(s, u));
      if u != t && At(s, u).Copying? {
        var j := At(s, u).i;
        assert Owns(At(s, u), j);
        OtherRegionsKeep(s, t, i, s', j);
      }
    }
  }

  lemma WroteFlushed(s: State, t: nat, i: nat, s': State)
    requires Inv(s) && WroteOwn(s, t, i, s')
    ensures Flushed(s')
  {
    hide Laid, Exclusive, Chained, InStep;
  }

  /** A thread moves without touching anything shared but, perhaps, the lock. */
  lemma MoveKeeps(s: State, t: nat, s': State)
    requires Inv(s) && s' == Moved(s, t, At(s', t)).(lock := s'.lock) && LockPassed(s, t, s')
    requires !At(s, t).Advanced? && !At(s', t).Advanced?
    requires forall i: int :: Owns(At(s', t), i) <==> Owns(At(s, t), i)
    requires InStep(s, At(s', t))
    ensures Inv(s')
  {
    hide Written, Copied, Chained, Inside, Padding;
    assert Others(s, t, s');
    ExclusiveKept(s, t, s');
    MovedOwned(s, t, s');
    MovedLaid(s, t, s');
    MovedInStep(s, t, s');
  }

  ghost predicate SameMemory(s: State, s': State) {
    && s'.memory == s.memory && s'.write == s.write
    && s'.regions == s.regions && s'.owner == s.owner && s'.stored == s.stored
  }

  lemma MovedOwned(s: State, t: nat, s': State)
    requires Inv(s) && SameMemory(s, s') && Others(s, t, s')
    requires forall i: int :: Owns(At(s', t), i) <==> Owns(At(s, t), i)
    ensures Owned(s')
  {
    forall u: nat, j: int
      ensures Owns(At(s', u), j) <==> Owns(At(s, u), j)
    {
      if u != t {
        assert At(s', u) == At(s, u);
      }
    }
  }

  lemma MovedLaid(s: State, t: nat, s': State)
    requires Inv(s) && SameMemory(s, s') && Others(s, t, s')
    requires !At(s, t).Advanced?
    ensures Laid(s')
  {
    hide Flushed, Exclusive, Chained, InStep, Written;
    forall j | 0 <= j < |s'.regions| && At(s', s'.owner[j]) != Advanced(j)
      ensures Written(s'.memory, s'.regions[j], s'.stored[j])
    {
      assert At(s, s.owner[j]) != Advanced(j);
    }
  }

  lemma MovedInStep(s: State, t: nat, s': State)
    requires Inv(s) && s' == Moved(s, t, At(s', t)).(lock := s'.lock) && Others(s, t, s')
    requires InStep(s, At(s', t))
    ensures forall u: nat :: InStep(s', At(s', u))
  {
    hide Flushed, Exclusive, Chained, Laid, Written, Copied;
    forall u: nat
      ensures InStep(s', At(s', u))
    {
      assert InStep(s, At(s, u));
      assert InStep(s, At(s', u));
    }
  }

  lemma ThreadFacts(s: State, t: nat)
    requires Inv(s)
    ensures |s.memory| == MEM_SIZE && |s.regions| == |s.stored| == |s.owner| && InStep(s, At(s, t))
    ensures s.write <= MEM_SIZE
    ensures At(s, t).Headed? ==> Copied(s.memory, s.regions[At(s, t).i], 0)
    ensures Inside(At(s, t)) <==> s.lock == Some(t)
  {
    WriteBound(s.regions, s.write);
    if At(s, t).Headed? {
      OwnedRegion(s, t, At(s, t).i);
    }
  }

  lemma HeadKeeps(s: State, t: nat, i: nat)
    requires Inv(s) && At(s, t) == Advanced(i)
    ensures i < |s.regions| && s.regions[i].at + HEADER_SIZE <= s.regions[i].end <= |s.memory|
    ensures Inv(Head(s, t, i))
  {
    hide Exclusive, Owned, Laid, Flushed, IntBytes, Put, Chained;
    OwnedRegion(s, t, i);
    ThreadFacts(s, t);
    var r, s' := s.regions[i], Head(s, t, i);
    var header := IntBytes(0) + IntBytes(r.end - r.at);
    assert s'.memory[r.at..r.at + |header|] == header;
    SliceOfSlice(s'.memory, r.at, 8, 0, 4);
    SliceOfSlice(s'.memory, r.at, 8, 4, 8);
    WroteOwnKeeps(s, t, i, s');
  }

  lemma CopyKeeps(s: State, t: nat, i: nat, done: nat)
    requires Inv(s) && At(s, t) == Copying(i, done)
    ensures i < |s.regions| == |s.stored| && Copied(s.memory, s.regions[i], done) && |s.memory| <= MEM_SIZE
    ensures Inv(Copy(s, t, i, done))
  {
    hide Exclusive, Owned, Flushed, IntBytes, Put, Chained;
    OwnedRegion(s, t, i);
    ThreadFacts(s, t);
    assert Written(s.memory, s.regions[i], s.stored[i]);
    if done < |s.regions[i].msg| {
      CopyByteKeeps(s, t, i, done);
    } else {
      StoreSizeKeeps(s, t, i, done);
    }
  }

  lemma CopyByteKeeps(s: State, t: nat, i: nat, done: nat)
    requires Inv(s) && At(s, t) == Copying(i, done)
    requires i < |s.regions| == |s.stored| && Copied(s.memory, s.regions[i], done) && |s.memory| == MEM_SIZE
    requires done < |s.regions[i].msg| && !s.stored[i] && Written(s.memory, s.regions[i], false)
    ensures Inv(Copy(s, t, i, done))
  {
    hide Exclusive, Owned, Flushed, IntBytes, Put, Chained, Laid;
    ThreadFacts(s, t);
    var r, s' := s.regions[i], Copy(s, t, i, done);
    var m, m', at := s.memory, s'.memory, s.regions[i].at;
    assert m'[at..at + 4] == m[at..at + 4] && m'[at + 4..at + 8] == m[at + 4..at + 8];
    var p := at + HEADER_SIZE + done;
    assert m'[p..p + 1] == [r.msg[done]];
    assert m'[p] == m'[p..p + 1][0];
    assert m'[at + HEADER_SIZE..p] == m[at + HEADER_SIZE..p];
    SliceGrows(m', at + HEADER_SIZE, p);
    SliceGrows(r.msg, 0, done);
    WroteOwnKeeps(s, t, i, s');
  }

  lemma StoreSizeKeeps(s: State, t: nat, i: nat, done: nat)
    requires Inv(s) && At(s, t) == Copying(i, done)
    requires i < |s.regions| == |s.stored| && Copied(s.memory, s.regions[i], done) && |s.memory| == MEM_SIZE
    requires done == |s.regions[i].msg| && !s.stored[i] && Written(s.memory, s.regions[i], false)
    ensures Inv(Copy(s, t, i, done))
  {
    hide Exclusive, Owned, Flushed, IntBytes, Put, Chained, Laid;
    ThreadFacts(s, t);
    var r, s' := s.regions[i], Copy(s, t, i, done);
    var m, m', at := s.memory, s'.memory, s.regions[i].at;
    assert m'[at + 4..at + 8] == m[at + 4..at + 8];
    assert m'[at + HEADER_SIZE..at + HEADER_SIZE + done] == m[at + HEADER_SIZE..at + HEADER_SIZE + done];
    WroteOwnKeeps(s, t, i, s');
  }

  /** No other thread is inside, so no other phase depends on what a flush changes. */
  lemma DeliveredInStep(s: State, t: nat, s': State)
    requires Inv(s) && SameMemory(s, s') && Others(s, t, s')
    requires Inside(At(s, t)) && At(s', t).Walking?
    ensures forall u: nat :: InStep(s', At(s', u))
  {
    hide Flushed, Chained, Laid, Written, Copied;
    forall u: nat
      ensures InStep(s', At(s', u))
    {
      assert InStep(s, At(s, u));
      if u != t {
        OthersAreOutside(s, t, u);
      }
    }
  }

  lemma MeasuredFacts(s: State, t: nat)
    requires Inv(s) && At(s, t).Measured?
    ensures |s.sent| < |s.regions| == |s.stored| && s.read == s.regions[|s.sent|].at
    ensures At(s, t).inTime ==> s.stored[|s.sent|] && At(s, t).size == |s.regions[|s.sent|].msg|
    ensures !At(s, t).inTime ==> At(s, t).size == 0
  {
    assert InStep(s, At(s, t));
  }

  /** What is sent is the message or nothing, and the read pointer lands on the next region. */
  lemma DeliveredFlushed(s: State, t: nat, size: nat, inTime: bool)
    requires Inv(s) && At(s, t) == Measured(size, inTime)
    ensures s.read + HEADER_SIZE + size <= |s.memory|
    ensures var s' := Deliver(s, t, size, inTime); |s'.regions| == |s'.stored| && Flushed(s')
  {
    hide IntBytes, IntAt, Chained, Exclusive, Owned, InStep;
    ThreadFacts(s, t);
    MeasuredFacts(s, t);
    NextRegion(s, t);
    var f, s' := |s.sent|, Deliver(s, t, size, inTime);
    var r := s.regions[f];
    IntIsRead(s.memory, s.read + 4, r.end - r.at);
    ChainedParts(s.regions, s.write, f);
    assert s'.sent[f] == if inTime then r.msg else [];
  }

  lemma DeliverKeeps(s: State, t: nat, size: nat, inTime: bool)
    requires Inv(s) && At(s, t) == Measured(size, inTime)
    ensures s.read + HEADER_SIZE + size <= |s.memory|
    ensures Inv(Deliver(s, t, size, inTime))
  {
    hide IntBytes, IntAt, Chained, Written;
    DeliveredFlushed(s, t, size, inTime);
    var s' := Deliver(s, t, size, inTime);
    assert Others(s, t, s');
    ThreadFacts(s, t);
    ExclusiveKept(s, t, s');
    MovedOwned(s, t, s');
    MovedLaid(s, t, s');
    DeliveredInStep(s, t, s');
  }

  /** Every step of every thread keeps the invariant. */
  lemma StepKeeps(s: State, t: nat, c: Choice)
    requires Inv(s)
    ensures Inv(Step(s, t, c))
  {
    hide Exclusive, Owned, Laid, Flushed, IntBytes, Put, Chained, Written, Padding;
    ThreadFacts(s, t);
    var s' := Step(s, t, c);
    match At(s, t)
    case Loaded(msg, at) =>
      if RegionEnd(at, |msg|).Some? {
        CarveKeeps(s, t, msg, at);
      } else {
        MoveKeeps(s, t, s');
      }
    case Advanced(i) => HeadKeeps(s, t, i);
    case Copying(i, done) => CopyKeeps(s, t, i, done);
    case Measured(size, inTime) =>
      if c.Go? && c.socketFails {
        MoveKeeps(s, t, s');
      } else {
        DeliverKeeps(s, t, size, inTime);
      }
    case Walking =>
      WalkKeeps(s, t);
    case _ =>
      if s' != s {
        MoveKeeps(s, t, s');
      }
  }

  lemma WalkKeeps(s: State, t: nat)
    requires Inv(s) && At(s, t).Walking?
    ensures Inv(Step(s, t, Flush))
  {
    hide Owned, Laid, IntBytes, Put, Chained, Padding;
    ThreadFacts(s, t);
    if s.read != s.write {
      NextRegion(s, t);
      IntIsRead(s.memory, s.read, if s.stored[|s.sent|] then |s.regions[|s.sent|].msg| else 0);
    }
    MoveKeeps(s, t, Step(s, t, Flush));
  }

  type Schedule = seq<(nat, Choice)>

  /** Let the threads move in the order of the schedule; a thread that waits for the lock stays where it is. */
  function Run(s: State, schedule: Schedule): (s': State)
    requires Inv(s)
    ensures Inv(s')
    decreases |schedule|
  {
    hide Inv, Step;
    if schedule == [] then s
    else
      StepKeeps(s, schedule[0].0, schedule[0].1);
      Run(Step(s, schedule[0].0, schedule[0].1), schedule[1..])
  }

  lemma InitialHolds(s: State)
    requires Initial(s)
    ensures Inv(s)
  {
    forall t: nat
      ensures InStep(s, At(s, t))
    {
      assert At(s, t) == Idle;
    }
  }

  /**
   Whatever the interleaving: one thread at most is inside the lock, the regions are aligned, lie
   inside the memory and share no byte, and what was sent is, region by region and in their order,
   the message or nothing.
   */
  lemma EveryInterleaving(s0: State, schedule: Schedule)
    requires Initial(s0)
    ensures Inv(s0)
    ensures var s := Run(s0, schedule);
      && (forall t: nat, u: nat :: Inside(At(s, t)) && Inside(At(s, u)) ==> t == u)
      && (forall r | r in s.regions ::
            && r.at % MEM_ALIGN == 0 == r.end % MEM_ALIGN
            && r.at + HEADER_SIZE + |r.msg| <= r.end <= s.write <= MEM_SIZE)
      && (forall i, j | 0 <= i < j < |s.regions| :: s.regions[i].end <= s.regions[j].at)
      && |s.sent| == |s.inTime| <= |s.regions|
      && (forall k | 0 <= k < |s.sent| :: s.sent[k] == if s.inTime[k] then s.regions[k].msg else [])
  {
    hide Exclusive, Owned, InStep, Run, Written;
    InitialHolds(s0);
    var s := Run(s0, schedule);
    ThreadFacts(s, 0);
    forall t: nat, u: nat | Inside(At(s, t)) && Inside(At(s, u))
      ensures t == u
    {
      OnlyInside(s, t, u);
    }
    forall i | 0 <= i < |s.regions|
      ensures s.regions[i].at % MEM_ALIGN == 0 == s.regions[i].end % MEM_ALIGN
      ensures s.regions[i].at + HEADER_SIZE + |s.regions[i].msg| <= s.regions[i].end <= s.write
    {
      ChainedParts(s.regions, s.write, i);
      ChainedParts(s.regions, s.write, i + 1);
    }
    forall i, j | 0 <= i < j < |s.regions|
      ensures s.regions[i].end <= s.regions[j].at
    {
      RegionsAreDisjoint(s.regions, s.write, i, j);
    }
  }

  /** What a flush has sent for a region is final; nothing is sent for it again. */
  lemma {:induction false} HistoryGrows(s: State, schedule: Schedule)
    requires Inv(s)
    ensures var s' := Run(s, schedule);
      s.regions <= s'.regions && s.sent <= s'.sent && s.inTime <= s'.inTime
    decreases |schedule|
  {
    if schedule != [] {
      StepKeeps(s, schedule[0].0, schedule[0].1);
      StepGrows(s, schedule[0].0, schedule[0].1);
      HistoryGrows(Step(s, schedule[0].0, schedule[0].1), schedule[1..]);
    }
  }

  /** Regions and deliveries are only added, a delivery by a flush in phase `p`. */
  ghost predicate Grown(s: State, p: Phase, s': State) {
    && s.regions <= s'.regions && s.sent <= s'.sent && s.inTime <= s'.inTime
    && |s'.sent| <= |s.sent| + 1
    && |s'.inTime| - |s.inTime| == |s'.sent| - |s.sent|
    && (|s'.sent| > |s.sent| ==> p.Measured? && |s.inTime| == |s.sent| && s'.inTime[|s.sent|] == p.inTime)
  }

  lemma SameGrown(s: State, p: Phase, s': State)
    requires s'.regions == s.regions && s'.sent == s.sent && s'.inTime == s.inTime
    ensures Grown(s, p, s')
  {
  }

  lemma DeliverGrows(s: State, t: nat, size: nat, inTime: bool)
    requires s.read + HEADER_SIZE + size <= |s.memory| && |s.sent| == |s.inTime|
    ensures Grown(s, Measured(size, inTime), Deliver(s, t, size, inTime))
  {
  }

  lemma CarveGrows(s: State, t: nat, msg: Bytes, at: nat)
    requires at <= MEM_SIZE && at <= s.write
    ensures Grown(s, Loaded(msg, at), Carve(s, t, msg, at))
  {
    hide RegionEnd;
  }

  lemma GrowthFacts(s: State, t: nat)
    requires Inv(s)
    ensures |s.sent| == |s.inTime| && s.write <= MEM_SIZE
    ensures At(s, t).Loaded? ==> At(s, t).at <= s.write
    ensures At(s, t).Measured? ==> s.read + HEADER_SIZE + At(s, t).size <= |s.memory|
  {
    ThreadFacts(s, t);
    hide Exclusive, Owned, Laid, Chained;
    if At(s, t).Measured? {
      NextRegion(s, t);
    }
  }

  lemma StepGrows(s: State, t: nat, c: Choice)
    requires Inv(s)
    ensures Grown(s, At(s, t), Step(s, t, c))
  {
    hide Grown, Inv, Carve, Deliver;
    GrowthFacts(s, t);
    var p := At(s, t);
    if p.Loaded? {
      CarveGrows(s, t, p.msg, p.at);
    } else if p.Measured? && !(c.Go? && c.socketFails) {
      DeliverGrows(s, t, p.size, p.inTime);
    } else {
      SameGrown(s, p, Step(s, t, c));
    }
  }

  /** A flushed message arrived exactly if its size had been stored when the flush read it. */
  lemma ArrivedIff(s0: State, schedule: Schedule, k: nat)
    requires Initial(s0)
    ensures Inv(s0)
    ensures var s := Run(s0, schedule);
      k < |s.sent| ==> (s.sent[k] == s.regions[k].msg <==> s.inTime[k] || s.regions[k].msg == [])
  {
    EveryInterleaving(s0, schedule);
  }

  ghost predicate NoneInFlight(s: State) {
    forall t: nat :: !At(s, t).Headed? && !At(s, t).Copying?
  }

  /** No flush looks at a header while a writer is between leaving the lock and storing its size. */
  ghost predicate Quiet(s: State, schedule: Schedule)
    requires Inv(s)
    decreases |schedule|
  {
    schedule != [] ==>
      && (At(s, schedule[0].0).Walking? ==> NoneInFlight(s))
      && StepKept(s, schedule[0].0, schedule[0].1)
      && Quiet(Step(s, schedule[0].0, schedule[0].1), schedule[1..])
  }

  predicate StepKept(s: State, t: nat, c: Choice): (kept: bool)
    requires Inv(s)
    ensures kept && Inv(Step(s, t, c))
  {
    StepKeeps(s, t, c);
    true
  }

  ghost predicate AllInTime(s: State) {
    && (forall k | 0 <= k < |s.inTime| :: s.inTime[k])
    && (forall t: nat :: At(s, t).Measured? ==> At(s, t).inTime)
  }

  lemma QuietStep(s: State, t: nat, c: Choice)
    requires Inv(s) && AllInTime(s) && (At(s, t).Walking? ==> NoneInFlight(s))
    ensures AllInTime(Step(s, t, c))
  {
    hide Laid, Chained, Put, Padding;
    var s' := Step(s, t, c);
    StepGrows(s, t, c);
    assert forall u: nat :: u != t ==> At(s', u) == At(s, u);
    if At(s, t).Walking? && s.read != s.write {
      var o := s.owner[|s.sent|];
      assert Owns(At(s, o), |s.sent|) <==> !s.stored[|s.sent|];
      NextRegion(s, t);
      if o != t {
        OthersAreOutside(s, t, o);
      }
    }
  }

  /** If no flush meets a writer in flight, the flushes send all messages they pass, unchanged and in order. */
  lemma {:induction false} QuietFlushesSendAll(s: State, schedule: Schedule)
    requires Inv(s) && AllInTime(s) && Quiet(s, schedule)
    ensures var s' := Run(s, schedule);
      |s'.sent| <= |s'.regions| && s'.sent == Messages(s'.regions[..|s'.sent|])
    decreases |schedule|
  {
    if schedule != [] {
      StepKeeps(s, schedule[0].0, schedule[0].1);
      QuietStep(s, schedule[0].0, schedule[0].1);
      QuietFlushesSendAll(Step(s, schedule[0].0, schedule[0].1), schedule[1..]);
    }
  }

  /** A flush that meets a writer in flight sends nothing for its message, now and for ever. */
  lemma InFlightIsLost(s: State, f: nat, later: Schedule)
    requires Inv(s) && At(s, f).Walking? && |s.sent| < |s.regions|
    requires !s.stored[|s.sent|] && s.regions[|s.sent|].msg != []
    ensures var s' := Run(s, [(f, Go(false)), (f, Go(false))] + later);
      |s.sent| < |s'.sent| && s'.sent[|s.sent|] == [] != s'.regions[|s.sent|].msg
  {
    hide Inv, Step;
    var a := (f, Go(false));
    ThreadFacts(s, f);
    MeasuresNothing(s, f);
    var s1 := Step(s, f, Go(false));
    SendsNothing(s1, f);
    var s2 := Step(s1, f, Go(false));
    assert ([a, a] + later)[1..] == [a] + later && ([a] + later)[1..] == later;
    assert Run(s, [a, a] + later) == Run(s1, [a] + later) == Run(s2, later);
    HistoryGrows(s2, later);
  }

  lemma MeasuresNothing(s: State, f: nat)
    requires Inv(s) && At(s, f).Walking? && |s.sent| < |s.regions| == |s.stored| && !s.stored[|s.sent|]
    ensures var s1 := Step(s, f, Go(false));
      Inv(s1) && At(s1, f).Measured? && !At(s1, f).inTime && s1.regions == s.regions && s1.sent == s.sent
  {
    hide Exclusive, Owned, Laid, Chained;
    StepKeeps(s, f, Go(false));
    ReadIsBehind(s);
  }

  lemma SendsNothing(s: State, f: nat)
    requires Inv(s) && At(s, f).Measured? && !At(s, f).inTime
    ensures var s1 := Step(s, f, Go(false));
      Inv(s1) && s1.sent == s.sent + [[]] && s1.regions == s.regions
  {
    hide Exclusive, Owned, Laid, Chained, Flushed;
    StepKeeps(s, f, Go(false));
    ThreadFacts(s, f);
    NextRegion(s, f);
    MeasuredFacts(s, f);
    assert s.memory[s.read + HEADER_SIZE..s.read + HEADER_SIZE + 0] == [];
  }

  lemma ReadIsBehind(s: State)
    requires Inv(s) && |s.sent| < |s.regions|
    ensures s.read != s.write
  {
    ChainedParts(s.regions, s.write, |s.sent|);
  }

  /** When every thread is idle, the memory is what the sequential class calls valid. */
  lemma IdleIsSequential(s: State)
    requires Inv(s) && forall t: nat :: At(s, t).Idle?
    ensures forall r | r in s.regions :: Holds(s.memory, r)
  {
    ThreadFacts(s, 0);
    forall i | 0 <= i < |s.regions|
      ensures Holds(s.memory, s.regions[i])
    {
      assert Owns(At(s, s.owner[i]), i) <==> !s.stored[i];
      assert At(s, s.owner[i]).Idle?;
    }
  }

  lemma RunStep(s: State, t: nat, c: Choice, rest: Schedule)
    requires Inv(s)
    ensures Inv(Step(s, t, c)) && Run(s, [(t, c)] + rest) == Run(Step(s, t, c), rest)
  {
    hide Inv, Step;
    StepKeeps(s, t, c);
    assert ([(t, c)] + rest)[1..] == rest;
  }

  /** From the start, a writer carves a region and leaves the lock, and a flush enters it. */
  lemma WriterOvertaken(s0: State, msg: Bytes, rest: Schedule) returns (s: State)
    requires Initial(s0) && |msg| == 1
    ensures Inv(s0) && Inv(s) && Run(s0, Overtaking(msg) + rest) == Run(s, rest)
    ensures At(s, 1).Walking? && s.regions == [Region(0, 64, msg)] && s.stored == [false] && s.sent == []
  {
    hide Inv, Exclusive, Owned, Laid, Flushed, Run, Put, Chained;
    InitialHolds(s0);
    var r7 := [(1, Flush)] + rest;
    var r6 := [(1, Flush)] + r7;
    var r5 := [(0, Flush)] + r6;
    var r4 := [(0, Flush)] + r5;
    var r3 := [(0, Flush)] + r4;
    var r2 := [(0, Flush)] + r3;
    var r1 := [(0, Flush)] + r2;
    RunStep(s0, 0, Write(msg), r1);
    var s1 := Step(s0, 0, Write(msg));
    RunStep(s1, 0, Flush, r2);
    var s2 := Step(s1, 0, Flush);
    RunStep(s2, 0, Flush, r3);
    var s3 := Step(s2, 0, Flush);
    RunStep(s3, 0, Flush, r4);
    var s4 := Step(s3, 0, Flush);
    RunStep(s4, 0, Flush, r5);
    var s5 := Step(s4, 0, Flush);
    RunStep(s5, 0, Flush, r6);
    var s6 := Step(s5, 0, Flush);
    RunStep(s6, 1, Flush, r7);
    var s7 := Step(s6, 1, Flush);
    RunStep(s7, 1, Flush, rest);
    s := Step(s7, 1, Flush);
    assert [(0, Write(msg))] + r1 == Overtaking(msg) + rest;
  }

  function Overtaking(msg: Bytes): Schedule {
    [(0, Write(msg)), (0, Flush), (0, Flush), (0, Flush), (0, Flush), (0, Flush), (1, Flush), (1, Flush)]
  }

  /** The loss is reachable: one writer, one flush, one message. */
  lemma LossIsReachable(s0: State, msg: Bytes)
    requires Initial(s0) && |msg| == 1
    ensures Inv(s0)
    ensures var s := Run(s0, Overtaking(msg) + [(1, Go(false)), (1, Go(false))]);
      |s.sent| > 0 && |s.regions| > 0 && s.regions[0].msg == msg && s.sent[0] == []
  {
    hide Inv, Overtaking;
    var last := [(1, Go(false)), (1, Go(false))];
    var s := WriterOvertaken(s0, msg, last);
    assert last + [] == last;
    InFlightIsLost(s, 1, []);
    HistoryGrows(s, last);
    EveryInterleaving(s0, Overtaking(msg) + last);
  }

  /** Thread `t` moves alone; `fails` says which of its steps meet a failing socket. */
  function Alone(t: nat, fails: seq<bool>): Schedule {
    seq(|fails|, k requires 0 <= k < |fails| => (t, Go(fails[k])))
  }

  lemma AloneStep(s: State, t: nat, fails: seq<bool>)
    requires Inv(s) && fails != []
    ensures Inv(Step(s, t, Go(fails[0])))
    ensures Run(s, Alone(t, fails)) == Run(Step(s, t, Go(fails[0])), Alone(t, fails[1..]))
  {
    hide Inv, Step;
    RunStep(s, t, Go(fails[0]), Alone(t, fails[1..]));
    assert Alone(t, fails) == [(t, Go(fails[0]))] + Alone(t, fails[1..]);
  }

  lemma {:induction false} IdleStays(s: State, t: nat, fails: seq<bool>)
    requires Inv(s) && At(s, t).Idle?
    ensures Run(s, Alone(t, fails)) == s
  {
    hide Inv;
    if fails != [] {
      AloneStep(s, t, fails);
      IdleStays(s, t, fails[1..]);
    }
  }

  /** Thread `t` came to rest without touching anything but its region, whose size is stored now. */
  ghost predicate Stored(s: State, t: nat, i: nat, s': State) {
    && i < |s.stored|
    && s' == s.(threads := s.threads[t := Idle], memory := s'.memory, stored := s.stored[i := true])
  }

  /** A writer that copies is done after as many steps as bytes are left, and one for the size. */
  lemma {:induction false} CopyEnds(s: State, t: nat, fails: seq<bool>)
    requires Inv(s) && At(s, t).Copying? && At(s, t).i < |s.regions|
    requires |fails| > |s.regions[At(s, t).i].msg| - At(s, t).done
    ensures Stored(s, t, At(s, t).i, Run(s, Alone(t, fails)))
    decreases |fails|
  {
    hide Inv, Put, IntBytes, Copied;
    var i, done := At(s, t).i, At(s, t).done;
    CopyBound(s, t);
    AloneStep(s, t, fails);
    var s1 := Step(s, t, Go(fails[0]));
    CopyStep(s, t, Go(fails[0]));
    if done < |s.regions[i].msg| {
      CopyEnds(s1, t, fails[1..]);
    } else {
      IdleStays(s1, t, fails[1..]);
    }
  }

  lemma CopyBound(s: State, t: nat)
    requires Inv(s) && At(s, t).Copying?
    ensures |s.regions| == |s.stored| && At(s, t).i < |s.regions| && At(s, t).done <= |s.regions[At(s, t).i].msg|
  {
    assert InStep(s, At(s, t));
  }

  lemma CopyStep(s: State, t: nat, c: Choice)
    requires Inv(s) && At(s, t).Copying? && At(s, t).i < |s.regions| == |s.stored|
    ensures var i, done, s1 := At(s, t).i, At(s, t).done, Step(s, t, c);
      if done < |s.regions[i].msg|
      then s1 == s.(threads := s.threads[t := Copying(i, done + 1)], memory := s1.memory)
      else s1 == s.(threads := s.threads[t := Idle], memory := s1.memory, stored := s.stored[i := true])
  {
    hide Put, IntBytes, Flushed, Laid, Owned, Exclusive;
  }

  /** A writer that has carved its region frees the lock, copies and stores the size. */
  lemma CarvedEnds(s: State, t: nat, fails: seq<bool>)
    requires Inv(s) && (At(s, t).Advanced? || At(s, t).Headed?) && At(s, t).i < |s.regions| == |s.stored|
    requires |fails| > |s.regions[At(s, t).i].msg| + (if At(s, t).Advanced? then 2 else 1)
    ensures var i, s' := At(s, t).i, Run(s, Alone(t, fails));
      s' == s.(threads := s.threads[t := Idle], lock := None, memory := s'.memory, stored := s.stored[i := true])
    decreases |fails|
  {
    hide Inv, Put, IntBytes, Copied;
    AloneStep(s, t, fails);
    var s1 := Step(s, t, Go(fails[0]));
    if At(s, t).Advanced? {
      assert s1 == s.(threads := s.threads[t := Headed(At(s, t).i)], memory := s1.memory);
      CarvedEnds(s1, t, fails[1..]);
    } else {
      assert s1 == s.(threads := s.threads[t := Copying(At(s, t).i, 0)], lock := None);
      CopyEnds(s1, t, fails[1..]);
    }
  }

  /** The message has its region and is stored in it, or there was no room; the lock is free. */
  ghost predicate WriteDone(s: State, t: nat, msg: Bytes, s': State) {
    && s.write <= MEM_SIZE
    && match RegionEnd(s.write, |msg|)
       case None => s' == s.(threads := s.threads[t := Idle], lock := None)
       case Some(end) =>
         s' == s.(threads := s.threads[t := Idle], lock := None, write := end, memory := s'.memory,
                  regions := s.regions + [Region(s.write, end, msg)], owner := s.owner + [t],
                  stored := s.stored + [true])
  }

  lemma LoadedEnds(s: State, t: nat, msg: Bytes, fails: seq<bool>)
    requires Inv(s) && At(s, t) == Loaded(msg, s.write) && |fails| > |msg| + 3
    ensures WriteDone(s, t, msg, Run(s, Alone(t, fails)))
  {
    hide Inv, Put, IntBytes, Copied, RegionEnd;
    ThreadFacts(s, t);
    AloneStep(s, t, fails);
    var s1 := Step(s, t, Go(fails[0]));
    if RegionEnd(s.write, |msg|).None? {
      AloneStep(s1, t, fails[1..]);
      IdleStays(Step(s1, t, Go(fails[1])), t, fails[1..][1..]);
    } else {
      CarvedEnds(s1, t, fails[1..]);
    }
  }

  /** Neither its earlier phase nor the lock shows in where the writer ends. */
  lemma SameWriteDone(s: State, s1: State, t: nat, msg: Bytes, s': State)
    requires WriteDone(s1, t, msg, s') && s1 == s.(threads := s1.threads, lock := s1.lock)
    requires s1.threads[t := Idle] == s.threads[t := Idle]
    ensures WriteDone(s, t, msg, s')
  {
  }

  /** A writer that has the lock, or can take it, ends with its message stored or refused. */
  lemma WriterEnds(s: State, t: nat, msg: Bytes, fails: seq<bool>)
    requires Inv(s) && (At(s, t) == Entered(msg) || (At(s, t) == Spinning(msg) && s.lock == None))
    requires |fails| > |msg| + (if At(s, t).Entered? then 4 else 5)
    ensures WriteDone(s, t, msg, Run(s, Alone(t, fails)))
    decreases |fails|
  {
    hide Inv, WriteDone;
    AloneStep(s, t, fails);
    var s1 := Step(s, t, Go(fails[0]));
    if At(s, t).Entered? {
      LoadedEnds(s1, t, msg, fails[1..]);
    } else {
      WriterEnds(s1, t, msg, fails[1..]);
    }
    SameWriteDone(s, s1, t, msg, Run(s, Alone(t, fails)));
  }

  /** How many of the steps meet a failing socket. */
  function Failing(fails: seq<bool>): nat {
    if fails == [] then 0 else (if fails[0] then 1 else 0) + Failing(fails[1..])
  }

  /** The steps a flush has before it when no write fails. */
  function StepsLeft(s: State, t: nat): int {
    2 * (|s.regions| - |s.sent|) + (if At(s, t).Measured? then 0 else 1)
  }

  /** Every region has been passed, and those not measured yet were sent if their size was stored. */
  ghost predicate FlushDone(s: State, t: nat, s': State) {
    && s' == s.(threads := s.threads[t := Idle], lock := None, read := s.write, sent := s'.sent, inTime := s'.inTime)
    && |s.sent| <= |s.regions| == |s.stored| == |s'.sent| == |s'.inTime|
    && s.sent <= s'.sent
    && (forall k | |s.sent| < k < |s.regions| :: s'.inTime[k] == s.stored[k])
    && (|s.sent| < |s.regions| ==>
          s'.inTime[|s.sent|] == s.stored[|s.sent|]
          || (At(s, t).Measured? && s'.inTime[|s.sent|] == At(s, t).inTime))
  }

  lemma FlushFacts(s: State, t: nat)
    requires Inv(s) && (At(s, t).Walking? || At(s, t).Measured?)
    ensures |s.sent| == |s.inTime| <= |s.regions| == |s.stored|
    ensures s.read == s.write <==> |s.sent| == |s.regions|
    ensures At(s, t).Measured? ==> |s.sent| < |s.regions|
  {
    ThreadFacts(s, t);
    hide Exclusive, Owned, Laid;
    if |s.sent| < |s.regions| {
      ReadIsBehind(s);
    }
  }

  /** What one step of a flush changes while it has regions before it. */
  ghost predicate FlushStepped(s: State, t: nat, failed: bool, s1: State) {
    && s1 == s.(threads := s.threads[t := At(s1, t)], read := s1.read, sent := s1.sent, inTime := s1.inTime)
    && |s.sent| < |s.stored|
    && if At(s, t).Walking? then
         && s1.sent == s.sent && s1.inTime == s.inTime
         && At(s1, t).Measured? && At(s1, t).inTime == s.stored[|s.sent|]
       else
         && At(s, t).Measured? && At(s1, t).Walking?
         && if failed then s1.sent == s.sent && s1.inTime == s.inTime
            else
              && |s1.sent| == |s.sent| + 1 && s.sent <= s1.sent && s1.inTime == s.inTime + [At(s, t).inTime]
  }

  lemma FlushStep(s: State, t: nat, failed: bool)
    requires Inv(s) && (At(s, t).Walking? || At(s, t).Measured?) && |s.sent| < |s.regions| == |s.stored|
    ensures FlushStepped(s, t, failed, Step(s, t, Go(failed)))
  {
    ReadIsBehind(s);
    hide Exclusive, Owned, Laid, Flushed, IntAt;
  }

  lemma FlushCounts(s: State, t: nat, failed: bool, s1: State)
    requires FlushStepped(s, t, failed, s1)
    ensures At(s1, t).Walking? || At(s1, t).Measured?
    ensures StepsLeft(s1, t) <= StepsLeft(s, t) + (if failed then 1 else -1)
  {
  }

  lemma WalkStops(s: State, t: nat, c: Choice)
    requires Inv(s) && At(s, t).Walking? && s.read == s.write
    ensures Step(s, t, c) == s.(threads := s.threads[t := Idle], lock := None)
  {
  }

  lemma AllPassed(s: State, t: nat, s1: State)
    requires |s.sent| == |s.inTime| == |s.regions| == |s.stored| && s.read == s.write
    requires s1 == s.(threads := s.threads[t := Idle], lock := None)
    ensures FlushDone(s, t, s1)
  {
  }

  lemma FlushOneMore(s: State, t: nat, failed: bool, s1: State, s': State)
    requires |s.sent| == |s.inTime| < |s.regions| == |s.stored|
    requires FlushStepped(s, t, failed, s1) && FlushDone(s1, t, s') && s1.inTime <= s'.inTime
    ensures FlushDone(s, t, s')
  {
    assert s1.threads[t := Idle] == s.threads[t := Idle];
  }

  /** A flush that has the lock ends; a failed write costs it two steps and nothing else. */
  lemma {:induction false} WalkEnds(s: State, t: nat, fails: seq<bool>)
    requires Inv(s) && (At(s, t).Walking? || At(s, t).Measured?)
    requires |fails| >= StepsLeft(s, t) + 2 * Failing(fails)
    ensures FlushDone(s, t, Run(s, Alone(t, fails)))
    decreases |fails|
  {
    hide Inv, FlushDone, FlushStepped, Step;
    FlushFacts(s, t);
    AloneStep(s, t, fails);
    var s1 := Step(s, t, Go(fails[0]));
    if At(s, t).Walking? && s.read == s.write {
      WalkStops(s, t, Go(fails[0]));
      IdleStays(s1, t, fails[1..]);
      AllPassed(s, t, s1);
    } else {
      FlushStep(s, t, fails[0]);
      FlushCounts(s, t, fails[0], s1);
      WalkEnds(s1, t, fails[1..]);
      HistoryGrows(s1, Alone(t, fails[1..]));
      FlushOneMore(s, t, fails[0], s1, Run(s, Alone(t, fails)));
    }
  }

  /** A write that runs alone ends with its message stored in a new region, or refused, and the lock free. */
  lemma WriteAlone(s: State, t: nat, msg: Bytes, fails: seq<bool>)
    requires Inv(s) && At(s, t).Idle? && s.lock == None && |fails| > |msg| + 5
    ensures WriteDone(s, t, msg, Run(s, [(t, Write(msg))] + Alone(t, fails)))
  {
    hide Inv, WriteDone;
    RunStep(s, t, Write(msg), Alone(t, fails));
    var s1 := Step(s, t, Write(msg));
    WriterEnds(s1, t, msg, fails);
    SameWriteDone(s, s1, t, msg, Run(s1, Alone(t, fails)));
  }

  lemma FlushEnters(s: State, t: nat, failed: bool)
    requires Inv(s) && At(s, t).Idle? && s.lock == None
    ensures var s1 := Step(s, t, Flush);
      Inv(s1) && Step(s1, t, Go(failed)) == s.(threads := s.threads[t := Walking], lock := Some(t))
  {
    hide Inv;
    StepKeeps(s, t, Flush);
    assert Step(s, t, Flush) == Moved(s, t, FlushSpinning);
    assert s.threads[t := FlushSpinning][t := Walking] == s.threads[t := Walking];
  }

  /** What was measured under the lock is what was sent. */
  lemma FlushResult(s: State, t: nat, s1: State, s': State)
    requires s1 == s.(threads := s.threads[t := Walking], lock := Some(t)) && s.lock == None
    requires FlushDone(s1, t, s') && Inv(s')
    ensures s' == s.(threads := s.threads[t := Idle], read := s.write, sent := s'.sent, inTime := s'.inTime)
    ensures |s.sent| <= |s.regions| == |s.stored| == |s'.sent| && s.sent <= s'.sent
    ensures forall k | |s.sent| <= k < |s.regions| :: s'.sent[k] == if s.stored[k] then s.regions[k].msg else []
  {
    hide Inv;
    SentIsHistory(s');
    assert s1.threads[t := Idle] == s.threads[t := Idle];
  }

  /**
   A flush that runs alone ends, whatever writes fail, if enough steps follow. Then the lock is free,
   every region has been passed, and what was sent for each is its message if its size was stored and
   nothing otherwise.
   */
  lemma FlushAlone(s: State, t: nat, fails: seq<bool>)
    requires Inv(s) && At(s, t).Idle? && s.lock == None
    requires |fails| >= 2 * (|s.regions| - |s.sent|) + 2 + 2 * Failing(fails)
    ensures var s' := Run(s, [(t, Flush)] + Alone(t, fails));
      && s' == s.(threads := s.threads[t := Idle], read := s.write, sent := s'.sent, inTime := s'.inTime)
      && |s.sent| <= |s.regions| == |s.stored| == |s'.sent| && s.sent <= s'.sent
      && forall k | |s.sent| <= k < |s.regions| :: s'.sent[k] == if s.stored[k] then s.regions[k].msg else []
  {
    hide Inv, Step, FlushDone, Run;
    SentIsHistory(s);
    RunStep(s, t, Flush, Alone(t, fails));
    FlushEnters(s, t, fails[0]);
    var s1 := Step(s, t, Flush);
    AloneStep(s1, t, fails);
    var s2 := Step(s1, t, Go(fails[0]));
    WalkEnds(s2, t, fails[1..]);
    FlushResult(s, t, s2, Run(s2, Alone(t, fails[1..])));
  }

  lemma SentIsHistory(s: State)
    requires Inv(s)
    ensures |s.sent| == |s.inTime| <= |s.regions|
    ensures forall k | 0 <= k < |s.sent| :: s.sent[k] == if s.inTime[k] then s.regions[k].msg else []
  {
  }

  ghost predicate AllIdle(s: State) {
    forall t: nat :: At(s, t).Idle?
  }

  lemma RestFacts(s: State)
    requires Inv(s) && AllIdle(s)
    ensures s.lock == None && |s.sent| <= |s.regions| == |s.stored| && s.write <= MEM_SIZE
    ensures forall k | 0 <= k < |s.stored| :: s.stored[k]
  {
    ThreadFacts(s, 0);
    var holder := match s.lock case None => 0 case Some(x) => x;
    assert Inside(At(s, holder)) <==> s.lock == Some(holder);
    forall k | 0 <= k < |s.stored|
      ensures s.stored[k]
    {
      assert Owns(At(s, s.owner[k]), k) <==> !s.stored[k];
      assert At(s, s.owner[k]).Idle?;
    }
  }

  lemma WroteFacts(s: State, t: nat, msg: Bytes, s': State)
    requires WriteDone(s, t, msg, s') && AllIdle(s) && RegionEnd(s.write, |msg|).Some?
    requires |s.regions| == |s.stored| && forall k | 0 <= k < |s.stored| :: s.stored[k]
    ensures AllIdle(s') && s'.lock == None && s'.sent == s.sent
    ensures s.regions <= s'.regions && |s'.regions| == |s.regions| + 1 && s'.regions[|s.regions|].msg == msg
    ensures |s'.stored| == |s'.regions| && forall k | 0 <= k < |s'.stored| :: s'.stored[k]
  {
    StillIdle(s, t, s');
  }

  lemma IsIdle(s: State, t: nat)
    requires AllIdle(s)
    ensures At(s, t).Idle?
  {
  }

  lemma StillIdle(s: State, t: nat, s': State)
    requires AllIdle(s) && s'.threads == s.threads[t := Idle]
    ensures AllIdle(s')
  {
    assert forall x: nat :: At(s', x) == if x == t then Idle else At(s, x);
  }

  /** Messages do arrive: what a write stores, a flush after it sends, behind all that was stored before. */
  lemma WriteThenFlush(s: State, t: nat, msg: Bytes, u: nat, fails: seq<bool>, fails': seq<bool>)
    requires Inv(s) && AllIdle(s) && |fails| > |msg| + 5
    requires |fails'| >= 2 * (|s.regions| + 1 - |s.sent|) + 2 + 2 * Failing(fails')
    ensures s.write <= MEM_SIZE && |s.sent| <= |s.regions|
    ensures RegionEnd(s.write, |msg|).Some? ==>
      var s' := Run(s, ([(t, Write(msg))] + Alone(t, fails)) + ([(u, Flush)] + Alone(u, fails')));
      AllIdle(s') && s'.sent == s.sent + Messages(s.regions[|s.sent|..]) + [msg]
  {
    hide Inv, WriteDone, RegionEnd, Messages, Run, Alone, AllIdle;
    RestFacts(s);
    var first, second := [(t, Write(msg))] + Alone(t, fails), [(u, Flush)] + Alone(u, fails');
    IsIdle(s, t);
    WriteAlone(s, t, msg, fails);
    var s1 := Run(s, first);
    if RegionEnd(s.write, |msg|).Some? {
      WroteFacts(s, t, msg, s1);
      IsIdle(s1, u);
      FlushAlone(s1, u, fails');
      RunJoins(s, first, second);
      StillIdle(s1, u, Run(s1, second));
      LastIsSent(s.sent, Run(s1, second).sent, s.regions, s1.regions);
    }
  }

  lemma LastIsSent(sent: seq<Bytes>, sent': seq<Bytes>, rs: seq<Region>, rs': seq<Region>)
    requires |sent| <= |rs| && sent <= sent' && |sent'| == |rs'| == |rs| + 1 && rs <= rs'
    requires forall k | |sent| <= k < |rs'| :: sent'[k] == rs'[k].msg
    ensures sent' == sent + Messages(rs[|sent|..]) + [rs'[|rs|].msg]
  {
  }

  lemma {:induction false} RunJoins(s: State, first: Schedule, second: Schedule)
    requires Inv(s)
    ensures Run(s, first + second) == Run(Run(s, first), second)
    decreases |first|
  {
    hide Inv, Step;
    if first == [] {
      assert first + second == second;
    } else {
      var head, rest := first[0], first[1..];
      RunStep(s, head.0, head.1, rest);
      RunStep(s, head.0, head.1, rest + second);
      assert first == [head] + rest && first + second == [head] + (rest + second);
      RunJoins(Step(s, head.0, head.1), rest, second);
    }
  }

  function Steps(n: nat): (fails: seq<bool>)
    ensures |fails| == n && Failing(fails) == 0
  {
    if n == 0 then [] else
      assert ([false] + Steps(n - 1))[1..] == Steps(n - 1);
      [false] + Steps(n - 1)
  }

  /** The thread came to rest and let the lock go. */
  ghost predicate Rested(s: State, t: nat, s': State) {
    s'.threads == s.threads[t := Idle] && s'.lock == if Inside(At(s, t)) then None else s.lock
  }

  lemma WritingRests(s: State, t: nat, msg: Bytes, s': State)
    requires WriteDone(s, t, msg, s') && (Inside(At(s, t)) || s.lock == None)
    ensures Rested(s, t, s')
  {
  }

  lemma FlushingRests(s: State, t: nat, s': State)
    requires FlushDone(s, t, s') && Inside(At(s, t))
    ensures Rested(s, t, s')
  {
  }

  /** A thread that does not wait for another one's lock comes to rest when it moves alone. */
  lemma ThreadRests(s: State, t: nat) returns (fails: seq<bool>)
    requires Inv(s) && !At(s, t).Idle?
    requires At(s, t).Spinning? || At(s, t).FlushSpinning? ==> s.lock == None
    ensures Rested(s, t, Run(s, Alone(t, fails)))
  {
    hide Inv, WriteDone, FlushDone, Run, Alone;
    PhaseFacts(s, t);
    match At(s, t)
    case Spinning(msg) =>
      fails := Steps(|msg| + 6);
      WriterEnds(s, t, msg, fails);
      WritingRests(s, t, msg, Run(s, Alone(t, fails)));
    case Entered(msg) =>
      fails := Steps(|msg| + 6);
      WriterEnds(s, t, msg, fails);
      WritingRests(s, t, msg, Run(s, Alone(t, fails)));
    case Loaded(msg, at) =>
      fails := Steps(|msg| + 4);
      LoadedEnds(s, t, msg, fails);
      WritingRests(s, t, msg, Run(s, Alone(t, fails)));
    case Refused =>
      fails := Steps(1);
      RefusedEnds(s, t, fails);
    case Advanced(i) =>
      fails := Steps(|s.regions[i].msg| + 3);
      CarvedEnds(s, t, fails);
    case Headed(i) =>
      fails := Steps(|s.regions[i].msg| + 2);
      CarvedEnds(s, t, fails);
    case Copying(i, done) =>
      fails := Steps(|s.regions[i].msg| - done + 1);
      CopyEnds(s, t, fails);
    case FlushSpinning =>
      fails := SpinningRests(s, t);
    case Walking =>
      fails := WalkRests(s, t);
    case Measured(_, _) =>
      fails := WalkRests(s, t);
  }

  lemma WalkRests(s: State, t: nat) returns (fails: seq<bool>)
    requires Inv(s) && (At(s, t).Walking? || At(s, t).Measured?) && |s.sent| <= |s.regions|
    ensures Rested(s, t, Run(s, Alone(t, fails)))
  {
    hide Inv, FlushDone, Run;
    fails := Steps(StepsLeft(s, t));
    WalkEnds(s, t, fails);
    FlushingRests(s, t, Run(s, Alone(t, fails)));
  }

  lemma PhaseFacts(s: State, t: nat)
    requires Inv(s)
    ensures |s.sent| <= |s.regions| == |s.stored|
    ensures At(s, t).Loaded? ==> At(s, t).at == s.write
    ensures At(s, t).Advanced? || At(s, t).Headed? ==> At(s, t).i < |s.regions|
    ensures At(s, t).Copying? ==> At(s, t).i < |s.regions| && At(s, t).done <= |s.regions[At(s, t).i].msg|
    ensures At(s, t).Measured? ==> |s.sent| < |s.regions|
  {
    assert InStep(s, At(s, t));
  }

  lemma RefusedEnds(s: State, t: nat, fails: seq<bool>)
    requires Inv(s) && At(s, t).Refused? && fails != []
    ensures Rested(s, t, Run(s, Alone(t, fails)))
  {
    hide Inv;
    AloneStep(s, t, fails);
    IdleStays(Step(s, t, Go(fails[0])), t, fails[1..]);
  }

  lemma SpinningRests(s: State, t: nat) returns (fails: seq<bool>)
    requires Inv(s) && At(s, t).FlushSpinning? && s.lock == None
    ensures Rested(s, t, Run(s, Alone(t, fails)))
  {
    hide Inv, FlushDone, Run, Alone;
    SentIsHistory(s);
    var s1 := Step(s, t, Go(false));
    StepKeeps(s, t, Go(false));
    assert s1 == s.(threads := s.threads[t := Walking], lock := Some(t));
    var later := WalkRests(s1, t);
    fails := [false] + later;
    assert fails[1..] == later;
    AloneStep(s, t, fails);
  }

  ghost function Busy(s: State): set<nat> {
    set t | t in s.threads && !At(s, t).Idle?
  }

  /** No state is a dead end: run one after the other, the threads all come to rest. */
  lemma {:induction false} AllRest(s: State) returns (rest: Schedule)
    requires Inv(s)
    ensures AllIdle(Run(s, rest))
    decreases |Busy(s)|
  {
    hide Inv, Run, Alone, Rested;
    rest := [];
    if Busy(s) == {} {
      NobodyIsBusy(s);
    } else {
      var t := NextToRest(s);
      var fails := ThreadRests(s, t);
      var s1 := Run(s, Alone(t, fails));
      FewerBusy(s, t, s1);
      rest := AllRest(s1);
      RunJoins(s, Alone(t, fails), rest);
      rest := Alone(t, fails) + rest;
    }
  }

  lemma NobodyIsBusy(s: State)
    requires Inv(s) && Busy(s) == {}
    ensures AllIdle(s) && Run(s, []) == s
  {
    hide Inv;
    forall t: nat
      ensures At(s, t).Idle?
    {
      assert t !in Busy(s);
    }
  }

  /** Whoever holds the lock, or anybody who is busy when it is free. */
  lemma NextToRest(s: State) returns (t: nat)
    requires Inv(s) && Busy(s) != {}
    ensures t in Busy(s) && (At(s, t).Spinning? || At(s, t).FlushSpinning? ==> s.lock == None)
  {
    t :| t in Busy(s);
    if s.lock.Some? {
      t := s.lock.value;
      assert Inside(At(s, t)) <==> s.lock == Some(t);
    }
  }

  lemma FewerBusy(s: State, t: nat, s': State)
    requires t in Busy(s) && Rested(s, t, s')
    ensures |Busy(s')| < |Busy(s)|
  {
    assert Busy(s') == Busy(s) - {t};
  }

  /** Whatever the threads have done so far, they can all be brought to rest, and then every message is stored. */
  lemma NoDeadEnd(s0: State, schedule: Schedule) returns (rest: Schedule)
    requires Initial(s0)
    ensures Inv(s0)
    ensures var s := Run(s0, schedule + rest);
      AllIdle(s) && s.lock == None && |s.stored| == |s.regions| && forall k | 0 <= k < |s.stored| :: s.stored[k]
  {
    hide Inv, Run;
    InitialHolds(s0);
    rest := AllRest(Run(s0, schedule));
    RunJoins(s0, schedule, rest);
    RestFacts(Run(s0, schedule + rest));
  }
}
