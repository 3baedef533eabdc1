/** The run-time filter of trace_client/MixerConfig.h: for each bit of a context, the levels that are on. */
module Mixer {
  type Word = bv32

  const BITS: nat := 32
  const CONTEXTS: nat := 0x1_0000_0000

  function And(x: Word, y: Word): Word { x & y }

  function Or(x: Word, y: Word): Word { x | y }

  function Not(x: Word): Word { !x }

  function LowestBit(w: Word): Word { w & (0 - w) }

  /** The two words share a bit. */
  predicate Meets(x: Word, y: Word) {
    And(x, y) != 0
  }

  predicate SingleBit(m: Word) {
    m != 0 && m & (m - 1) == 0
  }

  lemma AndOfOr(x: Word, y: Word, m: Word)
    ensures And(Or(x, y), m) == Or(And(x, m), And(y, m))
  {
  }

  lemma OrIsZero(x: Word, y: Word)
    ensures Or(x, y) == 0 <==> x == 0 && y == 0
  {
  }

  lemma AndOfAndNot(x: Word, y: Word, m: Word)
    ensures And(And(x, Not(y)), m) == And(And(x, m), Not(And(y, m)))
  {
  }

  lemma AndOfSingle(x: Word, m: Word)
    requires SingleBit(m)
    ensures And(x, m) == 0 || And(x, m) == m
  {
  }

  lemma AndWithNot(x: Word)
    ensures And(x, Not(x)) == 0 && And(x, Not(0)) == x && And(0, x) == 0
  {
  }

  lemma OrMeets(x: Word, y: Word, m: Word)
    ensures Meets(Or(x, y), m) <==> Meets(x, m) || Meets(y, m)
  {
    hide And, Or;
    AndOfOr(x, y, m);
    OrIsZero(And(x, m), And(y, m));
  }

  lemma AndNotMeets(x: Word, y: Word, m: Word)
    requires SingleBit(m)
    ensures Meets(And(x, Not(y)), m) <==> Meets(x, m) && !Meets(y, m)
  {
    hide And, Not, SingleBit;
    AndOfAndNot(x, y, m);
    AndOfSingle(x, m);
    AndOfSingle(y, m);
    AndWithNot(m);
    AndWithNot(Not(m));
    AndWithNot(Not(0));
    assert m != 0 by {
      NotZero(m);
    }
  }

  lemma NotZero(m: Word)
    requires SingleBit(m)
    ensures m != 0
  {
  }

  lemma LowestIsSingle(w: Word)
    requires w != 0
    ensures SingleBit(LowestBit(w))
  {
  }

  lemma LowestIsIn(x: Word, y: Word)
    requires And(x, y) != 0
    ensures And(x, LowestBit(And(x, y))) != 0 && And(y, LowestBit(And(x, y))) != 0
  {
  }

  lemma SharedBit(x: Word, y: Word, m: Word)
    requires SingleBit(m) && And(x, m) != 0 && And(y, m) != 0
    ensures And(x, y) != 0
  {
  }

  /** Two words share a bit exactly when some single bit is in both. */
  lemma MeetsInABit(x: Word, y: Word)
    ensures Meets(x, y) <==> exists m: Word :: SingleBit(m) && Meets(x, m) && Meets(y, m)
  {
    hide And, SingleBit, LowestBit;
    if Meets(x, y) {
      LowestIsSingle(And(x, y));
      LowestIsIn(x, y);
      assert Meets(x, LowestBit(And(x, y)));
    }
    forall m: Word | SingleBit(m) && Meets(x, m) && Meets(y, m)
      ensures Meets(x, y)
    {
      SharedBit(x, y, m);
    }
  }

  /** `ctx` shifted right `b` times. */
  function Shifted(ctx: nat, b: nat): nat {
    if b == 0 then ctx else Shifted(ctx, b - 1) / 2
  }

  predicate HasBit(ctx: nat, b: nat) {
    Shifted(ctx, b) % 2 == 1
  }

  function Power(n: nat): nat {
    if n == 0 then 1 else 2 * Power(n - 1)
  }

  lemma {:induction false} NoBitsLeft(ctx: nat, b: nat, k: nat)
    requires Shifted(ctx, b) == 0 && b <= k
    ensures Shifted(ctx, k) == 0 && !HasBit(ctx, k)
    decreases k
  {
    if b < k {
      NoBitsLeft(ctx, b, k - 1);
    }
  }

  lemma ContextRange()
    ensures Power(BITS) == CONTEXTS
  {
    assert Power(8) == 0x100;
    assert Power(16) == 0x1_0000;
    assert Power(24) == 0x100_0000;
  }

  datatype Call = Set(ctx: nat, level: Word) | Unset(ctx: nat, level: Word)

  predicate Covers(c: Call, b: nat, m: Word) {
    HasBit(c.ctx, b) && Meets(c.level, m)
  }

  /** The last call that covers the cell was a `Set`. */
  predicate On(calls: seq<Call>, b: nat, m: Word) {
    calls != [] &&
    var last := calls[|calls| - 1];
    if Covers(last, b, m) then last.Set? else On(calls[..|calls| - 1], b, m)
  }

  class MixerConfig {
    const mixer: array<Word>
    ghost var calls: seq<Call>

    ghost predicate Valid()
      reads this, mixer
    {
      && mixer.Length == BITS
      && forall b: nat, m: Word | b < BITS && SingleBit(m) :: Meets(mixer[b], m) <==> On(calls, b, m)
    }

    constructor ()
      ensures Valid() && calls == [] && fresh(mixer)
    {
      mixer := new Word[BITS](_ => 0);
      calls := [];
    }

    method SetRuntimeLevelForContext(context: nat, level: Word)
      requires Valid() && context < CONTEXTS
      modifies this`calls, mixer
      ensures Valid() && calls == old(calls) + [Set(context, level)]
    {
      hide Meets, On, Or, HasBit, SingleBit;
      ContextRange();
      var b, ctx := 0, context;
      while ctx != 0
        invariant b <= BITS && ctx == Shifted(context, b) && ctx < Power(BITS - b)
        invariant calls == old(calls)
        invariant forall k: nat | k < BITS ::
            mixer[k] == if k < b && HasBit(context, k) then Or(old(mixer[k]), level) else old(mixer[k])
        decreases BITS - b
      {
        LowestIsBit(context, b);
        if ctx % 2 == 1 {
          mixer[b] := Or(mixer[b], level);
        }
        b, ctx := b + 1, ctx / 2;
      }
      forall k: nat, m: Word | k < BITS && SingleBit(m)
        ensures Meets(mixer[k], m) <==> On(calls + [Set(context, level)], k, m)
      {
        BitsSeen(context, b, k);
        OrMeets(old(mixer[k]), level, m);
        OnStep(calls, Set(context, level), k, m);
      }
      calls := calls + [Set(context, level)];
    }

    method UnsetRuntimeLevelForContext(context: nat, level: Word)
      requires Valid() && context < CONTEXTS
      modifies this`calls, mixer
      ensures Valid() && calls == old(calls) + [Unset(context, level)]
    {
      hide Meets, On, And, Not, HasBit, SingleBit;
      ContextRange();
      var b, ctx := 0, context;
      while ctx != 0
        invariant b <= BITS && ctx == Shifted(context, b) && ctx < Power(BITS - b)
        invariant calls == old(calls)
        invariant forall k: nat | k < BITS ::
            mixer[k] == if k < b && HasBit(context, k) then And(old(mixer[k]), Not(level)) else old(mixer[k])
        decreases BITS - b
      {
        LowestIsBit(context, b);
        if ctx % 2 == 1 {
          mixer[b] := And(mixer[b], Not(level));
        }
        b, ctx := b + 1, ctx / 2;
      }
      forall k: nat, m: Word | k < BITS && SingleBit(m)
        ensures Meets(mixer[k], m) <==> On(calls + [Unset(context, level)], k, m)
      {
        BitsSeen(context, b, k);
        AndNotMeets(old(mixer[k]), level, m);
        OnStep(calls, Unset(context, level), k, m);
      }
      calls := calls + [Unset(context, level)];
    }

    method GetRuntimeLevelForContextBit(b: nat) returns (level: Word)
      ensures level == if b < mixer.Length then mixer[b] else 0
    {
      if b < mixer.Length {
        return mixer[b];
      }
      return 0;
    }

    /** A message passes if one of its levels is on in one of its contexts. */
    method RuntimeFilterPredicate(level: Word, context: nat) returns (logged: bool)
      requires Valid() && context < CONTEXTS
      ensures logged <==> Passes(calls, level, context)
    {
      hide Meets, On, HasBit, SingleBit;
      ContextRange();
      var b, ctx := 0, context;
      while ctx != 0
        invariant b <= BITS && ctx == Shifted(context, b) && ctx < Power(BITS - b)
        invariant forall k: nat, m: Word | k < b && HasBit(context, k) && SingleBit(m) && Meets(level, m) ::
          !On(calls, k, m)
        decreases BITS - b
      {
        LowestIsBit(context, b);
        if ctx % 2 == 1 {
          var here := GetRuntimeLevelForContextBit(b);
          MeetsInABit(here, level);
          if Meets(here, level) {
            return true;
          }
        }
        b, ctx := b + 1, ctx / 2;
      }
      forall k: nat | b <= k < BITS
        ensures !HasBit(context, k)
      {
        BitsSeen(context, b, k);
      }
      return false;
    }
  }

  /** Some cell of the message's contexts and levels is on. */
  ghost predicate Passes(calls: seq<Call>, level: Word, context: nat) {
    exists b: nat, m: Word :: b < BITS && HasBit(context, b) && SingleBit(m) && Meets(level, m) && On(calls, b, m)
  }

  lemma LowestIsBit(ctx: nat, b: nat)
    ensures HasBit(ctx, b) <==> Shifted(ctx, b) % 2 == 1
    ensures Shifted(ctx, b + 1) == Shifted(ctx, b) / 2
  {
  }

  lemma BitsSeen(ctx: nat, b: nat, k: nat)
    requires Shifted(ctx, b) == 0
    ensures b <= k ==> !HasBit(ctx, k)
  {
    if b <= k {
      NoBitsLeft(ctx, b, k);
    }
  }

  lemma OnStep(calls: seq<Call>, c: Call, b: nat, m: Word)
    ensures On(calls + [c], b, m) <==> (if Covers(c, b, m) then c.Set? else On(calls, b, m))
  {
    assert (calls + [c])[..|calls|] == calls;
  }
}
