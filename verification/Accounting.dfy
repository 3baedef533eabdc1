/**
 Why one integer is enough: the bookkeeping behind CmdLine::parse, stated on snapshots of the
 arguments. A required argument outside every exclusive group is credited when it is set; the
 members of a group are credited together when one of them claims the group.
 */
module Accounting {
  import opened Args

  /** The groups are disjoint lists of distinct registered arguments. */
  ghost predicate Grouping(args: set<Arg>, groups: seq<seq<Arg>>) {
    && (forall k, a | 0 <= k < |groups| && a in groups[k] :: a in args)
    && (forall k | 0 <= k < |groups| :: Distinct(groups[k]))
    && (forall k, l, a | 0 <= k < |groups| && 0 <= l < |groups| && a in groups[k] && a in groups[l] :: k == l)
  }

  ghost predicate Distinct(g: seq<Arg>) {
    forall i, j | 0 <= i < j < |g| :: g[i] != g[j]
  }

  ghost predicate Grouped(groups: seq<seq<Arg>>, a: Arg) {
    exists k :: 0 <= k < |groups| && a in groups[k]
  }

  /** Required arguments outside groups take values; group members are all required. */
  ghost predicate Requirements(args: set<Arg>, groups: seq<seq<Arg>>, m: State) {
    && m.Keys == args
    && (forall k, a | 0 <= k < |groups| && a in groups[k] && a in m :: m[a].required)
    && (forall a | a in args && m[a].required && a.kind.Switch? :: Grouped(groups, a))
  }

  /**
   Nobody has claimed `g`: no member is excluded and none that takes values is set. A switch may
   be set, since inside a combined token it is set without the group being told.
   */
  ghost predicate Unclaimed(g: seq<Arg>, m: State, stale: set<Arg>) {
    forall a | a in g && a in m ::
      !m[a].xorSet && (m[a].alreadySet ==> a.kind.Switch?) && (m[a].more <==> a in stale)
  }

  /** `w` has claimed `g`: it is set and every other member is excluded. */
  ghost predicate ClaimedBy(g: seq<Arg>, w: Arg, m: State) {
    && w in g && w in m && m[w].alreadySet && !m[w].xorSet && (w.kind.Multi? ==> m[w].more)
    && forall a | a in g && a in m && a != w :: m[a].alreadySet && m[a].xorSet
  }

  /** `owner` names the claimed groups; arguments outside groups are never excluded. */
  ghost predicate Consistent(args: set<Arg>, groups: seq<seq<Arg>>, m: State, stale: set<Arg>, owner: map<nat, Arg>) {
    && Grouping(args, groups)
    && Requirements(args, groups, m)
    && (forall k | k in owner :: k < |groups| && ClaimedBy(groups[k], owner[k], m))
    && (forall k | 0 <= k < |groups| && k !in owner :: Unclaimed(groups[k], m, stale))
    && (forall a | a in args && !Grouped(groups, a) ::
          !m[a].xorSet && (a.kind.Multi? ==> (m[a].alreadySet <==> m[a].values != [])))
  }

  /** A MultiArg whose `more` was left on by an earlier parse claims its group without credit. */
  ghost predicate Credited(groups: seq<seq<Arg>>, m: State, stale: set<Arg>, owner: map<nat, Arg>, a: Arg)
    requires a in m
  {
    && m[a].required
    && if Grouped(groups, a)
       then exists k :: k in owner && k < |groups| && a in groups[k] && !(owner[k] in stale && owner[k].kind.Multi?)
       else m[a].alreadySet
  }

  ghost function CreditedArgs(groups: seq<seq<Arg>>, m: State, stale: set<Arg>, owner: map<nat, Arg>): set<Arg> {
    set a | a in m && Credited(groups, m, stale, owner, a)
  }

  /** The books are in order: `count` is the number of credited arguments. */
  ghost predicate Books(args: set<Arg>, groups: seq<seq<Arg>>, m: State, count: int, stale: set<Arg>,
                        owner: map<nat, Arg>) {
    Consistent(args, groups, m, stale, owner) && count == |CreditedArgs(groups, m, stale, owner)|
  }

  ghost function RequiredArgs(m: State): set<Arg> {
    set a | a in m && m[a].required
  }

  /** What matching a token does to the argument itself. */
  ghost predicate Matching(a: Arg, u: View, v: View) {
    && v.alreadySet && v.required == u.required && v.xorSet == u.xorSet && v.more == u.more
    && if a.kind.Multi? then |v.values| == |u.values| + 1 else v.values == u.values && !u.alreadySet
  }

  /** What a switch inside a combined token does to itself, unless it is the last one. */
  ghost predicate Combining(a: Arg, u: View, v: View) {
    a.kind.Switch? && !u.alreadySet && !u.xorSet && v == u.(alreadySet := true, on := !u.on)
  }

  lemma RequirementsStay(args: set<Arg>, groups: seq<seq<Arg>>, m: State, m': State)
    requires Requirements(args, groups, m) && m'.Keys == m.Keys && forall a | a in m :: m'[a].required == m[a].required
    ensures Requirements(args, groups, m') && RequiredArgs(m') == RequiredArgs(m)
  {
  }

  /** A switch set inside a combined token changes no account. */
  lemma SetInCombination(args: set<Arg>, groups: seq<seq<Arg>>, m: State, stale: set<Arg>, owner: map<nat, Arg>,
                         a: Arg, v: View)
    requires Consistent(args, groups, m, stale, owner)
    requires a in args && Combining(a, m[a], v)
    ensures Consistent(args, groups, m[a := v], stale, owner)
    ensures CreditedArgs(groups, m[a := v], stale, owner) == CreditedArgs(groups, m, stale, owner)
  {
    var m' := m[a := v];
    forall k | k in owner
      ensures ClaimedBy(groups[k], owner[k], m')
    {
      assert ClaimedBy(groups[k], owner[k], m);
      assert a !in groups[k];
    }
    forall b | b in m
      ensures Credited(groups, m', stale, owner, b) <==> Credited(groups, m, stale, owner, b)
    {
    }
  }

  /** A match outside the groups credits the argument if it is required and was not set before. */
  lemma MatchUngrouped(args: set<Arg>, groups: seq<seq<Arg>>, m: State, stale: set<Arg>, owner: map<nat, Arg>,
                       a: Arg, v: View)
    requires Consistent(args, groups, m, stale, owner)
    requires a in args && !Grouped(groups, a)
    requires a in m && Matching(a, m[a], v)
    ensures var m' := m[a := v];
      && Consistent(args, groups, m', stale, owner)
      && |CreditedArgs(groups, m', stale, owner)|
         == |CreditedArgs(groups, m, stale, owner)|
            + (if m[a].required && (a.kind.Multi? ==> |v.values| <= 1) then 1 else 0)
  {
    hide Consistent, Credited, Grouped;
    MatchKeepsConsistent(args, groups, m, stale, owner, a, v);
    var m' := m[a := v];
    var before, after := CreditedArgs(groups, m, stale, owner), CreditedArgs(groups, m', stale, owner);
    forall b | b in m && b != a
      ensures b in after <==> b in before
    {
      MatchCredits(args, groups, m, stale, owner, a, v, b);
    }
    MatchCredits(args, groups, m, stale, owner, a, v, a);
    if m[a].required && !m[a].alreadySet {
      CreditGrows(before, after, [a], m.Keys);
    } else {
      assert after == before;
    }
  }

  lemma MatchCredits(args: set<Arg>, groups: seq<seq<Arg>>, m: State, stale: set<Arg>, owner: map<nat, Arg>,
                     a: Arg, v: View, b: Arg)
    requires a in m && b in m && !Grouped(groups, a) && Matching(a, m[a], v)
    ensures var m' := m[a := v];
      if b == a
      then (Credited(groups, m, stale, owner, b) <==> m[a].required && m[a].alreadySet)
           && (Credited(groups, m', stale, owner, b) <==> m[a].required)
      else Credited(groups, m', stale, owner, b) <==> Credited(groups, m, stale, owner, b)
  {
  }

  lemma MatchKeepsConsistent(args: set<Arg>, groups: seq<seq<Arg>>, m: State, stale: set<Arg>, owner: map<nat, Arg>,
                             a: Arg, v: View)
    requires Consistent(args, groups, m, stale, owner)
    requires a in args && !Grouped(groups, a)
    requires a in m && Matching(a, m[a], v)
    ensures Consistent(args, groups, m[a := v], stale, owner)
    ensures a in m && (a.kind.Multi? ==> (m[a].alreadySet <==> m[a].values != []))
  {
    var m' := m[a := v];
    forall k | k in owner
      ensures ClaimedBy(groups[k], owner[k], m')
    {
      assert a !in groups[k];
    }
    forall k | 0 <= k < |groups| && k !in owner
      ensures Unclaimed(groups[k], m', stale)
    {
      assert a !in groups[k];
    }
  }

  ghost function Members(g: seq<Arg>): set<Arg> {
    set a | a in g
  }

  lemma {:induction false} DistinctSize(g: seq<Arg>)
    requires Distinct(g)
    ensures |Members(g)| == |g|
  {
    if g != [] {
      var front, last := g[..|g| - 1], g[|g| - 1];
      DistinctSize(front);
      assert Members(g) == Members(front) + {last};
      assert last !in Members(front);
    }
  }

  /** The snapshot after XorHandler::check excluded every other member of `g`. */
  ghost function Excluding(g: seq<Arg>, m: State, a: Arg): State
    requires a in m
  {
    map b | b in m ::
      if b == a then m[a].(more := a.kind.Multi? || m[a].more)
      else if b in g then m[b].(alreadySet := true, xorSet := true)
      else m[b]
  }

  /** The snapshot after `a` matched, which then looks like `v`, and its group was told. */
  ghost function Claiming(g: seq<Arg>, m: State, a: Arg, v: View): State
    requires a in m
  {
    Excluding(g, m[a := v], a)
  }

  /** The first match in a group claims it; its whole weight is credited at once. */
  lemma Claim(args: set<Arg>, groups: seq<seq<Arg>>, m: State, stale: set<Arg>, owner: map<nat, Arg>,
              k: nat, a: Arg, v: View)
    requires Consistent(args, groups, m, stale, owner)
    requires k < |groups| && a in groups[k] && k !in owner
    requires a in m && Matching(a, m[a], v)
    ensures var m' := Claiming(groups[k], m, a, v);
      var owner' := owner[k := a];
      && Consistent(args, groups, m', stale, owner')
      && |CreditedArgs(groups, m', stale, owner')|
         == |CreditedArgs(groups, m, stale, owner)| + (if a.kind.Multi? && m[a].more then 0 else |groups[k]|)
  {
    var g := groups[k];
    var m' := Claiming(g, m, a, v);
    var owner' := owner[k := a];
    ClaimKeepsConsistent(args, groups, m, stale, owner, k, a, v);
    var before, after := CreditedArgs(groups, m, stale, owner), CreditedArgs(groups, m', stale, owner');
    hide Consistent, Credited, Claiming, Distinct;
    forall b | b in m
      ensures b !in g ==> (Credited(groups, m', stale, owner', b) <==> Credited(groups, m, stale, owner, b))
      ensures b in g ==> !Credited(groups, m, stale, owner, b)
      ensures b in g ==> (Credited(groups, m', stale, owner', b) <==> !(a in stale && a.kind.Multi?))
    {
      ClaimCredits(args, groups, m, stale, owner, k, a, v, b);
    }
    GroupIsKnown(args, groups, m, stale, owner, k, a);
    ClaimCredits(args, groups, m, stale, owner, k, a, v, a);
    if a in stale && a.kind.Multi? {
      assert after == before;
    } else {
      CreditGrows(before, after, g, m.Keys);
    }
  }

  lemma CreditGrows(before: set<Arg>, after: set<Arg>, g: seq<Arg>, all: set<Arg>)
    requires before <= all && after <= all && Members(g) <= all && Distinct(g)
    requires forall b | b in all && b !in g :: b in after <==> b in before
    requires forall b | b in g :: b !in before && b in after
    ensures |after| == |before| + |g|
  {
    DistinctSize(g);
    assert after == before + Members(g) && before !! Members(g);
  }

  lemma GroupIsKnown(args: set<Arg>, groups: seq<seq<Arg>>, m: State, stale: set<Arg>, owner: map<nat, Arg>,
                     k: nat, a: Arg)
    requires Consistent(args, groups, m, stale, owner)
    requires k < |groups| && a in groups[k] && k !in owner
    ensures Distinct(groups[k]) && Members(groups[k]) <= m.Keys
    ensures a in m && (m[a].more <==> a in stale)
  {
    assert Unclaimed(groups[k], m, stale);
  }

  lemma ClaimCredits(args: set<Arg>, groups: seq<seq<Arg>>, m: State, stale: set<Arg>, owner: map<nat, Arg>,
                     k: nat, a: Arg, v: View, b: Arg)
    requires Consistent(args, groups, m, stale, owner)
    requires k < |groups| && a in groups[k] && k !in owner
    requires a in m && b in m && Matching(a, m[a], v)
    ensures Claiming(groups[k], m, a, v).Keys == m.Keys
    ensures var m', owner' := Claiming(groups[k], m, a, v), owner[k := a];
      if b in groups[k]
      then !Credited(groups, m, stale, owner, b)
           && (Credited(groups, m', stale, owner', b) <==> !(a in stale && a.kind.Multi?))
      else Credited(groups, m', stale, owner', b) <==> Credited(groups, m, stale, owner, b)
  {
    if b in groups[k] {
      assert Grouped(groups, b);
      assert owner[k := a][k] == a;
    }
  }

  lemma ClaimKeepsConsistent(args: set<Arg>, groups: seq<seq<Arg>>, m: State, stale: set<Arg>, owner: map<nat, Arg>,
                             k: nat, a: Arg, v: View)
    requires Consistent(args, groups, m, stale, owner)
    requires k < |groups| && a in groups[k] && k !in owner
    requires a in m && Matching(a, m[a], v)
    ensures Consistent(args, groups, Claiming(groups[k], m, a, v), stale, owner[k := a])
  {
    hide Requirements, Grouped;
    var g := groups[k];
    var m' := Claiming(g, m, a, v);
    RequirementsStay(args, groups, m, m');
    forall l | l in owner
      ensures ClaimedBy(groups[l], owner[l], m')
    {
      assert forall b | b in groups[l] :: b !in g;
    }
    forall l | 0 <= l < |groups| && l !in owner && l != k
      ensures Unclaimed(groups[l], m', stale)
    {
      assert forall b | b in groups[l] :: b !in g;
    }
    forall b | b in args && !Grouped(groups, b)
      ensures m'[b] == m[b]
    {
      UngroupedElsewhere(groups, k, b);
    }
  }

  lemma UngroupedElsewhere(groups: seq<seq<Arg>>, k: nat, b: Arg)
    requires k < |groups| && !Grouped(groups, b)
    ensures b !in groups[k]
  {
  }

  /** A MultiArg may match again in the group it has claimed; nothing more is credited. */
  lemma ClaimAgain(args: set<Arg>, groups: seq<seq<Arg>>, m: State, stale: set<Arg>, owner: map<nat, Arg>,
                   k: nat, a: Arg, v: View)
    requires Consistent(args, groups, m, stale, owner)
    requires k in owner && owner[k] == a && a.kind.Multi?
    requires a in m && Matching(a, m[a], v)
    ensures k < |groups|
    ensures var m' := Claiming(groups[k], m, a, v);
      && Consistent(args, groups, m', stale, owner)
      && CreditedArgs(groups, m', stale, owner) == CreditedArgs(groups, m, stale, owner)
      && m[a].more
  {
    var g := groups[k];
    assert ClaimedBy(g, a, m);
    var m' := Claiming(g, m, a, v);
    assert m' == m[a := v.(more := true)];
    forall l | l in owner && l != k
      ensures ClaimedBy(groups[l], owner[l], m')
    {
      assert a !in groups[l];
    }
    forall l | 0 <= l < |groups| && l !in owner
      ensures Unclaimed(groups[l], m', stale)
    {
      assert a !in groups[l];
    }
    assert Grouped(groups, a);
    forall b | b in m
      ensures Credited(groups, m', stale, owner, b) <==> Credited(groups, m, stale, owner, b)
    {
    }
  }

  /** A group that somebody else has claimed shows that member as set. */
  lemma ClaimShows(args: set<Arg>, groups: seq<seq<Arg>>, m: State, stale: set<Arg>, owner: map<nat, Arg>, k: nat)
    requires Consistent(args, groups, m, stale, owner) && k in owner
    ensures k < |groups| && owner[k] in groups[k] && owner[k] in m && m[owner[k]].alreadySet && !m[owner[k]].xorSet
  {
    assert ClaimedBy(groups[k], owner[k], m);
  }

  lemma ConsistentGrouping(args: set<Arg>, groups: seq<seq<Arg>>, m: State, stale: set<Arg>, owner: map<nat, Arg>)
    requires Consistent(args, groups, m, stale, owner)
    ensures Grouping(args, groups) && m.Keys == args
  {
  }

  /** A match keeps the books, whatever the kind of the argument and the state of its group. */
  lemma Matched(args: set<Arg>, groups: seq<seq<Arg>>, m: State, stale: set<Arg>, owner: map<nat, Arg>,
                a: Arg, v: View, m': State, worth: int)
    returns (owner': map<nat, Arg>)
    requires Consistent(args, groups, m, stale, owner) && a in args && a in m
    requires a in m && Matching(a, m[a], v)
    requires !Grouped(groups, a) ==>
      && m' == m[a := v]
      && worth == (if m[a].required && (a.kind.Multi? ==> |v.values| <= 1) then 1 else 0)
    requires forall k | 0 <= k < |groups| && a in groups[k] ::
      && (forall b | b in groups[k] && b != a :: !SetIn(m, b))
      && m' == Claiming(groups[k], m, a, v)
      && worth == if a.kind.Multi? && m[a].more then 0 else |groups[k]|
    ensures Consistent(args, groups, m', stale, owner')
    ensures |CreditedArgs(groups, m', stale, owner')| == |CreditedArgs(groups, m, stale, owner)| + worth
    ensures !Grouped(groups, a) ==> owner' == owner
    ensures forall k | 0 <= k < |groups| && a in groups[k] ::
      owner' == owner[k := a] && (k in owner ==> owner[k] == a)
  {
    hide Consistent, CreditedArgs, Claiming;
    if !Grouped(groups, a) {
      owner' := owner;
      MatchUngrouped(args, groups, m, stale, owner, a, v);
    } else {
      ConsistentGrouping(args, groups, m, stale, owner);
      var k :| 0 <= k < |groups| && a in groups[k];
      if k in owner {
        ClaimShows(args, groups, m, stale, owner, k);
        assert SetIn(m, owner[k]);
        owner' := owner;
        ClaimAgain(args, groups, m, stale, owner, k, a, v);
        assert owner == owner[k := a];
      } else {
        owner' := owner[k := a];
        Claim(args, groups, m, stale, owner, k, a, v);
      }
    }
  }

  ghost predicate SetIn(m: State, a: Arg) {
    a in m && m[a].alreadySet && !m[a].xorSet
  }

  ghost predicate ExactlyOneSet(g: seq<Arg>, m: State) {
    exists w :: w in g && SetIn(m, w) && forall a | a in g && a != w :: !SetIn(m, a)
  }

  /** The count never exceeds the number of required arguments, and meets it only when all is well. */
  lemma FullCount(args: set<Arg>, groups: seq<seq<Arg>>, m: State, stale: set<Arg>, owner: map<nat, Arg>)
    requires Consistent(args, groups, m, stale, owner)
    ensures |CreditedArgs(groups, m, stale, owner)| <= |RequiredArgs(m)|
    ensures |CreditedArgs(groups, m, stale, owner)| == |RequiredArgs(m)| <==>
      forall a | a in args && m[a].required :: Credited(groups, m, stale, owner, a)
    ensures |CreditedArgs(groups, m, stale, owner)| == |RequiredArgs(m)| ==>
      && (forall a | a in args && m[a].required && !Grouped(groups, a) :: SetIn(m, a))
      && (forall k | 0 <= k < |groups| && groups[k] != [] :: ExactlyOneSet(groups[k], m))
  {
    var credited, required := CreditedArgs(groups, m, stale, owner), RequiredArgs(m);
    SubsetSize(credited, required);
    if forall a | a in args && m[a].required :: Credited(groups, m, stale, owner, a) {
      assert credited == required;
    }
    if |credited| == |required| {
      forall a | a in args && m[a].required
        ensures Credited(groups, m, stale, owner, a)
      {
        assert a in required && a in credited;
      }
      forall k | 0 <= k < |groups| && groups[k] != []
        ensures ExactlyOneSet(groups[k], m)
      {
        var a := groups[k][0];
        assert a in required && a in credited && Grouped(groups, a);
        assert k in owner;
        assert ClaimedBy(groups[k], owner[k], m);
        assert SetIn(m, owner[k]);
      }
    }
  }

  lemma SubsetSize(s: set<Arg>, t: set<Arg>)
    requires s <= t
    ensures |s| <= |t|
    ensures |s| == |t| <==> s == t
  {
    assert t == s + (t - s);
  }

  /** Registering an argument outside the groups. */
  lemma RegisterOne(args: set<Arg>, groups: seq<seq<Arg>>, m: State, a: Arg, v: View)
    requires Grouping(args, groups) && Requirements(args, groups, m)
    requires a !in args && (a.kind.Switch? ==> !v.required)
    ensures Grouping(args + {a}, groups) && Requirements(args + {a}, groups, m[a := v])
    ensures |RequiredArgs(m[a := v])| == |RequiredArgs(m)| + (if v.required then 1 else 0)
  {
    hide Distinct, Grouped;
    RequiredGrows(m, m[a := v], if v.required then [a] else []);
  }

  lemma RequiredGrows(m: State, m': State, g: seq<Arg>)
    requires Distinct(g) && Members(g) !! m.Keys
    requires forall a | a in m :: a in m' && m'[a] == m[a]
    requires forall a | a in g :: a in m' && m'[a].required
    requires forall a | a in m' && a !in m && a !in g :: !m'[a].required
    ensures |RequiredArgs(m')| == |RequiredArgs(m)| + |g|
  {
    assert RequiredArgs(m') == RequiredArgs(m) + Members(g);
    DistinctSize(g);
  }

  /** Registering a whole exclusive group, all of whose members become required. */
  lemma RegisterGroup(args: set<Arg>, groups: seq<seq<Arg>>, m: State, g: seq<Arg>, m': State)
    requires Grouping(args, groups) && Requirements(args, groups, m)
    requires Distinct(g) && Members(g) !! args
    requires m'.Keys == args + Members(g)
    requires forall a | a in args :: m'[a] == m[a]
    requires forall a | a in g :: m'[a].required
    ensures Grouping(args + Members(g), groups + [g])
    ensures Requirements(args + Members(g), groups + [g], m')
    ensures |RequiredArgs(m')| == |RequiredArgs(m)| + |g|
  {
    RequiredGrows(m, m', g);
    GroupingGrows(args, groups, g);
    forall a | a in args + Members(g) && m'[a].required && a.kind.Switch?
      ensures Grouped(groups + [g], a)
    {
      GroupedGrows(groups, g, a);
    }
  }

  lemma GroupedGrows(groups: seq<seq<Arg>>, g: seq<Arg>, a: Arg)
    ensures Grouped(groups + [g], a) <==> Grouped(groups, a) || a in g
  {
    var all := groups + [g];
    assert forall k | 0 <= k < |groups| :: all[k] == groups[k];
    assert all[|groups|] == g;
  }

  lemma GroupingGrows(args: set<Arg>, groups: seq<seq<Arg>>, g: seq<Arg>)
    requires Grouping(args, groups) && Distinct(g) && Members(g) !! args
    ensures Grouping(args + Members(g), groups + [g])
  {
    hide Distinct;
    var all := groups + [g];
    assert forall k | 0 <= k < |groups| :: all[k] == groups[k];
    forall a | a in g
      ensures forall k | 0 <= k < |groups| :: a !in groups[k]
    {
      assert a in Members(g);
    }
  }

  /** Before a parse nobody is excluded and nothing is credited. */
  lemma FreshBooks(args: set<Arg>, groups: seq<seq<Arg>>, m: State)
    requires Grouping(args, groups) && Requirements(args, groups, m)
    requires forall a | a in args :: !m[a].alreadySet && !m[a].xorSet && m[a].values == []
    ensures Books(args, groups, m, 0, set a | a in m && m[a].more, map[])
  {
    var stale := set a | a in m && m[a].more;
    assert CreditedArgs(groups, m, stale, map[]) == {};
    forall k | 0 <= k < |groups|
      ensures Unclaimed(groups[k], m, stale)
    {
      assert forall a | a in groups[k] :: a in args;
    }
  }
}
