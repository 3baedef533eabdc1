/**
 Why one integer is enough: along a whole parse the count is the number of credited arguments, and
 who is credited is decided by who took a token.
 */
module ParseResults {
  import opened Args
  import opened Accounting
  import opened Parsing

  ghost function Registered(r: Registry): set<Arg> {
    set a | a in r.list
  }

  /** A group is owned by the one member that took tokens, if any did. */
  ghost predicate Owners(groups: seq<seq<Arg>>, takers: seq<Arg>, owner: map<nat, Arg>) {
    forall k: nat | k < |groups| ::
      && (k in owner <==> exists t :: t in takers && t in groups[k])
      && (k in owner ==> owner[k] in takers && forall t | t in takers && t in groups[k] :: t == owner[k])
  }

  /** Outside the groups, the arguments that take values are set by taking tokens and in no other way. */
  ghost predicate SetByTaking(r: Registry, m: State, takers: seq<Arg>) {
    forall a | a in r.list && a in m && !a.kind.Switch? && !Grouped(r.groups, a) :: m[a].alreadySet <==> a in takers
  }

  ghost predicate SameRequired(start: State, m: State) {
    m.Keys == start.Keys && forall a | a in m :: m[a].required == start[a].required
  }

  /** Everything that holds between two tokens of a parse that started with `start`. */
  ghost predicate Ledger(r: Registry, start: State, m: State, count: int, takers: seq<Arg>, stale: set<Arg>,
                         owner: map<nat, Arg>) {
    && Books(Registered(r), r.groups, m, count, stale, owner)
    && Owners(r.groups, takers, owner)
    && SetByTaking(r, m, takers)
    && SameRequired(start, m)
  }

  lemma LedgerKnows(r: Registry, start: State, w: World, count: int, takers: seq<Arg>, stale: set<Arg>,
                    owner: map<nat, Arg>)
    requires Ledger(r, start, w.m, count, takers, stale, owner)
    ensures Known(r, w) && w.m.Keys == Registered(r)
  {
    ConsistentGrouping(Registered(r), r.groups, w.m, stale, owner);
  }

  /** The effect on an argument that has no objection: a match, or a letter found, or nothing. */
  lemma EffectKinds(a: Arg, u: View, args: seq<string>, i: nat, delimiter: char, ignoring: bool)
    requires i < |args| && a.Verdict(u, args, i, delimiter, ignoring).Fine?
    ensures var c := a.Effect(u, args, i, delimiter, ignoring);
      if c.matched then Matching(a, u, c.view) else c.view == u || Combining(a, u, c.view)
  {
  }

  /** Asking keeps the ledger up to the argument that takes the token. */
  lemma {:induction false} AskKeeps(r: Registry, start: State, w: World, i: nat, j: nat, count: int, takers: seq<Arg>,
                                    stale: set<Arg>, owner: map<nat, Arg>)
    returns (m: State)
    requires j <= |r.list| && i < |w.args| && Ledger(r, start, w.m, count, takers, stale, owner)
    ensures Known(r, w)
    ensures var answer := AskFrom(r, w, i, j);
      && (answer.Nobody? ==> m == answer.w.m)
      && (!answer.Objected? ==> Ledger(r, start, m, count, takers, stale, owner))
      && (answer.Taken? ==>
            var a := r.list[answer.j];
            a in m && answer.w.m == m[a := answer.w.m[a]] && Matching(a, m[a], answer.w.m[a]))
    decreases |r.list| - j
  {
    hide Ledger, Matching, Combining, Arg.Verdict, Arg.Effect;
    LedgerKnows(r, start, w, count, takers, stale, owner);
    m := w.m;
    if j < |r.list| {
      var a := r.list[j];
      if a.Verdict(w.m[a], w.args, i, r.delimiter, w.ignoring).Fine? {
        var c := a.Effect(w.m[a], w.args, i, r.delimiter, w.ignoring);
        EffectKinds(a, w.m[a], w.args, i, r.delimiter, w.ignoring);
        if !c.matched {
          FoundKeeps(r, start, w.m, count, takers, stale, owner, a, c.view);
          m := AskKeeps(r, start, Asked(r, w, i, a), i, j + 1, count, takers, stale, owner);
        }
      }
    }
  }

  lemma FoundKeeps(r: Registry, start: State, m: State, count: int, takers: seq<Arg>, stale: set<Arg>,
                   owner: map<nat, Arg>, a: Arg, v: View)
    requires Ledger(r, start, m, count, takers, stale, owner)
    requires a in r.list && a in m && (v == m[a] || Combining(a, m[a], v))
    ensures Ledger(r, start, m[a := v], count, takers, stale, owner)
  {
    hide Owners, Consistent;
    if v == m[a] {
      assert m[a := v] == m;
    } else {
      SetInCombination(Registered(r), r.groups, m, stale, owner, a, v);
    }
  }

  /** The taker and its group are entered into the ledger. */
  lemma TakenKeeps(r: Registry, start: State, m: State, count: int, takers: seq<Arg>, stale: set<Arg>,
                   owner: map<nat, Arg>, a: Arg, v: View)
    returns (owner': map<nat, Arg>)
    requires Ledger(r, start, m, count, takers, stale, owner)
    requires a in r.list && a in m && Matching(a, m[a], v)
    ensures var credit := Told(r.groups, m[a := v], a);
      credit.Granted? ==> Ledger(r, start, credit.m, count + credit.worth, takers + [a], stale, owner')
  {
    hide Consistent, CreditedArgs, Excluding;
    owner' := owner;
    var credit := Told(r.groups, m[a := v], a);
    if credit.Granted? {
      ConsistentGrouping(Registered(r), r.groups, m, stale, owner);
      owner' := Matched(Registered(r), r.groups, m, stale, owner, a, v, credit.m, credit.worth);
      OwnersGrow(r.groups, Registered(r), takers, owner, a, owner');
      TakenOutside(r, m, takers, a, v, credit.m);
    }
  }

  lemma OwnersGrow(groups: seq<seq<Arg>>, args: set<Arg>, takers: seq<Arg>, owner: map<nat, Arg>, a: Arg,
                   owner': map<nat, Arg>)
    requires Grouping(args, groups) && Owners(groups, takers, owner)
    requires !Grouped(groups, a) ==> owner' == owner
    requires forall k | 0 <= k < |groups| && a in groups[k] :: owner' == owner[k := a] && (k in owner ==> owner[k] == a)
    ensures Owners(groups, takers + [a], owner')
  {
    forall k: nat | k < |groups|
      ensures k in owner' <==> exists t :: t in takers + [a] && t in groups[k]
      ensures k in owner' ==>
        owner'[k] in takers + [a] && forall t | t in takers + [a] && t in groups[k] :: t == owner'[k]
    {
      assert a in takers + [a];
      assert forall t :: t in takers ==> t in takers + [a];
    }
  }

  lemma TakenOutside(r: Registry, m: State, takers: seq<Arg>, a: Arg, v: View, m': State)
    requires SetByTaking(r, m, takers) && a in m && Matching(a, m[a], v)
    requires Told(r.groups, m[a := v], a).Granted? && m' == Told(r.groups, m[a := v], a).m
    ensures SetByTaking(r, m', takers + [a]) && SameRequired(m, m')
  {
    var k := GroupOf(r.groups, a);
    forall b | b in r.list && b in m' && !b.kind.Switch? && !Grouped(r.groups, b)
      ensures m'[b].alreadySet <==> b in takers + [a]
    {
      assert b in m && (b != a ==> m'[b] == m[b]);
    }
  }

  lemma TurnKeeps(r: Registry, start: State, w: World, i: nat, count: int, takers: seq<Arg>, stale: set<Arg>,
                  owner: map<nat, Arg>)
    returns (owner': map<nat, Arg>)
    requires i < |w.args| && Ledger(r, start, w.m, count, takers, stale, owner)
    ensures Known(r, w)
    ensures var turn := TurnAt(r, w, i);
      turn.Next? ==> Ledger(r, start, turn.w.m, count + turn.worth, takers + turn.takers, stale, owner')
  {
    hide Ledger, Told;
    LedgerKnows(r, start, w, count, takers, stale, owner);
    owner' := owner;
    var m := AskKeeps(r, start, w, i, 0, count, takers, stale, owner);
    var answer := AskFrom(r, w, i, 0);
    if answer.Taken? {
      var a := r.list[answer.j];
      owner' := TakenKeeps(r, start, m, count, takers, stale, owner, a, answer.w.m[a]);
    } else {
      assert takers + [] == takers;
    }
  }

  lemma {:induction false} RunKeeps(r: Registry, start: State, w: World, i: nat, count: int, takers: seq<Arg>,
                                    stale: set<Arg>, owner: map<nat, Arg>)
    returns (owner': map<nat, Arg>)
    requires i <= |w.args| && Ledger(r, start, w.m, count, takers, stale, owner)
    ensures Known(r, w)
    ensures var end := ParseFrom(r, w, i, count, takers);
      end.Finished? ==> Ledger(r, start, end.w.m, end.count, end.takers, stale, owner')
    decreases |w.args| - i
  {
    hide Ledger, TurnAt;
    LedgerKnows(r, start, w, count, takers, stale, owner);
    owner' := owner;
    if i < |w.args| {
      owner' := TurnKeeps(r, start, w, i, count, takers, stale, owner);
      var turn := TurnAt(r, w, i);
      if turn.Next? {
        owner' := RunKeeps(r, start, turn.w, turn.to + 1, count + turn.worth, takers + turn.takers, stale, owner');
      }
    }
  }

  /** The state in which a parse may start: registered, counted and untouched. */
  ghost predicate Fresh(r: Registry, m: State, required: int) {
    && Grouping(Registered(r), r.groups)
    && Requirements(Registered(r), r.groups, m)
    && required == |RequiredArgs(m)|
    && forall a | a in m :: !m[a].alreadySet && !m[a].xorSet && m[a].values == []
  }

  /** Every required argument outside the groups took a token. */
  ghost predicate RequiredTaken(r: Registry, m: State, takers: seq<Arg>) {
    forall a | a in r.list && a in m && m[a].required && !Grouped(r.groups, a) :: a in takers
  }

  /** A member of the group took a token; a MultiArg that was left allowed to repeat does not do. */
  ghost predicate GroupTaken(g: seq<Arg>, m: State, takers: seq<Arg>) {
    exists t :: t in takers && t in g && t in m && !(t.kind.Multi? && m[t].more)
  }

  /** Whoever has to take a token took one. */
  ghost predicate AllTaken(r: Registry, m: State, takers: seq<Arg>) {
    && RequiredTaken(r, m, takers)
    && forall k | 0 <= k < |r.groups| && r.groups[k] != [] :: GroupTaken(r.groups[k], m, takers)
  }

  /** Every required argument outside the groups is set, and exactly one in each group. */
  ghost predicate AllSet(r: Registry, m: State) {
    && (forall a | a in r.list && a in m && m[a].required && !Grouped(r.groups, a) :: SetIn(m, a))
    && forall k | 0 <= k < |r.groups| && r.groups[k] != [] :: ExactlyOneSet(r.groups[k], m)
  }

  lemma FreshLedger(r: Registry, m: State, required: int)
    requires Fresh(r, m, required)
    ensures Ledger(r, m, m, 0, [], set a | a in m && m[a].more, map[])
  {
    FreshBooks(Registered(r), r.groups, m);
  }

  /**
   A parse never counts more than is required. It ends well exactly when it meets no exception, every
   required argument outside the groups took a token, and in every group somebody took one who was
   not left over from an earlier parse. Then all required arguments are set and exactly one in each
   group is.
   */
  lemma ParseSucceedsIff(r: Registry, w: World, required: int)
    requires Fresh(r, w.m, required)
    ensures Known(r, w)
    ensures var end := ParseAll(r, w);
      var verdict := Verdict(end, required);
      && verdict != Thrown(TooManyArguments)
      && (verdict.Fine? <==> end.Finished? && AllTaken(r, w.m, end.takers))
      && (verdict.Fine? ==> AllSet(r, end.w.m))
  {
    hide Ledger, ParseFrom, AllTaken, AllSet;
    var stale := set a | a in w.m && w.m[a].more;
    FreshLedger(r, w.m, required);
    LedgerKnows(r, w.m, w, 0, [], stale, map[]);
    var owner := RunKeeps(r, w.m, w, 0, 0, [], stale, map[]);
    var end := ParseAll(r, w);
    if end.Finished? {
      FinalCount(r, w.m, end.w.m, end.count, end.takers, stale, owner);
    }
  }

  /** All are credited exactly when everybody who had to took a token. */
  lemma CreditedIffTaken(r: Registry, start: State, m: State, takers: seq<Arg>, stale: set<Arg>, owner: map<nat, Arg>)
    requires Consistent(Registered(r), r.groups, m, stale, owner) && Owners(r.groups, takers, owner)
    requires SetByTaking(r, m, takers) && SameRequired(start, m) && stale == set a | a in start && start[a].more
    ensures (forall a | a in Registered(r) && m[a].required :: Credited(r.groups, m, stale, owner, a))
      <==> AllTaken(r, start, takers)
  {
    hide Consistent, Owners, SetByTaking, Credited;
    ConsistentGrouping(Registered(r), r.groups, m, stale, owner);
    forall a | a in r.list && m[a].required && !Grouped(r.groups, a)
      ensures Credited(r.groups, m, stale, owner, a) <==> a in takers
    {
      OutsideCredit(r, m, takers, stale, owner, a);
    }
    forall k, a | 0 <= k < |r.groups| && a in r.groups[k]
      ensures a in Registered(r) && m[a].required && Grouped(r.groups, a)
      ensures Credited(r.groups, m, stale, owner, a) <==> GroupTaken(r.groups[k], start, takers)
    {
      GroupCredit(r, start, m, takers, stale, owner, k, a);
    }
    if forall a | a in Registered(r) && m[a].required :: Credited(r.groups, m, stale, owner, a) {
      forall k | 0 <= k < |r.groups| && r.groups[k] != []
        ensures GroupTaken(r.groups[k], start, takers)
      {
        GroupCredit(r, start, m, takers, stale, owner, k, r.groups[k][0]);
      }
    }
  }

  lemma OutsideCredit(r: Registry, m: State, takers: seq<Arg>, stale: set<Arg>, owner: map<nat, Arg>, a: Arg)
    requires Consistent(Registered(r), r.groups, m, stale, owner) && SetByTaking(r, m, takers)
    requires a in r.list && a in m && m[a].required && !Grouped(r.groups, a)
    ensures Credited(r.groups, m, stale, owner, a) <==> a in takers
  {
  }

  lemma GroupCredit(r: Registry, start: State, m: State, takers: seq<Arg>, stale: set<Arg>, owner: map<nat, Arg>,
                    k: nat, a: Arg)
    requires Consistent(Registered(r), r.groups, m, stale, owner) && Owners(r.groups, takers, owner)
    requires SameRequired(start, m) && stale == set b | b in start && start[b].more
    requires k < |r.groups| && a in r.groups[k]
    ensures a in Registered(r) && a in m && m[a].required && Grouped(r.groups, a)
    ensures Credited(r.groups, m, stale, owner, a) <==> GroupTaken(r.groups[k], start, takers)
  {
    if k in owner {
      assert owner[k] in r.groups[k] by {
        ClaimShows(Registered(r), r.groups, m, stale, owner, k);
      }
    }
  }

  /** What the count says at the end. */
  lemma FinalCount(r: Registry, start: State, m: State, count: int, takers: seq<Arg>, stale: set<Arg>,
                   owner: map<nat, Arg>)
    requires Ledger(r, start, m, count, takers, stale, owner) && stale == set a | a in start && start[a].more
    ensures count <= |RequiredArgs(start)|
    ensures count == |RequiredArgs(start)| <==> AllTaken(r, start, takers)
    ensures count == |RequiredArgs(start)| ==> AllSet(r, m)
  {
    hide Consistent, Owners, SetByTaking, Credited, CreditedArgs, AllTaken, ExactlyOneSet, Grouped;
    assert RequiredArgs(m) == RequiredArgs(start);
    ConsistentGrouping(Registered(r), r.groups, m, stale, owner);
    FullCount(Registered(r), r.groups, m, stale, owner);
    CreditedIffTaken(r, start, m, takers, stale, owner);
  }
}
