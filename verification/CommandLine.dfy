/**
 The command line of TCLAP: registration (3rd/tclap/CmdLine.h add, xorAdd), the exclusive groups
 (3rd/tclap/XorHandler.h) and the parse loop with its single count of satisfied requirements.
 */
module CommandLine {
  import opened Tokens
  import opened Args
  import opened Accounting
  import opened CombinedSwitches
  import opened Parsing
  import opened ParseResults

  class CmdLine {
    const statics: Statics
    const ignoreUnmatched: bool
    var argList: seq<Arg>
    var orList: seq<seq<Arg>>
    var numRequired: int

    ghost function Registered(): set<Arg>
      reads this
    {
      set a | a in argList
    }

    ghost function Snapshot(): State
      reads this, argList
    {
      map a | a in argList :: a.Look()
    }

    /** What registration without an exception leaves behind. */
    ghost predicate WellBuilt()
      reads this, argList
    {
      && Grouping(Registered(), orList)
      && Requirements(Registered(), orList, Snapshot())
      && numRequired == |RequiredArgs(Snapshot())|
      && NamesApart()
    }

    /** No two arguments answer to the same flag or name. */
    ghost predicate NamesApart()
      reads this`argList
    {
      && (forall i, j | 0 <= i < j < |argList| :: !argList[i].SameAs(argList[j]))
      && (forall a | a in argList :: |a.flag| <= 1)
    }

    /** Registration keeps the flags apart, which is what combining them rests on. */
    lemma RegisteredFlagsApart()
      requires NamesApart() && forall a | a in argList :: a.flag != [BLANK]
      ensures FlagsApart(argList)
    {
      forall k, l | 0 <= k < l < |argList| && argList[k].flag != ""
        ensures argList[k].flag != argList[l].flag
      {
        assert !argList[k].SameAs(argList[l]);
      }
    }

    constructor (delimiter: char, ignoreUnmatched: bool)
      ensures WellBuilt() && argList == [] && orList == [] && numRequired == 0
      ensures statics.delimiter == delimiter && !statics.ignoreRest && fresh(statics)
        && this.ignoreUnmatched == ignoreUnmatched
    {
      statics := new Statics(delimiter);
      this.ignoreUnmatched := ignoreUnmatched;
      argList, orList, numRequired := [], [], 0;
      new;
      assert RequiredArgs(Snapshot()) == {};
    }

    /** False when an argument with the same flag or name is there already. */
    method Add(a: Arg) returns (ok: bool)
      requires a.Untouched()
      modifies this`argList, this`numRequired
      ensures ok <==> forall b | b in old(argList) :: !a.SameAs(b)
      ensures ok ==> argList == [a] + old(argList) && numRequired == old(numRequired) + (if a.required then 1 else 0)
      ensures !ok ==> argList == old(argList) && numRequired == old(numRequired)
    {
      for i := 0 to |argList|
        invariant forall j | 0 <= j < i :: !a.SameAs(argList[j])
      {
        if a.SameAs(argList[i]) {
          return false;
        }
      }
      argList := [a] + argList;
      if a.IsRequired() {
        numRequired := numRequired + 1;
      }
      return true;
    }

    method AddArg(a: Arg) returns (ok: bool)
      requires WellBuilt() && a.Untouched() && |a.flag| <= 1 && (a.kind.Switch? ==> !a.required)
      modifies this`argList, this`numRequired
      ensures ok <==> forall b | b in old(argList) :: a.name != b.name && (a.flag == "" || a.flag != b.flag)
      ensures WellBuilt() && argList == if ok then [a] + old(argList) else old(argList)
      ensures numRequired == old(numRequired) + if ok && a.required then 1 else 0
    {
      hide Grouping, Requirements, RequiredArgs;
      ghost var m, v := Snapshot(), a.Look();
      ok := Add(a);
      if ok {
        assert a !in old(argList);
        RegisterOne(old(Registered()), orList, m, a, v);
        assert Registered() == old(Registered()) + {a};
        assert Snapshot() == m[a := v];
      }
    }

    /** Register an exclusive group; afterwards each of its members is required. */
    method XorAdd(ors: seq<Arg>) returns (ok: bool)
      requires WellBuilt()
      requires forall a | a in ors :: a.Untouched() && |a.flag| <= 1
      modifies this`argList, this`orList, this`numRequired, ors`required
      ensures ok ==> WellBuilt() && orList == old(orList) + [ors] && numRequired == old(numRequired) + |ors|
      ensures ok ==> argList == Pushed(ors, old(argList))
      ensures !ok ==> exists k, b :: 0 <= k < |ors| && b in old(argList) + ors[..k] && ors[k].SameAs(b)
    {
      hide Grouping, Requirements, RequiredArgs, Members, Distinct, NamesApart;
      ghost var m, args := Snapshot(), Registered();
      orList := orList + [ors];
      ok := AddMembers(ors);
      if ok {
        forall a | a in ors
          ensures a !in args
        {
          InMembers(ors, a);
        }
        MembersApart(ors, args);
        RegisterGroup(args, old(orList), m, ors, Snapshot());
      }
    }

    /** Require the members of a group one after the other and put them in front of the list. */
    method AddMembers(ors: seq<Arg>) returns (ok: bool)
      requires NamesApart() && forall a | a in ors :: a.Untouched() && |a.flag| <= 1
      modifies this`argList, this`numRequired, ors`required
      ensures ok ==> NamesApart() && numRequired == old(numRequired) + |ors| && argList == Pushed(ors, old(argList))
      ensures ok ==> Registered() == old(Registered()) + Members(ors) && Distinct(ors)
      ensures ok ==> forall a | a in Members(ors) :: a.required && a !in old(Registered())
      ensures ok ==> forall a | a in old(Registered()) :: a.Look() == old(a.Look())
      ensures !ok ==> exists k, b :: 0 <= k < |ors| && b in old(argList) + ors[..k] && ors[k].SameAs(b)
    {
      hide Members, Distinct, NamesApart;
      ghost var args := Registered();
      FirstMembers(ors, 0);
      for k := 0 to |ors|
        invariant NamesApart() && numRequired == old(numRequired) + k
        invariant forall a | a in ors :: a.Untouched() && |a.flag| <= 1
        invariant Registered() == args + Members(ors[..k]) && Distinct(ors[..k])
        invariant argList == Pushed(ors[..k], old(argList))
        invariant forall a | a in Members(ors[..k]) :: a.required && a !in args
        invariant forall a | a in args :: a.Look() == old(a.Look())
      {
        var added := ForceAndAdd(ors[k]);
        if !added {
          var b :| b in argList && ors[k].SameAs(b);
          assert b in args + Members(ors[..k]);
          InMembers(ors[..k], b);
          assert b in old(argList) + ors[..k];
          return false;
        }
        FirstMembers(ors, k + 1);
        assert ors[..k + 1][..k] == ors[..k];
      }
      assert ors[..|ors|] == ors;
      return true;
    }

    method ForceAndAdd(a: Arg) returns (ok: bool)
      requires a.Untouched() && |a.flag| <= 1 && NamesApart()
      modifies this`argList, this`numRequired, a`required
      ensures a.required
      ensures !ok ==> argList == old(argList) && exists b :: b in argList && a.SameAs(b)
      ensures ok ==> a !in old(argList) && NamesApart() && numRequired == old(numRequired) + 1
      ensures ok ==> argList == [a] + old(argList) && Registered() == old(Registered()) + {a}
    {
      a.ForceRequired();
      ok := Add(a);
    }

    /** XorHandler::check: exclude the other members of the group of `a`, and answer what that is worth. */
    method Check(a: Arg) returns (worth: int, status: Status)
      requires Grouping(Registered(), orList) && a in argList
      modifies argList`alreadySet, argList`xorSet, argList`more
      ensures a in old(Snapshot())
      ensures var credit := Told(orList, old(Snapshot()), a);
        if credit.Granted? then status == Fine && worth == credit.worth && Snapshot() == credit.m
        else status == Thrown(MutuallyExclusive)
    {
      hide Grouping, Excluding;
      for k := 0 to |orList|
        invariant forall l | 0 <= l < k :: a !in orList[l]
        invariant Snapshot() == old(Snapshot())
      {
        if a in orList[k] {
          FirstGroup(orList, a, k);
          worth, status := ClaimGroup(k, a);
          return;
        }
      }
      assert !Grouped(orList, a);
      return if a.IsRequired() then 1 else 0, Fine;
    }

    method ClaimGroup(k: nat, a: Arg) returns (worth: int, status: Status)
      requires Grouping(Registered(), orList) && k < |orList| && a in orList[k]
      modifies argList`alreadySet, argList`xorSet, argList`more
      ensures a in old(Snapshot())
      ensures status == if exists b :: b in orList[k] && b != a && SetIn(old(Snapshot()), b)
                        then Thrown(MutuallyExclusive) else Fine
      ensures status.Fine? ==> Snapshot() == Excluding(orList[k], old(Snapshot()), a)
      ensures status.Fine? ==> worth == if a.kind.Multi? && old(a.more) then 0 else |orList[k]|
    {
      hide Grouping, Excluding;
      var g := orList[k];
      GroupIsRegistered(k);
      assert forall b | b in g :: b.IsSet() <==> SetIn(Snapshot(), b);
      for i := 0 to |g|
        invariant forall j | 0 <= j < i :: g[j] != a ==> !g[j].IsSet()
      {
        if g[i] != a && g[i].IsSet() {
          return 0, Thrown(MutuallyExclusive);
        }
      }
      var allows := TakeGroup(g, a);
      return if allows then 0 else |g|, Fine;
    }

    lemma ExcludedKeys(g: seq<Arg>, m: State, a: Arg)
      requires a in m
      ensures Excluding(g, m, a).Keys == m.Keys
    {
    }

    lemma ExcludedView(g: seq<Arg>, m: State, a: Arg, b: Arg)
      requires a in m && b in m
      ensures var v := Excluding(g, m, a)[b];
        v == if b == a then m[b].(more := a.kind.Multi? || m[b].more)
             else if b in g then m[b].(alreadySet := true, xorSet := true) else m[b]
    {
    }

    method TakeGroup(g: seq<Arg>, a: Arg) returns (allows: bool)
      requires a in argList && forall b | b in g :: b in argList
      modifies argList`alreadySet, argList`xorSet, argList`more
      ensures a in old(Snapshot()) && Snapshot() == Excluding(g, old(Snapshot()), a)
      ensures allows == (a.kind.Multi? && old(a.more))
    {
      hide Excluding;
      ghost var m := Snapshot();
      ExcludeOthers(g, a);
      allows := a.AllowMore();
      ExcludedKeys(g, m, a);
      forall b | b in argList
        ensures b in m && b.Look() == Excluding(g, m, a)[b]
      {
        assert b in m && m[b] == old(b.Look());
        ExcludedView(g, m, a, b);
      }
    }

    lemma GroupIsRegistered(k: nat)
      requires Grouping(Registered(), orList) && k < |orList|
      ensures forall b | b in orList[k] :: b in argList
    {
      assert forall b | b in orList[k] :: b in Registered();
    }

    /** Mark every member of `g` but `a` as taken. */
    method ExcludeOthers(g: seq<Arg>, a: Arg)
      requires forall b | b in g :: b in argList
      modifies argList`alreadySet, argList`xorSet
      ensures forall b | b in g && b != a :: b.alreadySet && b.xorSet
      ensures forall b | b in argList && (b !in g || b == a) ::
        b.alreadySet == old(b.alreadySet) && b.xorSet == old(b.xorSet)
    {
      for i := 0 to |g|
        invariant forall j | 0 <= j < i && g[j] != a :: g[j].alreadySet && g[j].xorSet
        invariant forall b | b in argList && (b !in g || b == a) ::
          b.alreadySet == old(b.alreadySet) && b.xorSet == old(b.xorSet)
      {
        if g[i] != a {
          assert g[i] in argList;
          g[i].XorSet();
        }
      }
    }

    /** What registration has fixed. */
    ghost function Setup(): Registry
      reads this
    {
      Registry(argList, orList, statics.delimiter, ignoreUnmatched)
    }

    ghost function Now(args: array<string>): World
      reads this, argList, args, statics
    {
      World(Snapshot(), args[..], statics.ignoreRest)
    }

    method AskOne(a: Arg, args: array<string>, i: nat) returns (matched: bool, i': nat, status: Status)
      requires a in argList && i < args.Length && statics.delimiter != BLANK
      modifies a`alreadySet, a`on, a`value, a`values, args, statics
      ensures var w := old(Now(args));
        && a in w.m
        && status == a.Verdict(w.m[a], w.args, i, statics.delimiter, w.ignoring)
        && (status.Fine? ==>
              var c := a.Effect(w.m[a], w.args, i, statics.delimiter, w.ignoring);
              Now(args) == Asked(Setup(), w, i, a) && matched == c.matched && i' == c.to)
    {
      hide Arg.Verdict, Arg.Effect;
      ghost var w := Now(args);
      matched, i', status := a.ProcessArg(args, i, statics);
      if status.Fine? {
        assert Snapshot() == w.m[a := a.Look()];
        assert args[..] == w.args[i := args[i]];
      }
    }

    lemma KnowsAll(args: array<string>)
      ensures Known(Setup(), Now(args)) && |Now(args).args| == args.Length
    {
    }

    /** One turn of the inner loop. */
    method AskNext(args: array<string>, i: nat, j: nat) returns (matched: bool, i': nat, status: Status)
      requires i < args.Length && j < |argList| && statics.delimiter != BLANK
      modifies argList`alreadySet, argList`on, argList`value, argList`values, args, statics
      ensures Known(Setup(), old(Now(args))) && Known(Setup(), Now(args)) && |Now(args).args| == args.Length
      ensures status.Fine? ==> i <= i' < args.Length && (!matched ==> i' == i)
      ensures status.Fine? ==>
        AskFrom(Setup(), old(Now(args)), i, j)
        == if matched then Taken(j, i', Now(args)) else AskFrom(Setup(), Now(args), i, j + 1)
      ensures status.Thrown? ==>
        var answer := AskFrom(Setup(), old(Now(args)), i, j); answer.Objected? && answer.error == status.error
    {
      hide Arg.Verdict, Arg.Effect, Asked, AskFrom, Known;
      KnowsAll(args);
      AskStep(Setup(), Now(args), i, j);
      matched, i', status := AskOne(argList[j], args, i);
      KnowsAll(args);
    }

    /** The inner loop of parse: ask the arguments in turn; the first one that answers yes ends it. */
    method AskAll(args: array<string>, i: nat) returns (j: nat, i': nat, status: Status)
      requires i < args.Length && statics.delimiter != BLANK
      modifies argList`alreadySet, argList`on, argList`value, argList`values, args, statics
      ensures j <= |argList| && (j < |argList| && status.Fine? ==> i <= i' < args.Length)
      ensures status.Fine? ==>
        AskFrom(Setup(), old(Now(args)), i, 0) == if j < |argList| then Taken(j, i', Now(args)) else Nobody(Now(args))
      ensures status.Thrown? ==>
        var answer := AskFrom(Setup(), old(Now(args)), i, 0); answer.Objected? && answer.error == status.error
    {
      hide AskFrom, Known, Now;
      KnowsAll(args);
      ghost var r, answer := Setup(), AskFrom(Setup(), Now(args), i, 0);
      j, i', status := 0, i, Fine;
      while j < |argList|
        invariant j <= |argList| && status.Fine? && i' == i && Setup() == r
        invariant Known(r, Now(args)) && |Now(args).args| == args.Length
        invariant AskFrom(r, Now(args), i, j) == answer
      {
        var matched;
        matched, i', status := AskNext(args, i, j);
        if status.Thrown? || matched {
          return;
        }
        j := j + 1;
      }
      AskedAll(r, Now(args), i);
    }

    /** One turn of the outer loop. */
    method ParseToken(args: array<string>, i: nat) returns (i': nat, status: Status, worth: int, ghost takers: seq<Arg>)
      requires i < args.Length && statics.delimiter != BLANK && Grouping(Registered(), orList)
      modifies argList`alreadySet, argList`xorSet, argList`more, argList`on, argList`value, argList`values, args,
        statics
      ensures TurnAt(Setup(), old(Now(args)), i)
           == if status.Fine? then Next(i', worth, takers, Now(args)) else Stop(status.error)
    {
      hide AskFrom, Told, Grouping;
      worth, takers := 0, [];
      var j;
      j, i', status := AskAll(args, i);
      if status.Thrown? {
        return;
      }
      if j < |argList| {
        takers := [argList[j]];
        worth, status := Check(argList[j]);
        return;
      }
      i' := i;
      if !EmptyCombined(args[i]) && !statics.ignoreRest && !ignoreUnmatched {
        status := Thrown(NoMatch);
      }
    }

    /**
     CmdLine::parse behind the program name. It ends as `ParseAll` says and leaves what that
     says. The count never gets past the number of required arguments; the parse ends well exactly
     when no token stopped it, every required argument outside the groups took a token, and in every group
     a member did who was not left over from an earlier parse. Then every required argument is set and
     exactly one in each group.
     */
    method Parse(args: array<string>) returns (status: Status)
      requires WellBuilt() && statics.delimiter != BLANK
      requires forall a | a in argList :: a.Untouched()
      modifies argList`alreadySet, argList`xorSet, argList`more, argList`on, argList`value, argList`values, args,
        statics
      ensures WellBuilt()
      ensures status == Verdict(ParseAll(Setup(), old(Now(args))), numRequired)
      ensures var end := ParseAll(Setup(), old(Now(args)));
        end.Finished? ==> Now(args) == end.w
      ensures status != Thrown(TooManyArguments)
      ensures var end := ParseAll(Setup(), old(Now(args)));
        status.Fine? <==> end.Finished? && AllTaken(Setup(), old(Snapshot()), end.takers)
      ensures status.Fine? ==> forall a | a in argList && a.required && !Grouped(orList, a) :: a.IsSet()
      ensures status.Fine? ==> forall k | 0 <= k < |orList| && orList[k] != [] :: ExactlyOneSet(orList[k], Snapshot())
    {
      hide Grouping, Requirements, RequiredArgs, AllTaken, AllSet, ExactlyOneSet, Grouped, WellBuilt, ParseAll,
        NamesApart, SetIn, Known;
      ghost var start := Now(args);
      IsFresh();
      ParseSucceedsIff(Setup(), start, numRequired);
      var requiredCount;
      ghost var takers;
      status, requiredCount, takers := ParseTokens(args);
      StaysBuilt(start.m);
      if status.Fine? {
        status := if requiredCount < numRequired then Thrown(MissingRequired)
                  else if requiredCount > numRequired then Thrown(TooManyArguments) else Fine;
        if status.Fine? {
          AllAreSet();
        }
      }
    }

    lemma AllAreSet()
      requires AllSet(Setup(), Snapshot())
      ensures forall a | a in argList && a.required && !Grouped(orList, a) :: a.IsSet()
      ensures forall k | 0 <= k < |orList| && orList[k] != [] :: ExactlyOneSet(orList[k], Snapshot())
    {
      hide Grouped, ExactlyOneSet;
      assert forall a | a in argList :: a in Snapshot() && (SetIn(Snapshot(), a) <==> a.IsSet());
    }

    lemma IsFresh()
      requires WellBuilt() && forall a | a in argList :: a.Untouched()
      ensures Fresh(Setup(), Snapshot(), numRequired) && NamesApart()
      ensures Grouping(Registered(), orList) && Requirements(Registered(), orList, Snapshot())
      ensures numRequired == |RequiredArgs(Snapshot())|
    {
    }

    /** A parse changes nothing that registration has fixed. */
    lemma StaysBuilt(m: State)
      requires Grouping(Registered(), orList) && Requirements(Registered(), orList, m) && NamesApart()
      requires numRequired == |RequiredArgs(m)| && forall a | a in argList :: a in m && a.required == m[a].required
      ensures WellBuilt()
    {
      RequirementsStay(Registered(), orList, m, Snapshot());
    }

    /** The outer loop of parse. */
    method ParseTokens(args: array<string>) returns (status: Status, requiredCount: int, ghost takers: seq<Arg>)
      requires statics.delimiter != BLANK && Grouping(Registered(), orList)
      modifies argList`alreadySet, argList`xorSet, argList`more, argList`on, argList`value, argList`values, args,
        statics
      ensures var end := ParseAll(Setup(), old(Now(args)));
        if status.Fine? then end == Finished(requiredCount, takers, Now(args))
        else end.Threw? && end.error == status.error
    {
      hide Grouping, TurnAt;
      status, requiredCount, takers := Fine, 0, [];
      var i := 0;
      while i < args.Length
        invariant i <= args.Length && Setup() == old(Setup()) && Grouping(Registered(), orList) && status.Fine?
        invariant ParseFrom(Setup(), Now(args), i, requiredCount, takers) == ParseAll(Setup(), old(Now(args)))
        decreases args.Length - i
      {
        var i', worth;
        ghost var taker;
        i', status, worth, taker := ParseToken(args, i);
        if status.Thrown? {
          return;
        }
        requiredCount, takers, i := requiredCount + worth, takers + taker, i' + 1;
      }
    }

    /** CmdLine::reset: every argument starts anew, except that a MultiArg stays allowed to repeat. */
    method Reset()
      requires WellBuilt()
      modifies argList
      ensures forall a | a in argList :: a.Untouched() && a.more == old(a.more)
      ensures forall a | a in argList :: a.on == a.initially && a.value == a.initialValue
      ensures WellBuilt()
    {
      hide Grouping, Requirements, RequiredArgs;
      for j := 0 to |argList|
        invariant forall k | 0 <= k < j :: argList[k].Untouched()
        invariant forall k | 0 <= k < j :: argList[k].on == argList[k].initially
        invariant forall k | 0 <= k < j :: argList[k].value == argList[k].initialValue
        invariant forall a | a in argList :: a.more == old(a.more) && a.required == old(a.required)
      {
        argList[j].Reset();
      }
      RequirementsStay(Registered(), orList, old(Snapshot()), Snapshot());
    }
  }

  /** The list after the members of `g` were put in front of it one after the other. */
  ghost function Pushed(g: seq<Arg>, list: seq<Arg>): seq<Arg> {
    if g == [] then list else [g[|g| - 1]] + Pushed(g[..|g| - 1], list)
  }

  lemma FirstMembers(g: seq<Arg>, k: nat)
    requires k <= |g|
    ensures if k == 0 then Members(g[..k]) == {} && Distinct(g[..k])
            else Members(g[..k]) == Members(g[..k - 1]) + {g[k - 1]}
                 && (Distinct(g[..k - 1]) && g[k - 1] !in Members(g[..k - 1]) ==> Distinct(g[..k]))
  {
    if k > 0 {
      assert g[..k] == g[..k - 1] + [g[k - 1]];
    }
  }

  lemma InMembers(g: seq<Arg>, a: Arg)
    ensures a in Members(g) <==> a in g
  {
  }

  lemma MembersApart(g: seq<Arg>, args: set<Arg>)
    requires forall a | a in g :: a !in args
    ensures Members(g) !! args
    ensures forall a | a in g :: a in Members(g)
  {
  }

  lemma FirstGroup(groups: seq<seq<Arg>>, a: Arg, k: nat)
    requires k < |groups| && a in groups[k] && forall l | 0 <= l < k :: a !in groups[l]
    ensures GroupOf(groups, a) == k
  {
  }
}
