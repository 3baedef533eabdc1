/**
 What a parse does, as a function on snapshots of the arguments: the reference that the methods of
 the command line are checked against and that the results about parsing are stated for
 (3rd/tclap/CmdLine.h parse, 3rd/tclap/XorHandler.h check).
 */
module Parsing {
  import opened Tokens
  import opened Args
  import opened Accounting

  /** What registration has fixed: the arguments in the order they are asked, the exclusive groups. */
  datatype Registry = Registry(list: seq<Arg>, groups: seq<seq<Arg>>, delimiter: char, lenient: bool)

  /** What a parse changes: the arguments, the tokens, whether the rest is ignored. */
  datatype World = World(m: State, args: seq<string>, ignoring: bool)

  ghost predicate Known(r: Registry, w: World) {
    forall a | a in r.list :: a in w.m
  }

  /** How asking the arguments about one token ends. */
  datatype Answer =
    | Nobody(w: World)
    | Taken(j: nat, to: nat, w: World)
    | Objected(j: nat, error: Error, w: World)

  /** Token `i` after argument `a` was handed it and had no objection. */
  ghost function Asked(r: Registry, w: World, i: nat, a: Arg): World
    requires i < |w.args| && a in w.m
    requires a.Verdict(w.m[a], w.args, i, r.delimiter, w.ignoring).Fine?
  {
    var c := a.Effect(w.m[a], w.args, i, r.delimiter, w.ignoring);
    World(w.m[a := c.view], w.args[i := c.text], c.ignoring)
  }

  /** Ask the arguments from number `j` on about token `i`, until one takes it or objects. */
  ghost function AskFrom(r: Registry, w: World, i: nat, j: nat): (answer: Answer)
    requires j <= |r.list| && i < |w.args| && Known(r, w)
    ensures Known(r, answer.w) && answer.w.m.Keys == w.m.Keys && |answer.w.args| == |w.args|
    ensures !answer.Nobody? ==> j <= answer.j < |r.list|
    ensures answer.Taken? ==> i <= answer.to < |w.args|
    ensures answer.Objected? ==> !IsRequiredError(answer.error)
    decreases |r.list| - j
  {
    if j == |r.list| then Nobody(w)
    else
      var a := r.list[j];
      var verdict := a.Verdict(w.m[a], w.args, i, r.delimiter, w.ignoring);
      if verdict.Thrown? then Objected(j, verdict.error, w)
      else
        var c := a.Effect(w.m[a], w.args, i, r.delimiter, w.ignoring);
        if c.matched then Taken(j, c.to, Asked(r, w, i, a)) else AskFrom(r, Asked(r, w, i, a), i, j + 1)
  }

  lemma AskedAll(r: Registry, w: World, i: nat)
    requires i < |w.args| && Known(r, w)
    ensures AskFrom(r, w, i, |r.list|) == Nobody(w)
  {
  }

  lemma AskStep(r: Registry, w: World, i: nat, j: nat)
    requires j < |r.list| && i < |w.args| && Known(r, w)
    ensures var a := r.list[j];
      var verdict := a.Verdict(w.m[a], w.args, i, r.delimiter, w.ignoring);
      if verdict.Thrown? then AskFrom(r, w, i, j) == Objected(j, verdict.error, w)
      else
        var c, w' := a.Effect(w.m[a], w.args, i, r.delimiter, w.ignoring), Asked(r, w, i, a);
        Known(r, w') && AskFrom(r, w, i, j) == if c.matched then Taken(j, c.to, w') else AskFrom(r, w', i, j + 1)
  {
  }

  /** The first group that has `a`, or the number of groups. */
  ghost function GroupOf(groups: seq<seq<Arg>>, a: Arg): (k: nat)
    ensures k <= |groups| && (k < |groups| <==> Grouped(groups, a)) && (k < |groups| ==> a in groups[k])
    ensures forall l | 0 <= l < k :: a !in groups[l]
  {
    if groups == [] then 0
    else if a in groups[0] then assert a in groups[0]; 0
    else
      var k := GroupOf(groups[1..], a);
      assert forall l | 1 <= l < |groups| :: groups[l] == groups[1..][l - 1];
      k + 1
  }

  datatype Credit = Refused | Granted(worth: int, m: State)

  /** What a match of `a` is worth, and what it means for the others of its group. */
  ghost function Told(groups: seq<seq<Arg>>, m: State, a: Arg): Credit
    requires a in m
  {
    var k := GroupOf(groups, a);
    if k == |groups| then Granted(if StillRequired(a, m[a]) then 1 else 0, m)
    else if exists b :: b in groups[k] && b != a && SetIn(m, b) then Refused
    else Granted(if a.kind.Multi? && m[a].more then 0 else |groups[k]|, Excluding(groups[k], m, a))
  }

  /** `isRequired`: a MultiArg is not required any more once it has two values. */
  ghost predicate StillRequired(a: Arg, u: View) {
    u.required && (a.kind.Multi? ==> |u.values| <= 1)
  }

  /** One turn of the outer loop: an exception, or where and with what to go on, and who took the token. */
  datatype Turn = Stop(error: Error) | Next(to: nat, worth: int, takers: seq<Arg>, w: World)

  ghost function TurnAt(r: Registry, w: World, i: nat): (turn: Turn)
    requires i < |w.args| && Known(r, w)
    ensures turn.Stop? ==> !IsRequiredError(turn.error)
    ensures turn.Next? ==> i <= turn.to < |w.args| == |turn.w.args| && turn.w.m.Keys == w.m.Keys && |turn.takers| <= 1
  {
    match AskFrom(r, w, i, 0)
    case Objected(_, error, _) => Stop(error)
    case Taken(j, to, w') =>
      (match Told(r.groups, w'.m, r.list[j])
       case Refused => Stop(MutuallyExclusive)
       case Granted(worth, m) => Next(to, worth, [r.list[j]], w'.(m := m)))
    case Nobody(w') =>
      if EmptyCombined(w'.args[i]) || w'.ignoring || r.lenient then Next(i, 0, [], w') else Stop(NoMatch)
  }

  /** How the loop over the tokens ends: an exception at a token, or the count and who took tokens. */
  datatype End = Threw(at: nat, error: Error) | Finished(count: int, takers: seq<Arg>, w: World)

  ghost function ParseFrom(r: Registry, w: World, i: nat, count: int, takers: seq<Arg>): (end: End)
    requires i <= |w.args| && Known(r, w)
    ensures end.Threw? ==> i <= end.at < |w.args| && !IsRequiredError(end.error)
    ensures end.Finished? ==> |end.w.args| == |w.args| && end.w.m.Keys == w.m.Keys && takers <= end.takers
    decreases |w.args| - i
  {
    if i == |w.args| then Finished(count, takers, w)
    else
      match TurnAt(r, w, i)
      case Stop(error) => Threw(i, error)
      case Next(to, worth, taker, w') =>
        assert takers <= takers + taker;
        ParseFrom(r, w', to + 1, count + worth, takers + taker)
  }

  ghost function ParseAll(r: Registry, w: World): End
    requires Known(r, w)
  {
    ParseFrom(r, w, 0, 0, [])
  }

  /** How the parse ends when `required` arguments were registered as required. */
  ghost function Verdict(end: End, required: int): Status {
    match end
    case Threw(_, error) => Thrown(error)
    case Finished(count, _, _) =>
      if count < required then Thrown(MissingRequired)
      else if count > required then Thrown(TooManyArguments)
      else Fine
  }
}
