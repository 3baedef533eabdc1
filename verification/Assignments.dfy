/**
 What a command line means: a list of items, each a switch, an option with its value attached or an
 option followed by its value, written as tokens and parsed, does to the arguments what its items
 say, one after the other, or stops at the first item that may not stand where it does.
 */
module Assignments {
  import opened Tokens
  import opened Args
  import opened Accounting
  import opened CombinedSwitches
  import opened Parsing
  import opened ParseResults
  import opened CommandLine

  datatype Item =
    | Flip(a: Arg, tag: string)
    | Attached(a: Arg, tag: string, v: string)
    | Separate(a: Arg, tag: string, v: string)

  function Written(item: Item, delimiter: char): (tokens: seq<string>)
    ensures 1 <= |tokens| <= 2
  {
    match item
    case Flip(_, tag) => [tag]
    case Attached(_, tag, v) => [tag + [delimiter] + v]
    case Separate(_, tag, v) => [tag, v]
  }

  function WrittenAll(items: seq<Item>, delimiter: char): seq<string> {
    if items == [] then [] else Written(items[0], delimiter) + WrittenAll(items[1..], delimiter)
  }

  predicate IsTag(a: Arg, tag: string) {
    tag == "--" + a.name || (a.flag != "" && tag == "-" + a.flag)
  }

  /** The item is written as its argument wants it, and its first token addresses nobody else. */
  ghost predicate Proper(r: Registry, item: Item) {
    var token := Written(item, r.delimiter)[0];
    && item.a in r.list && IsTag(item.a, item.tag)
    && (item.Flip? <==> item.a.kind.Switch?)
    && (item.Attached? ==> item.v != "")
    && (item.Separate? ==> r.delimiter == ' ')
    && r.delimiter !in item.tag && '\U{0007}' !in token
    && forall b | b in r.list && b != item.a :: !IsTag(b, if b.kind.Switch? then token else item.tag)
  }

  /** What an item does to its argument. */
  function Meant(u: View, item: Item): View {
    match item
    case Flip(_, _) => u.(alreadySet := true, on := !u.on)
    case _ =>
      if item.a.kind.Multi? then u.(alreadySet := true, values := u.values + [item.v])
      else u.(alreadySet := true, value := item.v)
  }

  /** Two members of one exclusive group. */
  ghost predicate Rivals(groups: seq<seq<Arg>>, a: Arg, b: Arg) {
    a != b && exists k :: 0 <= k < |groups| && a in groups[k] && b in groups[k]
  }

  /** What an item does to all arguments: its rivals are shut out, a MultiArg of a group may repeat. */
  ghost function Applied(r: Registry, m: State, item: Item): State
    requires item.a in m
  {
    map b | b in m ::
      if b != item.a then if Rivals(r.groups, item.a, b) then m[b].(alreadySet := true, xorSet := true) else m[b]
      else if Grouped(r.groups, b) && b.kind.Multi? then Meant(m[b], item).(more := true)
      else Meant(m[b], item)
  }

  /** Why an item may not stand where it does, if it may not. */
  ghost function Refusal(r: Registry, m: State, item: Item): Status
    requires item.a in m
  {
    var a, u := item.a, m[item.a];
    if u.alreadySet && !a.kind.Multi? then Thrown(if u.xorSet then MutuallyExclusive else ArgumentAlreadySet)
    else if !item.Flip? && !a.accepts(item.v) then Thrown(BadValue)
    else if a.visitor.ExitProgram? then Thrown(Exit)
    else if exists b :: b in m && Rivals(r.groups, a, b) && m[b].alreadySet && !m[b].xorSet
    then Thrown(MutuallyExclusive)
    else Fine
  }

  /** Whoever was shut out counts as set. */
  ghost predicate Sound(r: Registry, m: State) {
    && (forall a | a in r.list :: a in m && |a.flag| <= 1)
    && (forall k, a | 0 <= k < |r.groups| && a in r.groups[k] :: a in m)
    && Grouping(m.Keys, r.groups)
    && forall a | a in m && m[a].xorSet :: m[a].alreadySet
  }

  lemma TokenOf(r: Registry, item: Item)
    requires Proper(r, item) && |item.a.flag| <= 1
    ensures var token := Written(item, r.delimiter)[0];
      && Simple(token, r.delimiter)
      && FlagPart(token, r.delimiter) == item.tag
      && ValuePart(token, r.delimiter) == if item.Attached? then item.v else ""
  {
    var token := Written(item, r.delimiter)[0];
    NameStart(token);
    assert |item.tag| >= 2;
    var i := IndexOf(token, r.delimiter, 0);
    if item.Attached? {
      assert token[..|item.tag|] == item.tag && token[|item.tag|] == r.delimiter;
      assert token[|item.tag| + 1..] == item.v;
      assert i == |item.tag|;
    } else {
      assert token == item.tag && i == |token|;
    }
  }

  /** The token finds its argument and no other. */
  lemma Addressed(r: Registry, item: Item, b: Arg)
    requires Proper(r, item) && b in r.list && |item.a.flag| <= 1
    ensures b.Recognises(Written(item, r.delimiter)[0], r.delimiter) <==> b == item.a
  {
    TokenOf(r, item);
  }

  /** The argument's own opinion of the item. */
  lemma ItemVerdict(r: Registry, u: View, args: seq<string>, i: nat, item: Item)
    requires Proper(r, item) && |item.a.flag| <= 1 && (u.xorSet ==> u.alreadySet)
    requires i + |Written(item, r.delimiter)| <= |args|
    requires args[i..i + |Written(item, r.delimiter)|] == Written(item, r.delimiter)
    ensures item.a.Verdict(u, args, i, r.delimiter, false)
         == if u.alreadySet && !item.a.kind.Multi?
            then Thrown(if u.xorSet then MutuallyExclusive else ArgumentAlreadySet)
            else if !item.Flip? && !item.a.accepts(item.v) then Thrown(BadValue)
            else if item.a.visitor.ExitProgram? then Thrown(Exit)
            else Fine
  {
    TokenOf(r, item);
    assert args[i] == args[i..i + |Written(item, r.delimiter)|][0];
    assert item.Separate? ==> args[i + 1] == args[i..i + 2][1];
  }

  lemma ItemEffect(r: Registry, u: View, args: seq<string>, i: nat, item: Item)
    requires Proper(r, item) && |item.a.flag| <= 1
    requires i + |Written(item, r.delimiter)| <= |args|
    requires args[i..i + |Written(item, r.delimiter)|] == Written(item, r.delimiter)
    requires item.a.Verdict(u, args, i, r.delimiter, false).Fine?
    ensures item.a.Effect(u, args, i, r.delimiter, false)
         == Change(Meant(u, item), args[i], i + |Written(item, r.delimiter)| - 1, true, item.a.visitor.BeginIgnoring?)
  {
    TokenOf(r, item);
    assert args[i] == args[i..i + |Written(item, r.delimiter)|][0];
    assert item.Separate? ==> args[i + 1] == args[i..i + 2][1];
  }

  /**
   An option that is given no value, because its delimiter is missing or nothing follows it, stops the
   parse, and the exception tells which.
   */
  lemma BareOption(r: Registry, w: World, i: nat, a: Arg, tag: string)
    requires Known(r, w) && !w.ignoring && a in r.list && !a.kind.Switch? && forall b | b in r.list :: |b.flag| <= 1
    requires i < |w.args| && w.args[i] == tag && IsTag(a, tag) && '\U{0007}' !in tag
    requires r.delimiter !in tag || |tag| == 2
    requires r.delimiter == ' ' ==> i + 1 == |w.args|
    requires forall b | b in r.list && b != a :: !IsTag(b, tag)
    ensures TurnAt(r, w, i)
         == Stop(if w.m[a].alreadySet && !a.kind.Multi? then
                   if w.m[a].xorSet then MutuallyExclusive else ArgumentAlreadySet
                 else if r.delimiter == ' ' then MissingAValue else CouldNotFindDelimiter)
  {
    hide AskFrom, Arg.Effect;
    WholeTag(tag, r.delimiter);
    assert Simple(tag, r.delimiter) by {
      NameStart(tag);
    }
    SimpleToken(r, w, i, 0);
    var x :| 0 <= x < |r.list| && r.list[x] == a;
    assert forall b | b in r.list :: b.Recognises(tag, r.delimiter) <==> b == a;
  }

  lemma WholeTag(tag: string, delimiter: char)
    requires |tag| >= 2 && (delimiter !in tag || |tag| == 2)
    ensures FlagPart(tag, delimiter) == tag && ValuePart(tag, delimiter) == ""
  {
    var i := IndexOf(tag, delimiter, 0);
    assert i < |tag| ==> tag[i] == delimiter;
  }

  /** What the groups make of a match. */
  lemma GroupsSay(r: Registry, m: State, item: Item)
    requires Sound(r, m) && item.a in m
    ensures var credit := Told(r.groups, m[item.a := Meant(m[item.a], item)], item.a);
      if exists b :: b in m && Rivals(r.groups, item.a, b) && m[b].alreadySet && !m[b].xorSet
      then credit.Refused?
      else credit.Granted? && credit.m == Applied(r, m, item)
  {
    var a := item.a;
    var m' := m[a := Meant(m[a], item)];
    var k := GroupOf(r.groups, a);
    if k < |r.groups| {
      assert forall b :: Rivals(r.groups, a, b) <==> b != a && b in r.groups[k];
    } else {
      assert forall b :: !Rivals(r.groups, a, b);
    }
  }

  /** One item: it is refused for the reason told, or it is applied and the parse goes on behind it. */
  lemma ItemTurn(r: Registry, w: World, i: nat, item: Item)
    requires Known(r, w) && Sound(r, w.m) && Proper(r, item) && !w.ignoring
    requires i + |Written(item, r.delimiter)| <= |w.args|
    requires w.args[i..i + |Written(item, r.delimiter)|] == Written(item, r.delimiter)
    ensures var turn, refusal := TurnAt(r, w, i), Refusal(r, w.m, item);
      if refusal.Thrown? then turn == Stop(refusal.error)
      else
        && turn.Next? && turn.to == i + |Written(item, r.delimiter)| - 1 && turn.takers == [item.a]
        && turn.w == World(Applied(r, w.m, item), w.args, item.a.visitor.BeginIgnoring?)
  {
    hide Simple, AskFrom, Arg.Verdict, Arg.Effect, Arg.Recognises, Proper, Told, Applied, Rivals, Meant;
    var a, token := item.a, Written(item, r.delimiter)[0];
    ItemIsKnown(r, item);
    assert w.args[i] == w.args[i..i + |Written(item, r.delimiter)|][0] == token;
    TokenOf(r, item);
    SimpleToken(r, w, i, 0);
    var k := FirstTo(r, token, 0);
    FindsArgument(r, item, k);
    ItemVerdict(r, w.m[a], w.args, i, item);
    if a.Verdict(w.m[a], w.args, i, r.delimiter, false).Fine? {
      ItemEffect(r, w.m[a], w.args, i, item);
      GroupsSay(r, w.m, item);
      assert w.args[i := w.args[i]] == w.args;
    }
  }

  lemma ItemIsKnown(r: Registry, item: Item)
    requires Proper(r, item)
    ensures item.a in r.list
  {
  }

  lemma FindsArgument(r: Registry, item: Item, k: nat)
    requires Proper(r, item) && |item.a.flag| <= 1
    requires var token := Written(item, r.delimiter)[0]; k == FirstTo(r, token, 0)
    ensures k < |r.list| && r.list[k] == item.a
  {
    var token := Written(item, r.delimiter)[0];
    var x :| 0 <= x < |r.list| && r.list[x] == item.a;
    Addressed(r, item, item.a);
    if k < |r.list| {
      Addressed(r, item, r.list[k]);
    }
  }

  /** What a whole line does: it is refused, or it leaves these arguments, set by these. */
  datatype Meaning = Unacceptable(error: Error) | Done(m: State, takers: seq<Arg>, ignoring: bool)

  ghost function MeaningOf(r: Registry, m: State, items: seq<Item>): Meaning
    requires forall item | item in items :: item.a in m
  {
    if items == [] then Done(m, [], false)
    else
      var item := items[0];
      match Refusal(r, m, item)
      case Thrown(error) => Unacceptable(error)
      case Fine =>
        if item.a.visitor.BeginIgnoring? then Done(Applied(r, m, item), [item.a], true)
        else
          match MeaningOf(r, Applied(r, m, item), items[1..])
          case Unacceptable(error) => Unacceptable(error)
          case Done(m', takers, ignoring) => Done(m', [item.a] + takers, ignoring)
  }

  ghost predicate ProperLine(r: Registry, m: State, items: seq<Item>) {
    Sound(r, m) && forall item | item in items :: Proper(r, item) && item.a in m
  }

  lemma ProperRest(r: Registry, m: State, items: seq<Item>)
    requires ProperLine(r, m, items) && items != []
    ensures items[0].a in m && Proper(r, items[0]) && Sound(r, m)
    ensures Refusal(r, m, items[0]).Fine? ==> ProperLine(r, Applied(r, m, items[0]), items[1..])
  {
    hide Proper, Refusal, Rivals, Grouped;
    assert items[0] in items;
    var m' := Applied(r, m, items[0]);
    assert m'.Keys == m.Keys;
  }

  lemma FirstWritten(args: seq<string>, i: nat, items: seq<Item>, delimiter: char)
    requires i <= |args| && args[i..] == WrittenAll(items, delimiter) && items != []
    ensures var n := |Written(items[0], delimiter)|;
      && i + n <= |args| && args[i..i + n] == Written(items[0], delimiter)
      && args[i + n..] == WrittenAll(items[1..], delimiter)
  {
    var first, rest := Written(items[0], delimiter), WrittenAll(items[1..], delimiter);
    assert args[i..] == first + rest;
    assert args[i..][..|first|] == args[i..i + |first|] && args[i..][|first|..] == args[i + |first|..];
  }

  /** The parse ends as the meaning says, behind those who took tokens before. */
  ghost predicate EndsAs(end: End, takers: seq<Arg>, meaning: Meaning, args: seq<string>) {
    match meaning
    case Unacceptable(error) => end.Threw? && end.error == error
    case Done(m, who, ignoring) =>
      end.Finished? && end.takers == takers + who && end.w == World(m, args, ignoring)
  }

  lemma EndsBehind(end: End, takers: seq<Arg>, a: Arg, rest: Meaning, args: seq<string>)
    requires EndsAs(end, takers + [a], rest, args)
    ensures EndsAs(end, takers, match rest
                                case Unacceptable(error) => rest
                                case Done(m, who, ignoring) => Done(m, [a] + who, ignoring), args)
  {
    if rest.Done? {
      assert (takers + [a]) + rest.takers == takers + ([a] + rest.takers);
    }
  }

  /** Parsing a line that was written from items has the meaning of the items. */
  lemma {:induction false} LineMeans(r: Registry, w: World, i: nat, items: seq<Item>, count: int, takers: seq<Arg>)
    requires Known(r, w) && ProperLine(r, w.m, items) && !w.ignoring
    requires i <= |w.args| && w.args[i..] == WrittenAll(items, r.delimiter)
    ensures EndsAs(ParseFrom(r, w, i, count, takers), takers, MeaningOf(r, w.m, items), w.args)
    decreases |items|
  {
    hide Proper, Refusal, Applied, TurnAt, Sound, Written, WrittenAll, EndsAs;
    if items == [] {
      NothingLeft(r, w, i, count, takers);
    } else {
      var item := items[0];
      var n := |Written(item, r.delimiter)|;
      FirstWritten(w.args, i, items, r.delimiter);
      ProperRest(r, w.m, items);
      ItemTurn(r, w, i, item);
      var turn := TurnAt(r, w, i);
      if Refusal(r, w.m, item).Thrown? {
        Refuses(ParseFrom(r, w, i, count, takers), takers, turn.error, w.args);
      } else {
        var count', takers' := count + turn.worth, takers + [item.a];
        if item.a.visitor.BeginIgnoring? {
          IgnoringTakesNothing(r, turn.w, i + n, count', takers');
          Ignores(ParseFrom(r, w, i, count, takers), takers, item.a, turn.w);
        } else {
          LineMeans(r, turn.w, i + n, items[1..], count', takers');
          EndsBehind(ParseFrom(r, w, i, count, takers), takers, item.a, MeaningOf(r, turn.w.m, items[1..]), w.args);
        }
      }
    }
  }

  lemma NothingLeft(r: Registry, w: World, i: nat, count: int, takers: seq<Arg>)
    requires Known(r, w) && i <= |w.args| && w.args[i..] == WrittenAll([], r.delimiter) && !w.ignoring
    ensures EndsAs(ParseFrom(r, w, i, count, takers), takers, Done(w.m, [], false), w.args)
  {
    assert i == |w.args| && takers + [] == takers;
  }

  lemma Refuses(end: End, takers: seq<Arg>, error: Error, args: seq<string>)
    requires end.Threw? && end.error == error
    ensures EndsAs(end, takers, Unacceptable(error), args)
  {
  }

  lemma Ignores(end: End, takers: seq<Arg>, a: Arg, w: World)
    requires end.Finished? && end.takers == takers + [a] && end.w == w
    ensures EndsAs(end, takers, Done(w.m, [a], w.ignoring), w.args)
  {
  }

  /** The items up to the first whose argument has the rest ignored. */
  function Heeded(items: seq<Item>): seq<Item> {
    if items == [] then [] else [items[0]] + if items[0].a.visitor.BeginIgnoring? then [] else Heeded(items[1..])
  }

  /** The values the items give to `a`, in their order. */
  function ValuesFor(a: Arg, items: seq<Item>): seq<string> {
    if items == [] then []
    else (if items[0].a == a && !items[0].Flip? then [items[0].v] else []) + ValuesFor(a, items[1..])
  }

  predicate Mentions(items: seq<Item>, a: Arg) {
    exists k :: 0 <= k < |items| && items[k].a == a
  }

  /** `v` is `u` after the items, for the part a program reads: the switch, the value, the values. */
  ghost predicate Reads(a: Arg, u: View, items: seq<Item>, v: View) {
    && v.on == (if a.kind.Switch? && Mentions(items, a) then !u.on else u.on)
    && v.values == (if a.kind.Multi? then u.values + ValuesFor(a, items) else u.values)
    && (if a.kind.Value? && ValuesFor(a, items) != [] then ValuesFor(a, items) == [v.value] else v.value == u.value)
    && (!a.kind.Multi? && u.alreadySet ==> ValuesFor(a, items) == [] && !Mentions(items, a))
  }

  /**
   After a line that is accepted, every option holds the value the line gave it, every MultiArg all of
   its values in their order, every switch that was named is turned over, and nothing else has changed.
   */
  lemma {:induction false} LineIsRead(r: Registry, m: State, items: seq<Item>, a: Arg)
    requires ProperLine(r, m, items) && a in m && MeaningOf(r, m, items).Done?
    ensures a in MeaningOf(r, m, items).m && Reads(a, m[a], Heeded(items), MeaningOf(r, m, items).m[a])
    decreases |items|
  {
    hide Proper, Sound, Refusal, Reads, Meant, Rivals, Grouped;
    if items == [] {
      NoItem(a, m[a]);
    } else {
      var item := items[0];
      ProperRest(r, m, items);
      ItemFits(r, item);
      var m' := Applied(r, m, item);
      if !item.a.visitor.BeginIgnoring? {
        LineIsRead(r, m', items[1..], a);
        assert Heeded(items) == [item] + Heeded(items[1..]);
        OneMoreItem(r, m, item, Heeded(items[1..]), a, MeaningOf(r, m, items).m[a]);
      } else {
        assert Heeded(items) == [item] + [];
        NoItem(a, m'[a]);
        OneMoreItem(r, m, item, [], a, m'[a]);
      }
    }
  }

  lemma NoItem(a: Arg, u: View)
    ensures Reads(a, u, [], u)
  {
  }

  lemma ItemFits(r: Registry, item: Item)
    requires Proper(r, item)
    ensures item.Flip? <==> item.a.kind.Switch?
  {
  }

  lemma OneMoreItem(r: Registry, m: State, item: Item, rest: seq<Item>, a: Arg, v: View)
    requires item.a in m && a in m && Refusal(r, m, item).Fine?
    requires item.Flip? <==> item.a.kind.Switch?
    requires Reads(a, Applied(r, m, item)[a], rest, v)
    ensures Reads(a, m[a], [item] + rest, v)
  {
    hide Refusal, Applied, ValuesFor, Mentions;
    AppliedView(r, m, item, a);
    FirstMentions(item, rest, a);
  }

  /** What an item does to one argument, as far as a program reads it. */
  lemma AppliedView(r: Registry, m: State, item: Item, a: Arg)
    requires item.a in m && a in m && Refusal(r, m, item).Fine?
    ensures var u, v, w := m[a], Applied(r, m, item)[a], Meant(m[a], item);
      if a == item.a
      then
        && v.on == w.on && v.value == w.value && v.values == w.values
        && v.alreadySet && (u.alreadySet ==> a.kind.Multi?)
      else v.on == u.on && v.value == u.value && v.values == u.values && (u.alreadySet ==> v.alreadySet)
  {
  }

  lemma FirstMentions(item: Item, rest: seq<Item>, a: Arg)
    ensures Mentions([item] + rest, a) <==> item.a == a || Mentions(rest, a)
    ensures ValuesFor(a, [item] + rest)
         == (if item.a == a && !item.Flip? then [item.v] else []) + ValuesFor(a, rest)
  {
    var items := [item] + rest;
    assert items[0] == item && items[1..] == rest;
    assert forall k | 1 <= k < |items| :: items[k] == rest[k - 1];
    assert forall k | 0 <= k < |rest| :: rest[k] == items[k + 1];
  }

  /**
   Parse a line written from items: the exception is that of the first item that is refused, or all
   arguments are left as the items say, and then the only thing that can be wrong is that somebody
   who had to take a token did not.
   */
  method ParseLine(c: CmdLine, args: array<string>, ghost items: seq<Item>) returns (status: Status)
    requires c.WellBuilt() && c.statics.delimiter != BLANK && !c.statics.ignoreRest
    requires forall a | a in c.argList :: a.Untouched()
    requires forall item | item in items :: Proper(c.Setup(), item)
    requires args[..] == WrittenAll(items, c.statics.delimiter)
    modifies c.argList`alreadySet, c.argList`xorSet, c.argList`more
    modifies c.argList`on, c.argList`value, c.argList`values, args, c.statics
    ensures ProperLine(c.Setup(), old(c.Snapshot()), items)
    ensures match MeaningOf(c.Setup(), old(c.Snapshot()), items)
            case Unacceptable(error) => status == Thrown(error)
            case Done(m, takers, ignoring) =>
              && c.Snapshot() == m && args[..] == old(args[..]) && c.statics.ignoreRest == ignoring
              && status == if AllTaken(c.Setup(), old(c.Snapshot()), takers) then Fine else Thrown(MissingRequired)
  {
    hide CmdLine.WellBuilt, ParseFrom, MeaningOf, AllTaken, ExactlyOneSet, Proper, Sound, WrittenAll;
    ghost var r, w := c.Setup(), c.Now(args);
    LineIsProper(c, items);
    c.KnowsAll(args);
    assert w.args[0..] == w.args;
    LineMeans(r, w, 0, items, 0, []);
    assert forall takers: seq<Arg> :: [] + takers == takers;
    status := c.Parse(args);
  }

  lemma LineIsProper(c: CmdLine, items: seq<Item>)
    requires c.WellBuilt() && forall a | a in c.argList :: a.Untouched()
    requires forall item | item in items :: Proper(c.Setup(), item)
    ensures ProperLine(c.Setup(), c.Snapshot(), items)
  {
    hide Proper;
    forall item | item in items
      ensures item.a in c.Snapshot()
    {
      ItemIsKnown(c.Setup(), item);
    }
  }

  /** Registered arguments whose flags and names a command line can tell apart from everything else in a token. */
  ghost predicate Plain(r: Registry) {
    && r.delimiter != '-' && r.delimiter != BLANK
    && (forall a | a in r.list ::
          |a.flag| <= 1 && a.name != "" && r.delimiter !in a.flag + a.name && BLANK !in a.flag + a.name)
    && (forall a, b | a in r.list && b in r.list && a != b :: a.name != b.name && (a.flag != "" ==> a.flag != b.flag))
  }

  /** With such names every flag and every name addresses its own argument, whatever the value. */
  lemma EveryTagAddresses(r: Registry, item: Item)
    requires Plain(r) && item.a in r.list && IsTag(item.a, item.tag)
    requires item.Flip? <==> item.a.kind.Switch?
    requires item.Attached? ==> item.v != "" && BLANK !in item.v
    requires item.Separate? ==> r.delimiter == ' '
    ensures Proper(r, item)
  {
    var a, token := item.a, Written(item, r.delimiter)[0];
    TagHasNo(a, item.tag, r.delimiter);
    TagHasNo(a, item.tag, BLANK);
    forall b | b in r.list && b != a
      ensures !IsTag(b, item.tag)
      ensures b.kind.Switch? ==> !IsTag(b, token)
    {
      TagsDiffer(a, b, item.tag);
      if item.Attached? {
        assert token[|item.tag|] == r.delimiter;
        TagHasNo(b, token, r.delimiter);
      }
    }
  }

  lemma TagHasNo(a: Arg, tag: string, c: char)
    requires c != '-' && c !in a.flag + a.name
    ensures IsTag(a, tag) ==> c !in tag
  {
    assert a.flag <= a.flag + a.name && (a.flag + a.name)[|a.flag|..] == a.name;
  }

  lemma TagsDiffer(a: Arg, b: Arg, tag: string)
    requires |a.flag| <= 1 && |b.flag| <= 1 && a.name != "" && b.name != ""
    requires a.name != b.name && (a.flag != "" ==> a.flag != b.flag) && IsTag(a, tag)
    ensures !IsTag(b, tag)
  {
    TagParts(tag, a.name, a.flag);
    TagParts(tag, b.name, b.flag);
  }

  lemma TagParts(tag: string, name: string, flag: string)
    ensures tag == "--" + name ==> tag[2..] == name
    ensures tag == "-" + flag ==> tag[1..] == flag
  {
  }
}
