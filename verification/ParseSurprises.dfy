/** Three command lines that come to something else than whoever wrote them would expect. */
module ParseSurprises {
  import opened Tokens
  import opened Args
  import opened Accounting
  import opened CombinedSwitches
  import opened Parsing
  import opened ParseResults
  import opened CommandLine

  ghost predicate Untouched(u: View) {
    !u.alreadySet && !u.xorSet && u.values == []
  }

  ghost predicate PlainSwitch(a: Arg, flag: string) {
    a.kind.Switch? && a.flag == flag && a.visitor.NoVisitor?
  }

  /** Asked about a token that has its letter, a switch is set and blanks it. */
  lemma LetterFound(a: Arg, flag: char, u: View, args: seq<string>, i: nat)
    requires PlainSwitch(a, [flag]) && flag != '-' && flag != BLANK && Untouched(u)
    requires i < |args| && |args[i]| == 3 && args[i][0] == '-' && args[i][1] != '-'
    requires ' ' !in args[i] && Once(args[i], flag)
    ensures a.Verdict(u, args, i, ' ', false).Fine?
    ensures var c := a.Effect(u, args, i, ' ', false);
      && c == Change(u.(alreadySet := true, on := !u.on), Blanked(args[i], {flag}), i, c.matched, false)
      && (c.matched <==> AllBlank(c.text))
  {
    var p :| 1 <= p < |args[i]| && args[i][p] == flag;
    assert flag in Letters(args[i]);
    NameStart(args[i]);
    assert args[i] != [FLAG_START] + a.flag && |args[i]| == 3;
    assert !(NAME_START <= args[i]) && NAME_START <= NAME_START + a.name;
  }

  lemma LetterMissing(a: Arg, flag: char, u: View, args: seq<string>, i: nat)
    requires PlainSwitch(a, [flag]) && i < |args| && |args[i]| == 3 && args[i][1] != '-'
    requires args[i][1] != flag && args[i][2] != flag
    ensures a.Verdict(u, args, i, ' ', false).Fine?
    ensures a.Effect(u, args, i, ' ', false) == Change(u, args[i], i, false, false)
  {
    NameStart(args[i]);
    assert NAME_START <= NAME_START + a.name;
  }

  /** Asking y, x and z in turn about `-xz`: y has no letter there, x finds one, z finds the last and takes it. */
  lemma AskedInTurn(r: Registry, w: World, x: Arg, y: Arg, z: Arg)
    returns (w': World)
    requires r.list == [y, x, z] && r.delimiter == ' ' && w.args == ["-xz"] && !w.ignoring
    requires PlainSwitch(x, "x") && PlainSwitch(y, "y") && PlainSwitch(z, "z")
    requires x in w.m && y in w.m && z in w.m && Untouched(w.m[x]) && Untouched(w.m[y]) && Untouched(w.m[z])
    ensures AskFrom(r, w, 0, 0) == Taken(2, 0, w') && w'.m.Keys == w.m.Keys && |w'.args| == 1
    ensures w'.m[y] == w.m[y] && w'.m[x].alreadySet && !w'.m[x].xorSet
    ensures w'.m[z].required == w.m[z].required
  {
    hide Arg.Verdict, Arg.Effect, Once, Blanked, Letters, AllBlank;
    var token, text := "-xz", ['-', BLANK, 'z'];
    assert x.flag == ['x'] && y.flag == ['y'] && z.flag == ['z'];
    Letters3();
    LetterMissing(y, 'y', w.m[y], w.args, 0);
    assert Asked(r, w, 0, y) == w by {
      assert w.m[y := w.m[y]] == w.m && w.args[0 := w.args[0]] == w.args;
    }
    LetterFound(x, 'x', w.m[x], w.args, 0);
    var w2 := Asked(r, w, 0, x);
    assert w2.args == [text];
    LetterFound(z, 'z', w2.m[z], w2.args, 0);
    w' := Asked(r, w2, 0, z);
    assert AskFrom(r, w2, 0, 2) == Taken(2, 0, w');
    assert AskFrom(r, w, 0, 1) == AskFrom(r, w2, 0, 2);
    assert AskFrom(r, w, 0, 0) == AskFrom(r, w, 0, 1);
  }

  lemma Letters3()
    ensures Once("-xz", 'x') && Blanked("-xz", {'x'}) == ['-', BLANK, 'z'] && !AllBlank(['-', BLANK, 'z'])
    ensures Once(['-', BLANK, 'z'], 'z') && AllBlank(Blanked(['-', BLANK, 'z'], {'z'}))
  {
    var token, text := "-xz", ['-', BLANK, 'z'];
    assert token[1] == 'x' && token[2] == 'z' && text[1] != 'z' && text[2] == 'z' != BLANK;
    assert Blanked(token, {'x'}) == text;
  }

  /**
   `-xz` where x belongs to the group {x, y} and z to none: x is set, but since z takes the token
   nobody asks the group, and its requirement stays open.
   */
  lemma LetterWithoutCredit(r: Registry, w: World, x: Arg, y: Arg, z: Arg)
    requires r.list == [y, x, z] && r.groups == [[x, y]] && r.delimiter == ' ' && w.args == ["-xz"] && !w.ignoring
    requires PlainSwitch(x, "x") && PlainSwitch(y, "y") && PlainSwitch(z, "z")
    requires x in w.m && y in w.m && z in w.m && Untouched(w.m[x]) && Untouched(w.m[y]) && Untouched(w.m[z])
    requires !w.m[z].required
    ensures var end := ParseAll(r, w);
      && end.Finished? && end.count == 0
      && SetIn(end.w.m, x) && !SetIn(end.w.m, y)
  {
    var w' := AskedInTurn(r, w, x, y, z);
    hide AskFrom;
    assert !Grouped(r.groups, z);
    assert TurnAt(r, w, 0) == Next(0, 0, [z], w');
    assert ParseFrom(r, w', 1, 0, [] + [z]) == Finished(0, [] + [z], w');
  }

  method AddPair(c: CmdLine, a: Arg, b: Arg)
    requires c.WellBuilt() && a.Untouched() && b.Untouched() && |a.flag| == 1 == |b.flag|
    requires !b.SameAs(a) && forall d | d in c.argList :: !a.SameAs(d) && !b.SameAs(d)
    modifies c`argList, c`orList, c`numRequired, a`required, b`required
    ensures c.WellBuilt() && c.argList == [b, a] + old(c.argList) && c.orList == old(c.orList) + [[a, b]]
    ensures c.numRequired == old(c.numRequired) + 2
  {
    hide CmdLine.WellBuilt, Arg.SameAs;
    var g := [a, b];
    var ok := c.XorAdd(g);
    assert g[..1] == [a] && g[..0] == [];
    TwoPushed(g, old(c.argList));
  }

  lemma TwoPushed(g: seq<Arg>, list: seq<Arg>)
    requires |g| == 2
    ensures Pushed(g, list) == [g[1], g[0]] + list
  {
    assert g[..1] == [g[0]] && g[..1][..0] == [];
    assert Pushed(g[..1], list) == [g[0]] + Pushed([], list);
  }

  method ParseMiddleLetter(c: CmdLine, x: Arg, y: Arg, z: Arg) returns (status: Status)
    requires c.WellBuilt() && c.numRequired == 2 && c.statics.delimiter == ' ' && !c.statics.ignoreRest
    requires c.argList == [y, x, z] && c.orList == [[x, y]] && !z.required
    requires PlainSwitch(x, "x") && PlainSwitch(y, "y") && PlainSwitch(z, "z")
    requires x.Untouched() && y.Untouched() && z.Untouched()
    modifies c.argList`alreadySet, c.argList`xorSet, c.argList`more, c.argList`on, c.argList`value, c.argList`values,
      c.statics
    ensures status == Thrown(MissingRequired) && x.IsSet() && !y.IsSet()
  {
    hide CmdLine.WellBuilt, ParseAll, AllTaken, ExactlyOneSet;
    var args := new string[]["-xz"];
    ghost var w := c.Now(args);
    assert w.m[x] == x.Look() && w.m[y] == y.Look() && w.m[z] == z.Look();
    LetterWithoutCredit(c.Setup(), w, x, y, z);
    status := c.Parse(args);
    assert x in c.argList && y in c.argList;
    assert c.Snapshot()[x] == x.Look() && c.Snapshot()[y] == y.Look();
  }

  /** That command line, registered and parsed. */
  method MiddleLetterOfAGroup() returns (status: Status, x: Arg, y: Arg)
    ensures status == Thrown(MissingRequired) && x.IsSet() && !y.IsSet()
  {
    hide CmdLine.WellBuilt, Arg.SameAs;
    var z := new Arg(Switch, "z", "zet", NoVisitor, _ => true, false, false);
    x := new Arg(Switch, "x", "iks", NoVisitor, _ => true, false, false);
    y := new Arg(Switch, "y", "ypsilon", NoVisitor, _ => true, false, false);
    var c := new CmdLine(' ', false);
    var added := c.AddArg(z);
    Different(x, z);
    Different(y, z);
    Different(y, x);
    AddPair(c, x, y);
    assert c.orList == [[x, y]] && c.argList == [y, x, z];
    status := ParseMiddleLetter(c, x, y, z);
  }

  lemma Different(a: Arg, b: Arg)
    requires |a.flag| == 1 == |b.flag| && a.name != "" && b.name != ""
    requires a.flag[0] != b.flag[0] && a.name[0] != b.name[0]
    ensures !a.SameAs(b)
  {
  }

  /** A MultiArg is handed its flag and takes the next token as its value. */
  lemma FlagWithValue(a: Arg, u: View, args: seq<string>)
    requires a.kind.Multi? && a.flag == "m" && a.visitor.NoVisitor? && a.accepts("v") && args == ["-m", "v"]
    ensures a.Recognises(args[0], ' ') && a.Verdict(u, args, 0, ' ', false).Fine?
    ensures a.Effect(u, args, 0, ' ', false)
         == Change(u.(alreadySet := true, values := u.values + ["v"]), "-m", 1, true, false)
  {
    assert "-m" == [FLAG_START] + a.flag;
    assert IndexOf("-m", ' ', 0) == 2;
  }

  lemma OtherFlag(a: Arg)
    requires PlainSwitch(a, "y") && a.name == "ypsilon"
    ensures !a.Recognises("-m", ' ')
  {
    assert "-m"[1] != ([FLAG_START] + a.flag)[1];
    assert |NAME_START + a.name| > 2;
  }

  /** `-m v` where m is a MultiArg of the group {m, y}: what that is worth depends on the parses before. */
  lemma GroupAgain(r: Registry, w: World, m: Arg, y: Arg)
    requires r.list == [y, m] && r.groups == [[m, y]] && r.delimiter == ' ' && w.args == ["-m", "v"] && !w.ignoring
    requires m.kind.Multi? && m.flag == "m" && m.visitor.NoVisitor? && m.accepts("v")
    requires PlainSwitch(y, "y") && y.name == "ypsilon"
    requires m in w.m && y in w.m && Untouched(w.m[m]) && Untouched(w.m[y])
    ensures var end := ParseAll(r, w);
      end.Finished? && end.count == (if w.m[m].more then 0 else 2) && m in end.w.m && end.w.m[m].more
        && end.w.ignoring == w.ignoring
  {
    FlagWithValue(m, w.m[m], w.args);
    OtherFlag(y);
    assert !HasBlanks("-m");
    assert FirstTo(r, "-m", 1) == 1 && FirstTo(r, "-m", 0) == 1;
    SimpleToken(r, w, 0, 0);
    var w' := Asked(r, w, 0, m);
    hide AskFrom, Arg.Verdict, Arg.Effect;
    assert AskFrom(r, w, 0, 0) == Taken(1, 1, w');
    assert r.groups[0] == [m, y] && GroupOf(r.groups, m) == 0;
    var credit := Told(r.groups, w'.m, m);
    assert TurnAt(r, w, 0) == Next(1, credit.worth, [m], w'.(m := credit.m));
    assert ParseFrom(r, w'.(m := credit.m), 2, credit.worth, [] + [m])
        == Finished(credit.worth, [] + [m], w'.(m := credit.m));
  }

  method ParseGroupOnce(c: CmdLine, m: Arg, y: Arg) returns (status: Status)
    requires c.WellBuilt() && c.numRequired == 2 && c.statics.delimiter == ' ' && !c.statics.ignoreRest
    requires c.argList == [y, m] && c.orList == [[m, y]]
    requires m.kind.Multi? && m.flag == "m" && m.visitor.NoVisitor? && m.accepts("v")
    requires PlainSwitch(y, "y") && y.name == "ypsilon" && m.Untouched() && y.Untouched()
    modifies c.argList`alreadySet, c.argList`xorSet, c.argList`more, c.argList`on, c.argList`value, c.argList`values,
      c.statics
    ensures status == (if old(m.more) then Thrown(MissingRequired) else Fine) && m.more
    ensures c.WellBuilt() && !c.statics.ignoreRest
  {
    hide CmdLine.WellBuilt, ParseAll, AllTaken, ExactlyOneSet;
    var args := new string[]["-m", "v"];
    ghost var w := c.Now(args);
    assert w.m[m] == m.Look() && w.m[y] == y.Look();
    GroupAgain(c.Setup(), w, m, y);
    status := c.Parse(args);
    assert m in c.argList && c.Snapshot()[m] == m.Look();
  }

  /** The same command line parsed twice, with a reset in between: accepted, then turned down. */
  method GroupParsedTwice() returns (first: Status, second: Status)
    ensures first == Fine && second == Thrown(MissingRequired)
  {
    hide CmdLine.WellBuilt, Arg.SameAs;
    var m := new Arg(Multi, "m", "em", NoVisitor, _ => true, false, false);
    var y := new Arg(Switch, "y", "ypsilon", NoVisitor, _ => true, false, false);
    var c := new CmdLine(' ', false);
    Different(y, m);
    AddPair(c, m, y);
    assert c.orList == [[m, y]] && c.argList == [y, m];
    first := ParseGroupOnce(c, m, y);
    assert m in c.argList && y in c.argList;
    c.Reset();
    second := ParseGroupOnce(c, m, y);
  }

  /** The switch that has the rest of the command line ignored. */
  ghost predicate IgnoreRest(a: Arg) {
    a.kind.Switch? && a.flag == "-" && a.visitor.BeginIgnoring?
  }

  /** `--` sets that switch; nothing else is asked, and from then on nothing is processed. */
  lemma DashesAreTaken(r: Registry, w: World, x: Arg, dashes: Arg)
    requires r.list == [x, dashes] && r.groups == [] && r.delimiter == ' ' && w.args == ["--"] && !w.ignoring
    requires PlainSwitch(x, "x") && x.name != "" && IgnoreRest(dashes)
    requires x in w.m && dashes in w.m && Untouched(w.m[x]) && Untouched(w.m[dashes])
    requires !w.m[dashes].required
    ensures var end := ParseAll(r, w); end.Finished? && end.count == 0 && end.w.ignoring
  {
    assert "--" == [FLAG_START] + dashes.flag;
    assert "--"[1] != ([FLAG_START] + x.flag)[1] && |NAME_START + x.name| > 2;
    assert !HasBlanks("--");
    assert FirstTo(r, "--", 1) == 1 && FirstTo(r, "--", 0) == 1;
    SimpleToken(r, w, 0, 0);
    var w' := Asked(r, w, 0, dashes);
    hide AskFrom, Arg.Verdict, Arg.Effect;
    assert AskFrom(r, w, 0, 0) == Taken(1, 0, w');
    assert TurnAt(r, w, 0) == Next(0, 0, [dashes], w');
    assert ParseFrom(r, w', 1, 0, [] + [dashes]) == Finished(0, [] + [dashes], w');
  }

  method ParseDashes(c: CmdLine, x: Arg, dashes: Arg) returns (status: Status)
    requires c.WellBuilt() && c.numRequired == 0 && c.statics.delimiter == ' ' && !c.statics.ignoreRest
    requires c.argList == [x, dashes] && c.orList == [] && !dashes.required
    requires PlainSwitch(x, "x") && x.name != "" && IgnoreRest(dashes) && x.Untouched() && dashes.Untouched()
    modifies c.argList`alreadySet, c.argList`xorSet, c.argList`more
    modifies c.argList`on, c.argList`value, c.argList`values, c.statics
    ensures status == Fine && c.WellBuilt() && c.statics.ignoreRest
  {
    hide CmdLine.WellBuilt, ParseAll, AllTaken, ExactlyOneSet;
    var args := new string[]["--"];
    ghost var w := c.Now(args);
    assert w.m[x] == x.Look() && w.m[dashes] == dashes.Look();
    DashesAreTaken(c.Setup(), w, x, dashes);
    status := c.Parse(args);
  }

  method ParseIgnored(c: CmdLine, x: Arg, token: string) returns (status: Status)
    requires c.WellBuilt() && c.numRequired == 0 && c.statics.delimiter == ' ' && c.statics.ignoreRest
    requires x in c.argList && forall a | a in c.argList :: a.Untouched()
    modifies c.argList`alreadySet, c.argList`xorSet, c.argList`more
    modifies c.argList`on, c.argList`value, c.argList`values, c.statics
    ensures status == Fine && !x.IsSet()
  {
    hide CmdLine.WellBuilt, ParseAll, AllTaken, ExactlyOneSet;
    var args := new string[][token];
    ghost var w := c.Now(args);
    assert w.m[x] == x.Look();
    IgnoringStaysIdle(c.Setup(), w);
    status := c.Parse(args);
    assert c.Snapshot()[x] == x.Look();
  }

  /** `--` parsed, the command line reset, `-x` parsed: accepted, and x is not set. */
  method NothingAfterDashes() returns (first: Status, second: Status, x: Arg)
    ensures first == second == Fine && !x.IsSet()
  {
    hide CmdLine.WellBuilt, Arg.SameAs;
    var dashes := new Arg(Switch, "-", "ignore_rest", BeginIgnoring, _ => true, false, false);
    x := new Arg(Switch, "x", "xray", NoVisitor, _ => true, false, false);
    var c := new CmdLine(' ', false);
    Different(x, dashes);
    var added := c.AddArg(dashes);
    added := c.AddArg(x);
    assert c.argList == [x, dashes];
    first := ParseDashes(c, x, dashes);
    assert x in c.argList;
    c.Reset();
    second := ParseIgnored(c, x, "-x");
  }

  lemma IgnoringStaysIdle(r: Registry, w: World)
    requires Known(r, w) && w.ignoring
    ensures ParseAll(r, w) == Finished(0, [], w)
  {
    IgnoringTakesNothing(r, w, 0, 0, []);
  }
}
