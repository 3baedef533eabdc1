/**
 How one token with several switch letters is used up: every argument blanks its own letter, and
 the token counts as matched when no letter is left (3rd/tclap/SwitchArg.h).
 */
module CombinedSwitches {
  import opened Tokens
  import opened Args
  import opened Accounting
  import opened Parsing

  /** A token such as -abc, untouched so far: longer than one flag and not a long name. */
  predicate SeveralLetters(token: string, delimiter: char) {
    Combined(token, delimiter) && |token| >= 3 && !HasBlanks(token)
  }

  /** Any other token that carries no blanks: at most one flag or name. */
  predicate Simple(token: string, delimiter: char) {
    !HasBlanks(token) && !SeveralLetters(token, delimiter)
  }

  /** In such a token a switch finds its letter only if the token is its flag. */
  lemma SimpleLetter(a: Arg, token: string, delimiter: char)
    requires Simple(token, delimiter) && |a.flag| <= 1
    requires Combined(token, delimiter) && a.flag != "" && a.flag[0] in Letters(token)
    ensures Matches(a.flag, a.name, token)
  {
    assert token == [FLAG_START] + a.flag;
  }

  ghost function FlagLetters(toggled: set<Arg>): set<char> {
    set t | t in toggled && t.flag != "" :: t.flag[0]
  }

  ghost predicate IsToggled(t: Arg, token: string, before: State, now: State) {
    && t in before && t in now && t.kind.Switch? && |t.flag| == 1
    && Once(token, t.flag[0]) && !before[t].alreadySet
    && now[t] == before[t].(alreadySet := true, on := !before[t].on)
  }

  /** The arguments asked so far toggled exactly the switches in `toggled` and blanked their letters. */
  ghost predicate Progress(token0: string, token: string, before: State, now: State, toggled: set<Arg>) {
    && token == Blanked(token0, FlagLetters(toggled))
    && before.Keys == now.Keys
    && (forall t | t in toggled :: IsToggled(t, token0, before, now))
    && (forall a | a in before && a !in toggled :: now[a] == before[a])
  }

  /** The letter stands once in the token and one of the toggled switches has it as its flag. */
  ghost predicate LetterUsed(token: string, c: char, toggled: set<Arg>) {
    Once(token, c) && exists t :: t in toggled && t.flag == [c]
  }

  /** What an exclusive group does to one of its members. */
  ghost predicate Marked(u: View, v: View) {
    v == u.(alreadySet := v.alreadySet, xorSet := v.xorSet, more := v.more) && (u.alreadySet ==> v.alreadySet)
  }

  lemma NothingYet(token: string, before: State)
    ensures Progress(token, token, before, before, {})
  {
  }

  /** One more switch finds its letter. */
  lemma OneMore(token0: string, token: string, before: State, now: State, toggled: set<Arg>, a: Arg,
                token': string, now': State)
    requires Progress(token0, token, before, now, toggled)
    requires a in now && a.kind.Switch? && |a.flag| == 1 && a.flag[0] != BLANK && !now[a].alreadySet
    requires Once(token, a.flag[0]) && token' == Blanked(token, {a.flag[0]})
    requires now' == now[a := now[a].(alreadySet := true, on := !now[a].on)]
    ensures Progress(token0, token', before, now', toggled + {a})
  {
    var c, gone := a.flag[0], FlagLetters(toggled);
    assert a !in toggled;
    BlankedTwice(token0, gone, c);
    assert FlagLetters(toggled + {a}) == gone + {c};
    OnceBefore(token0, gone, c);
    forall t | t in toggled + {a}
      ensures IsToggled(t, token0, before, now')
    {
      assert t in toggled ==> IsToggled(t, token0, before, now);
    }
  }

  lemma OnceBefore(token: string, gone: set<char>, c: char)
    requires c != BLANK && Once(Blanked(token, gone), c)
    ensures Once(token, c)
  {
    var t := Blanked(token, gone);
    var i :| 1 <= i < |t| && t[i] == c && forall j | 1 <= j < |t| && t[j] == c :: j == i;
    assert token[i] == c && c !in gone;
    forall j | 1 <= j < |token| && token[j] == c
      ensures j == i
    {
      assert t[j] == c;
    }
  }

  /** A used-up token: each letter stood there once and is the flag of a switch that was toggled. */
  lemma UsedUp(token0: string, token: string, before: State, now: State, toggled: set<Arg>)
    requires Progress(token0, token, before, now, toggled)
    requires !HasBlanks(token0) && AllBlank(token)
    ensures forall p | 1 <= p < |token0| :: LetterUsed(token0, token0[p], toggled)
  {
    forall p | 1 <= p < |token0|
      ensures LetterUsed(token0, token0[p], toggled)
    {
      assert token[p] == BLANK != token0[p];
      var t :| t in toggled && t.flag != "" && t.flag[0] == token0[p];
      assert IsToggled(t, token0, before, now);
      assert t.flag == [token0[p]];
    }
  }

  lemma ProgressText(token0: string, token: string, before: State, now: State, toggled: set<Arg>)
    requires Progress(token0, token, before, now, toggled)
    ensures token == Blanked(token0, FlagLetters(toggled))
  {
  }

  /** No argument takes such a token as its own flag or name, and blanking does not change that. */
  lemma NobodyTakesIt(a: Arg, token0: string, token: string, delimiter: char, gone: set<char>)
    requires |a.flag| <= 1 && delimiter != BLANK
    requires SeveralLetters(token0, delimiter) && token == Blanked(token0, gone)
    ensures !Matches(a.flag, a.name, token) && !a.TakesToken(token, delimiter)
    ensures Combined(token, delimiter)
  {
    assert delimiter !in token by {
      forall k | 0 <= k < |token|
        ensures token[k] != delimiter
      {
        assert token[k] == token0[k] || token[k] == BLANK;
      }
    }
    NameStart(token0);
    NameStart(token);
    assert |[FLAG_START] + a.flag| <= 2;
    assert NAME_START <= NAME_START + a.name;
    assert FlagPart(token, delimiter) == token;
  }

  /** The first argument from number `j` on that recognises the token, or the length of the list. */
  ghost function FirstTo(r: Registry, token: string, j: nat): (k: nat)
    requires j <= |r.list|
    ensures j <= k <= |r.list|
    ensures forall l | j <= l < k :: !r.list[l].Recognises(token, r.delimiter)
    ensures k < |r.list| ==> r.list[k].Recognises(token, r.delimiter)
    decreases |r.list| - j
  {
    if j == |r.list| || r.list[j].Recognises(token, r.delimiter) then j else FirstTo(r, token, j + 1)
  }

  /** An argument that does not recognise such a token is not touched and does not object. */
  lemma NotConcerned(r: Registry, w: World, i: nat, a: Arg)
    requires i < |w.args| && a in w.m && |a.flag| <= 1
    requires Simple(w.args[i], r.delimiter) && !a.Recognises(w.args[i], r.delimiter)
    ensures a.Verdict(w.m[a], w.args, i, r.delimiter, w.ignoring).Fine?
    ensures !a.Effect(w.m[a], w.args, i, r.delimiter, w.ignoring).matched && Asked(r, w, i, a) == w
  {
    hide Simple, Letters, Combined;
    if a.kind.Switch? && a.FindsLetter(w.args[i], r.delimiter) {
      SimpleLetter(a, w.args[i], r.delimiter);
      assert false;
    }
  }

  /** A token with one flag or name goes to the first argument that recognises it, and to nobody else. */
  lemma {:induction false} SimpleToken(r: Registry, w: World, i: nat, j: nat)
    requires j <= |r.list| && i < |w.args| && Known(r, w) && !w.ignoring
    requires Simple(w.args[i], r.delimiter) && forall a | a in r.list :: |a.flag| <= 1
    ensures var k := FirstTo(r, w.args[i], j);
      AskFrom(r, w, i, j) ==
        if k == |r.list| then Nobody(w)
        else
          var a := r.list[k];
          var verdict := a.Verdict(w.m[a], w.args, i, r.delimiter, false);
          if verdict.Thrown? then Objected(k, verdict.error, w)
          else Taken(k, a.Effect(w.m[a], w.args, i, r.delimiter, false).to, Asked(r, w, i, a))
    decreases |r.list| - j
  {
    hide Simple, Asked, Arg.Verdict, Arg.FindsLetter;
    if j < |r.list| {
      var a := r.list[j];
      if a.Recognises(w.args[i], r.delimiter) {
        RecogniserTakes(a, w.m[a], w.args, i, r.delimiter);
      } else {
        NotConcerned(r, w, i, a);
        SimpleToken(r, w, i, j + 1);
      }
    }
  }

  /** Somebody else in the group of `a` is set. */
  ghost predicate GroupRefuses(r: Registry, m: State, a: Arg) {
    exists k, b :: 0 <= k < |r.groups| && k == GroupOf(r.groups, a) && b in r.groups[k] && b != a && SetIn(m, b)
  }

  /**
   A token with one flag or name stops the parse exactly when nobody recognises it, or the first
   argument that does objects, or the group of that argument has another member set.
   */
  lemma SimpleTurn(r: Registry, w: World, i: nat)
    requires i < |w.args| && Known(r, w) && !w.ignoring
    requires Simple(w.args[i], r.delimiter) && forall a | a in r.list :: |a.flag| <= 1
    ensures var k, turn := FirstTo(r, w.args[i], 0), TurnAt(r, w, i);
      if k == |r.list| then
        if w.args[i] == "" || w.args[i] == "-" || r.lenient then turn == Next(i, 0, [], w) else turn == Stop(NoMatch)
      else
        var a := r.list[k];
        var verdict := a.Verdict(w.m[a], w.args, i, r.delimiter, false);
        if verdict.Thrown? then turn == Stop(verdict.error)
        else if GroupRefuses(r, w.m, a) then turn == Stop(MutuallyExclusive)
        else turn.Next? && turn.takers == [a] && turn.to == a.Effect(w.m[a], w.args, i, r.delimiter, false).to
  {
    hide Simple, AskFrom, Arg.Verdict, Arg.Effect, Arg.Recognises, EmptyCombined;
    EmptyTokens(w.args[i], r.delimiter);
    SimpleToken(r, w, i, 0);
    var k := FirstTo(r, w.args[i], 0);
    if k < |r.list| {
      var a := r.list[k];
      if a.Verdict(w.m[a], w.args, i, r.delimiter, false).Fine? {
        RefusedBefore(r, w.m, Asked(r, w, i, a).m, a);
      }
    }
  }

  /** The parse swallows the empty token and the bare flag start. */
  lemma EmptyTokens(token: string, delimiter: char)
    requires Simple(token, delimiter)
    ensures EmptyCombined(token) <==> token == "" || token == "-"
  {
    if |token| >= 2 {
      assert token[1] != BLANK;
    } else if |token| == 1 {
      assert token == [token[0]];
    }
  }

  lemma RefusedBefore(r: Registry, m: State, m': State, a: Arg)
    requires a in m' && m'.Keys == m.Keys && forall b | b in m && b != a :: m'[b] == m[b]
    ensures Told(r.groups, m', a).Refused? <==> GroupRefuses(r, m, a)
  {
    var k := GroupOf(r.groups, a);
    if k < |r.groups| {
      assert forall b | b != a :: SetIn(m', b) <==> SetIn(m, b);
    }
  }

  lemma RecogniserTakes(a: Arg, u: View, args: seq<string>, i: nat, delimiter: char)
    requires i < |args| && a.Recognises(args[i], delimiter)
    ensures a.Verdict(u, args, i, delimiter, false).Fine? ==> a.Effect(u, args, i, delimiter, false).matched
  {
  }

  /** The switches among the first `j` arguments whose letter stands in the token. */
  ghost function LetterSwitches(r: Registry, token: string, j: nat): set<Arg>
    requires j <= |r.list|
  {
    set a | a in r.list[..j] && a.kind.Switch? && a.FindsLetter(token, r.delimiter)
  }

  /** Flags are single letters other than the blank, and no two arguments share one. */
  ghost predicate FlagsApart(list: seq<Arg>) {
    && (forall a | a in list :: |a.flag| <= 1 && a.flag != [BLANK])
    && (forall k, l | 0 <= k < l < |list| && list[k].flag != "" :: list[k].flag != list[l].flag)
  }

  /** A switch does to a token of several letters what it does to the untouched token. */
  lemma LetterStays(r: Registry, token: string, text: string, before: State, now: State, j: nat)
    requires j < |r.list| && FlagsApart(r.list) && r.delimiter != BLANK && SeveralLetters(token, r.delimiter)
    requires Progress(token, text, before, now, LetterSwitches(r, token, j))
    ensures var a := r.list[j];
      && (a.FindsLetter(text, r.delimiter) <==> a.FindsLetter(token, r.delimiter))
      && a !in LetterSwitches(r, token, j)
  {
    var a, gone := r.list[j], FlagLetters(LetterSwitches(r, token, j));
    NobodyTakesIt(a, token, text, r.delimiter, gone);
    NobodyTakesIt(a, token, token, r.delimiter, {});
    forall t | t in LetterSwitches(r, token, j)
      ensures t.flag != a.flag
    {
      var k :| 0 <= k < j && r.list[k] == t;
    }
    if a.flag != "" {
      assert a.flag == [a.flag[0]];
      forall t | t in LetterSwitches(r, token, j) && t.flag != ""
        ensures t.flag[0] != a.flag[0]
      {
        assert t.flag == [t.flag[0]];
      }
      assert a.flag[0] !in gone;
      LetterBehindBlanks(token, gone, a.flag[0]);
    }
  }

  lemma LetterBehindBlanks(token: string, gone: set<char>, c: char)
    requires c !in gone && c != BLANK
    ensures c in Letters(Blanked(token, gone)) <==> c in Letters(token)
  {
    var text := Blanked(token, gone);
    if c in Letters(token) {
      var p :| 1 <= p < |token| && token[p] == c;
      assert text[p] == c;
    }
    if c in Letters(text) {
      var p :| 1 <= p < |text| && text[p] == c;
      assert token[p] == c;
    }
  }

  /** Asking one more argument blanks its letter if it has one in the token, and does nothing else. */
  lemma LetterStep(r: Registry, token: string, before: State, w: World, i: nat, j: nat)
    requires j < |r.list| && i < |w.args| && FlagsApart(r.list) && r.delimiter != BLANK && !w.ignoring
    requires SeveralLetters(token, r.delimiter) && r.list[j] in w.m
    requires Progress(token, w.args[i], before, w.m, LetterSwitches(r, token, j))
    requires r.list[j].Verdict(w.m[r.list[j]], w.args, i, r.delimiter, false).Fine?
    ensures var a := r.list[j];
      var c := a.Effect(w.m[a], w.args, i, r.delimiter, false);
      && c.to == i
      && Progress(token, c.text, before, w.m[a := c.view], LetterSwitches(r, token, j + 1))
      && (c.matched <==> a in LetterSwitches(r, token, j + 1) && AllBlank(c.text))
      && (a !in LetterSwitches(r, token, j + 1) ==> c.text == w.args[i])
      && (c.ignoring <==> a in LetterSwitches(r, token, j + 1) && a.visitor.BeginIgnoring?)
  {
    hide Progress, SeveralLetters, Combined, Letters, Matches, AllBlank, Blanked, Once, FlagLetters, Arg.FindsLetter;
    var a, text := r.list[j], w.args[i];
    var found := LetterSwitches(r, token, j);
    ProgressText(token, text, before, w.m, found);
    NobodyTakesIt(a, token, text, r.delimiter, FlagLetters(found));
    LetterStays(r, token, text, before, w.m, j);
    assert r.list[..j + 1] == r.list[..j] + [a];
    var c := a.Effect(w.m[a], w.args, i, r.delimiter, false);
    if a.kind.Switch? && a.FindsLetter(token, r.delimiter) {
      assert LetterSwitches(r, token, j + 1) == found + {a};
      OneMore(token, text, before, w.m, found, a, c.text, w.m[a := c.view]);
    } else {
      assert LetterSwitches(r, token, j + 1) == found;
      assert c.view == w.m[a] && w.m[a := w.m[a]] == w.m;
    }
  }

  lemma OnceBehindBlanks(token: string, gone: set<char>, c: char)
    requires c !in gone && c != BLANK && Once(token, c)
    ensures Once(Blanked(token, gone), c)
  {
    var p :| 1 <= p < |token| && token[p] == c && forall j | 1 <= j < |token| && token[j] == c :: j == p;
    assert Blanked(token, gone)[p] == c;
  }

  /** The argument objects exactly if the token has its letter twice or the switch may not be set. */
  lemma LetterVerdict(r: Registry, token: string, before: State, w: World, i: nat, j: nat)
    requires j < |r.list| && i < |w.args| && FlagsApart(r.list) && r.delimiter != BLANK && !w.ignoring
    requires SeveralLetters(token, r.delimiter) && r.list[j] in w.m
    requires Progress(token, w.args[i], before, w.m, LetterSwitches(r, token, j))
    ensures var a := r.list[j];
      && a in before
      && (a.Verdict(w.m[a], w.args, i, r.delimiter, false).Fine? <==>
            a !in LetterSwitches(r, token, j + 1) || (Once(token, a.flag[0]) && a.SwitchVerdict(before[a]).Fine?))
  {
    hide SeveralLetters, Progress, Arg.Verdict, Arg.FindsLetter, Arg.SwitchVerdict, Once, LetterSwitches;
    var a, text := r.list[j], w.args[i];
    var gone := FlagLetters(LetterSwitches(r, token, j));
    ProgressText(token, text, before, w.m, LetterSwitches(r, token, j));
    NobodyTakesIt(a, token, text, r.delimiter, gone);
    LetterStays(r, token, text, before, w.m, j);
    NotToggledYet(token, text, before, w.m, LetterSwitches(r, token, j), a);
    LetterAdded(r, token, j);
    SwitchVerdictOn(a, w.m[a], w.args, i, r.delimiter);
    if a in LetterSwitches(r, token, j + 1) {
      FlagNotGone(r, token, j);
      OnceEither(token, gone, a.flag[0]);
    }
  }

  lemma NotToggledYet(token: string, text: string, before: State, now: State, toggled: set<Arg>, a: Arg)
    requires Progress(token, text, before, now, toggled) && a in now && a !in toggled
    ensures a in before && now[a] == before[a]
  {
  }

  lemma LetterAdded(r: Registry, token: string, j: nat)
    requires j < |r.list| && r.list[j] !in LetterSwitches(r, token, j)
    ensures var a := r.list[j];
      (a in LetterSwitches(r, token, j + 1) <==> a.kind.Switch? && a.FindsLetter(token, r.delimiter))
      && LetterSwitches(r, token, j + 1)
         == LetterSwitches(r, token, j) + (if a in LetterSwitches(r, token, j + 1) then {a} else {})
  {
    assert r.list[..j + 1] == r.list[..j] + [r.list[j]];
  }

  /** What an argument that does not take the token whole thinks of it. */
  lemma SwitchVerdictOn(a: Arg, u: View, args: seq<string>, i: nat, delimiter: char)
    requires i < |args| && !Matches(a.flag, a.name, args[i]) && !a.TakesToken(args[i], delimiter)
    ensures a.kind.Switch? && a.FindsLetter(args[i], delimiter) ==>
      a.flag != "" && (a.Verdict(u, args, i, delimiter, false).Fine? <==>
                         a.flag[0] != BLANK && Once(args[i], a.flag[0]) && a.SwitchVerdict(u).Fine?)
    ensures !(a.kind.Switch? && a.FindsLetter(args[i], delimiter)) ==> a.Verdict(u, args, i, delimiter, false).Fine?
  {
  }

  lemma OnceEither(token: string, gone: set<char>, c: char)
    requires c !in gone && c != BLANK
    ensures Once(Blanked(token, gone), c) <==> Once(token, c)
  {
    if Once(token, c) {
      OnceBehindBlanks(token, gone, c);
    }
    if Once(Blanked(token, gone), c) {
      OnceBefore(token, gone, c);
    }
  }

  lemma FlagNotGone(r: Registry, token: string, j: nat)
    requires j < |r.list| && FlagsApart(r.list) && r.list[j].flag != ""
    ensures |r.list[j].flag| == 1 && r.list[j].flag[0] != BLANK
    ensures r.list[j].flag[0] !in FlagLetters(LetterSwitches(r, token, j))
  {
    var a := r.list[j];
    assert a.flag == [a.flag[0]];
    forall t | t in LetterSwitches(r, token, j) && t.flag != ""
      ensures t.flag[0] != a.flag[0]
    {
      var k :| 0 <= k < j && r.list[k] == t;
      assert t.flag == [t.flag[0]];
    }
  }

  /** Nothing stands in the way of the switches of the letters among the first `j` arguments. */
  ghost predicate Settable(r: Registry, token: string, m: State, j: nat)
    requires j <= |r.list|
  {
    forall t | t in LetterSwitches(r, token, j) :: t in m && t.SwitchVerdict(m[t]).Fine?
  }

  /** Of the switches of the letters only the last one in the list may have the rest ignored. */
  ghost predicate QuietBut(r: Registry, token: string, j: nat)
    requires j <= |r.list|
  {
    forall k, l | 0 <= k < l < j
      && r.list[k] in LetterSwitches(r, token, j) && r.list[l] in LetterSwitches(r, token, j) ::
      !r.list[k].visitor.BeginIgnoring?
  }

  lemma NothingAsked(r: Registry, token: string, before: State)
    ensures Progress(token, token, before, before, LetterSwitches(r, token, 0))
  {
    assert LetterSwitches(r, token, 0) == {};
    NothingYet(token, before);
  }

  /** All arguments up to the one that took the token, or that stopped the processing, had their turn. */
  lemma {:induction false} CombinedAsked(r: Registry, token: string, before: State, w: World, i: nat, j: nat)
    returns (asked: nat)
    requires j <= |r.list| && i < |w.args| && Known(r, w) && FlagsApart(r.list) && r.delimiter != BLANK
    requires SeveralLetters(token, r.delimiter) && !w.ignoring
    requires Progress(token, w.args[i], before, w.m, LetterSwitches(r, token, j))
    ensures asked <= |r.list|
    ensures var answer := AskFrom(r, w, i, j);
      && (!answer.Objected? ==>
            && Progress(token, answer.w.args[i], before, answer.w.m, LetterSwitches(r, token, asked))
            && answer.w.args == w.args[i := answer.w.args[i]])
      && (answer.Taken? ==>
            && asked == answer.j + 1 && answer.to == i && AllBlank(answer.w.args[i])
            && r.list[answer.j] in LetterSwitches(r, token, asked))
      && (answer.Nobody? && !answer.w.ignoring ==> asked == |r.list|)
      && (answer.Nobody? && AllBlank(answer.w.args[i]) ==> AllBlank(w.args[i]))
    decreases |r.list| - j
  {
    hide Progress, SeveralLetters, AllBlank, LetterSwitches, FlagsApart, Arg.Verdict, Arg.Effect;
    asked := j;
    assert w.args[i := w.args[i]] == w.args;
    if j < |r.list| {
      var a := r.list[j];
      if a.Verdict(w.m[a], w.args, i, r.delimiter, false).Fine? {
        LetterStep(r, token, before, w, i, j);
        var c := a.Effect(w.m[a], w.args, i, r.delimiter, false);
        var w' := Asked(r, w, i, a);
        asked := j + 1;
        if !c.matched {
          if w'.ignoring {
            IgnoringAsksNobody(r, w', i, j + 1);
          } else {
            asked := CombinedAsked(r, token, before, w', i, j + 1);
          }
        }
      }
    }
  }

  lemma {:induction false} IgnoringAsksNobody(r: Registry, w: World, i: nat, j: nat)
    requires j <= |r.list| && i < |w.args| && Known(r, w) && w.ignoring
    ensures AskFrom(r, w, i, j) == Nobody(w)
    decreases |r.list| - j
  {
    if j < |r.list| {
      var a := r.list[j];
      assert w.m[a := w.m[a]] == w.m && w.args[i := w.args[i]] == w.args;
      IgnoringAsksNobody(r, w, i, j + 1);
    }
  }

  /** Once every letter is blanked there is no switch left whose letter is in the token. */
  lemma AllLettersAsked(r: Registry, token: string, text: string, before: State, now: State, asked: nat)
    requires asked <= |r.list| && FlagsApart(r.list) && SeveralLetters(token, r.delimiter) && AllBlank(text)
    requires Progress(token, text, before, now, LetterSwitches(r, token, asked))
    ensures LetterSwitches(r, token, asked) == LetterSwitches(r, token, |r.list|)
    ensures forall k | asked <= k < |r.list| :: r.list[k] !in LetterSwitches(r, token, |r.list|)
    ensures forall p | 1 <= p < |token| :: LetterUsed(token, token[p], LetterSwitches(r, token, |r.list|))
  {
    hide Progress, Combined;
    var found := LetterSwitches(r, token, asked);
    UsedUp(token, text, before, now, found);
    assert r.list[..|r.list|] == r.list;
    forall k | asked <= k < |r.list|
      ensures !(r.list[k].kind.Switch? && r.list[k].FindsLetter(token, r.delimiter))
    {
    }
    forall a | a in LetterSwitches(r, token, |r.list|)
      ensures a in found
    {
      var k :| 0 <= k < |r.list| && r.list[k] == a;
      assert k < asked;
      assert r.list[..asked][k] == a;
    }
    assert forall a | a in found :: a in r.list;
  }

  ghost predicate SameGroup(r: Registry, a: Arg, b: Arg) {
    GroupOf(r.groups, a) < |r.groups| && b in r.groups[GroupOf(r.groups, a)]
  }

  /** The switches of the letters are toggled, members of the taker's group may be marked, and that is all. */
  ghost predicate OnlyToggled(r: Registry, before: State, after: State, toggled: set<Arg>, taker: Arg) {
    && before.Keys == after.Keys
    && (forall t | t in toggled ::
          t in before && !before[t].alreadySet && after[t].alreadySet && after[t].on == !before[t].on)
    && (forall a | a in before && a !in toggled ::
          after[a] == before[a] || (SameGroup(r, taker, a) && Marked(before[a], after[a])))
  }

  lemma GroupMarks(r: Registry, before: State, now: State, toggled: set<Arg>, token: string, text: string, a: Arg)
    requires Progress(token, text, before, now, toggled) && a in toggled
    requires Told(r.groups, now, a).Granted?
    ensures OnlyToggled(r, before, Told(r.groups, now, a).m, toggled, a)
  {
    var after := Told(r.groups, now, a).m;
    forall t | t in toggled
      ensures t in before && !before[t].alreadySet && after[t].alreadySet && after[t].on == !before[t].on
    {
      assert IsToggled(t, token, before, now);
    }
  }

  /** A letter that is not blanked yet belongs to a switch whose turn is still to come. */
  lemma LaterLetter(r: Registry, token: string, text: string, before: State, now: State, j: nat)
    returns (l: nat)
    requires j <= |r.list| && SeveralLetters(token, r.delimiter) && !AllBlank(text)
    requires Progress(token, text, before, now, LetterSwitches(r, token, j))
    requires forall p | 1 <= p < |token| :: LetterUsed(token, token[p], LetterSwitches(r, token, |r.list|))
    ensures j <= l < |r.list| && r.list[l] in LetterSwitches(r, token, |r.list|)
  {
    var p :| 1 <= p < |text| && text[p] != BLANK;
    assert LetterUsed(token, token[p], LetterSwitches(r, token, |r.list|));
    var t :| t in LetterSwitches(r, token, |r.list|) && t.flag == [token[p]];
    l :| 0 <= l < |r.list| && r.list[l] == t;
  }

  lemma SettableOn(r: Registry, token: string, m: State, j: nat)
    requires j < |r.list| && Settable(r, token, m, j)
    requires var a := r.list[j]; a in LetterSwitches(r, token, j + 1) ==> a in m && a.SwitchVerdict(m[a]).Fine?
    ensures Settable(r, token, m, j + 1)
  {
    hide Arg.SwitchVerdict;
    EarlierLetter(r, token, j);
  }

  lemma QuietOn(r: Registry, token: string, j: nat)
    requires j < |r.list| && forall t | t in LetterSwitches(r, token, j) :: !t.visitor.BeginIgnoring?
    ensures QuietBut(r, token, j + 1)
    ensures forall t | t in LetterSwitches(r, token, j + 1) :: t == r.list[j] || !t.visitor.BeginIgnoring?
  {
    EarlierLetter(r, token, j);
  }

  lemma EarlierLetter(r: Registry, token: string, j: nat)
    requires j < |r.list|
    ensures forall k | 0 <= k < j && r.list[k] in LetterSwitches(r, token, j + 1) ::
      r.list[k] in LetterSwitches(r, token, j)
    ensures forall t | t in LetterSwitches(r, token, j + 1) ::
      t == r.list[j] || t in LetterSwitches(r, token, j)
  {
    assert r.list[..j + 1] == r.list[..j] + [r.list[j]];
    assert forall k | 0 <= k < j :: r.list[k] == r.list[..j][k];
  }

  /** Whoever was asked before the token was taken could be set and had not stopped the processing. */
  lemma {:induction false} TakenFairly(r: Registry, token: string, before: State, w: World, i: nat, j: nat)
    requires j <= |r.list| && i < |w.args| && Known(r, w) && FlagsApart(r.list) && r.delimiter != BLANK
    requires SeveralLetters(token, r.delimiter) && !w.ignoring
    requires Progress(token, w.args[i], before, w.m, LetterSwitches(r, token, j))
    requires Settable(r, token, before, j)
    requires forall t | t in LetterSwitches(r, token, j) :: !t.visitor.BeginIgnoring?
    ensures var answer := AskFrom(r, w, i, j);
      answer.Taken? ==> Settable(r, token, before, answer.j + 1) && QuietBut(r, token, answer.j + 1)
    decreases |r.list| - j
  {
    hide Progress, SeveralLetters, AllBlank, FlagsApart, Arg.Verdict, Arg.Effect, Arg.SwitchVerdict, Once,
      Arg.FindsLetter, LetterSwitches, Settable, QuietBut;
    if j < |r.list| {
      var a := r.list[j];
      QuietOn(r, token, j);
      LetterVerdict(r, token, before, w, i, j);
      if a.Verdict(w.m[a], w.args, i, r.delimiter, false).Fine? {
        LetterStep(r, token, before, w, i, j);
        var c := a.Effect(w.m[a], w.args, i, r.delimiter, false);
        SettableOn(r, token, before, j);
        if !c.matched {
          var w' := Asked(r, w, i, a);
          if w'.ignoring {
            IgnoringAsksNobody(r, w', i, j + 1);
          } else {
            TakenFairly(r, token, before, w', i, j + 1);
          }
        }
      }
    }
  }

  /** When every letter can be used, the arguments are asked until the last letter is blanked. */
  lemma {:induction false} CombinedTaken(r: Registry, token: string, before: State, w: World, i: nat, j: nat)
    requires j <= |r.list| && i < |w.args| && Known(r, w) && FlagsApart(r.list) && r.delimiter != BLANK
    requires SeveralLetters(token, r.delimiter) && !w.ignoring && !AllBlank(w.args[i])
    requires Progress(token, w.args[i], before, w.m, LetterSwitches(r, token, j))
    requires forall p | 1 <= p < |token| :: LetterUsed(token, token[p], LetterSwitches(r, token, |r.list|))
    requires Settable(r, token, before, |r.list|) && QuietBut(r, token, |r.list|)
    ensures AskFrom(r, w, i, j).Taken?
    decreases |r.list| - j
  {
    hide Progress, SeveralLetters, AllBlank, FlagsApart, LetterUsed, Arg.Verdict, Arg.Effect, Arg.SwitchVerdict, Once;
    var l := LaterLetter(r, token, w.args[i], before, w.m, j);
    var a := r.list[j];
    LettersGrow(r, token, j);
    if a in LetterSwitches(r, token, |r.list|) {
      LetterOnce(r, token, a);
    }
    LetterVerdict(r, token, before, w, i, j);
    LetterStep(r, token, before, w, i, j);
    var c := a.Effect(w.m[a], w.args, i, r.delimiter, false);
    if !c.matched {
      var w' := Asked(r, w, i, a);
      l := LaterLetter(r, token, c.text, before, w'.m, j + 1);
      assert !w'.ignoring;
      CombinedTaken(r, token, before, w', i, j + 1);
    }
  }

  lemma LetterOnce(r: Registry, token: string, a: Arg)
    requires a in LetterSwitches(r, token, |r.list|)
    requires forall p | 1 <= p < |token| :: LetterUsed(token, token[p], LetterSwitches(r, token, |r.list|))
    ensures a.flag != "" && Once(token, a.flag[0])
  {
    var p :| 1 <= p < |token| && token[p] == a.flag[0];
    assert LetterUsed(token, token[p], LetterSwitches(r, token, |r.list|));
  }

  lemma LettersGrow(r: Registry, token: string, j: nat)
    requires j < |r.list|
    ensures r.list[j] in LetterSwitches(r, token, j + 1) <==> r.list[j] in LetterSwitches(r, token, |r.list|)
  {
    assert r.list[..|r.list|] == r.list;
    assert r.list[..j + 1][j] == r.list[j];
  }

  /** Every letter of the token stands in it once and is the flag of a switch that may be set. */
  ghost predicate Combinable(r: Registry, token: string, m: State) {
    && (forall p | 1 <= p < |token| :: LetterUsed(token, token[p], LetterSwitches(r, token, |r.list|)))
    && Settable(r, token, m, |r.list|) && QuietBut(r, token, |r.list|)
  }

  /**
   A token of several letters, met while tokens are processed. It is taken exactly when every letter
   stands in it once and is the flag of a registered switch that may be set. Then the parse stops
   exactly when the group of the taker has another member set; if it goes on, exactly the switches of
   the letters are toggled, the token is fully blanked, and the taker, which alone answers for its
   group, is the last of those switches in the order of the list.
   */
  lemma CombinedToken(r: Registry, w: World, i: nat)
    requires i < |w.args| && Known(r, w) && !w.ignoring && FlagsApart(r.list) && r.delimiter != BLANK
    requires SeveralLetters(w.args[i], r.delimiter)
    ensures var token, answer, turn := w.args[i], AskFrom(r, w, i, 0), TurnAt(r, w, i);
      var letters := LetterSwitches(r, token, |r.list|);
      && (answer.Taken? <==> Combinable(r, token, w.m))
      && (answer.Nobody? ==>
            turn == if answer.w.ignoring || r.lenient then Next(i, 0, [], answer.w) else Stop(NoMatch))
      && (answer.Objected? ==> turn == Stop(answer.error))
      && (answer.Taken? ==> (turn.Stop? <==> GroupRefuses(r, answer.w.m, r.list[answer.j])))
      && (answer.Taken? && turn.Next? ==>
            && OnlyToggled(r, w.m, turn.w.m, letters, r.list[answer.j])
            && AllBlank(turn.w.args[i]) && turn.w.args == w.args[i := turn.w.args[i]] && turn.to == i
            && turn.takers == [r.list[answer.j]] && r.list[answer.j] in letters
            && forall k | answer.j < k < |r.list| :: r.list[k] !in letters)
  {
    hide Progress, FlagsApart, LetterSwitches, OnlyToggled, Told, AskFrom, Settable, QuietBut, LetterUsed,
      GroupRefuses;
    var token := w.args[i];
    NothingAsked(r, token, w.m);
    var asked := CombinedAsked(r, token, w.m, w, i, 0);
    var answer, turn := AskFrom(r, w, i, 0), TurnAt(r, w, i);
    assert !AllBlank(token) by {
      assert token[1] != BLANK;
    }
    NoLettersYet(r, token, w.m);
    TakenFairly(r, token, w.m, w, i, 0);
    if answer.Taken? {
      AllLettersAsked(r, token, answer.w.args[i], w.m, answer.w.m, asked);
      FairToAll(r, token, w.m, asked);
      RefusedBefore(r, answer.w.m, answer.w.m, r.list[answer.j]);
      if turn.Next? {
        GroupMarks(r, w.m, answer.w.m, LetterSwitches(r, token, asked), token, answer.w.args[i], r.list[answer.j]);
      }
    }
    if Combinable(r, token, w.m) {
      CombinedTaken(r, token, w.m, w, i, 0);
    }
  }

  lemma NoLettersYet(r: Registry, token: string, m: State)
    ensures LetterSwitches(r, token, 0) == {} && Settable(r, token, m, 0)
  {
  }

  lemma FairToAll(r: Registry, token: string, m: State, asked: nat)
    requires asked <= |r.list| && LetterSwitches(r, token, asked) == LetterSwitches(r, token, |r.list|)
    requires Settable(r, token, m, asked) && QuietBut(r, token, asked)
    requires forall k | asked <= k < |r.list| :: r.list[k] !in LetterSwitches(r, token, |r.list|)
    ensures Settable(r, token, m, |r.list|) && QuietBut(r, token, |r.list|)
  {
  }

  /** A parse that starts while the rest is to be ignored takes no token and changes nothing. */
  lemma {:induction false} IgnoringTakesNothing(r: Registry, w: World, i: nat, count: int, takers: seq<Arg>)
    requires i <= |w.args| && Known(r, w) && w.ignoring
    ensures ParseFrom(r, w, i, count, takers) == Finished(count, takers, w)
    decreases |w.args| - i
  {
    if i < |w.args| {
      IgnoringAsksNobody(r, w, i, 0);
      assert takers + [] == takers;
      IgnoringTakesNothing(r, w, i + 1, count, takers);
    }
  }
}
