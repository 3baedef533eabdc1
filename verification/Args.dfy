/**
 The argument objects of TCLAP: the common base of 3rd/tclap/Arg.h and the three kinds a command
 line is built from, SwitchArg, ValueArg and MultiArg. Values are kept as the strings they are
 extracted from; `accepts` stands for extraction and constraint.
 */
module Args {
  import opened Tokens

  datatype Kind = Switch | Value | Multi

  datatype Visitor = NoVisitor | BeginIgnoring | ExitProgram

  datatype Error =
    | ArgumentAlreadySet
    | MutuallyExclusive
    | CouldNotFindDelimiter
    | MissingAValue
    | BadValue
    | NoMatch
    | MissingRequired
    | TooManyArguments
    | Exit

  datatype Status = Fine | Thrown(error: Error)

  /** The statics of Arg. */
  class Statics {
    const delimiter: char
    var ignoreRest: bool

    constructor (delimiter: char)
      ensures this.delimiter == delimiter && !ignoreRest
    {
      this.delimiter, ignoreRest := delimiter, false;
    }
  }

  /** Everything about an argument that changes. */
  datatype View = View(required: bool, alreadySet: bool, xorSet: bool, more: bool,
                       on: bool, value: string, values: seq<string>)

  /** What became of an argument and of the token it was handed, and where the parse goes on. */
  datatype Change = Change(view: View, text: string, to: nat, matched: bool, ignoring: bool)

  type State = map<Arg, View>

  class Arg {
    const kind: Kind
    const flag: string
    const name: string
    const visitor: Visitor
    const accepts: string -> bool
    /** SwitchArg::_default and ValueArg::_default. */
    const initially: bool
    const initialValue: string

    var required: bool
    var alreadySet: bool
    var xorSet: bool
    /** SwitchArg::_value, ValueArg::_value, MultiArg::_values and MultiArg::_allowMore. */
    var on: bool
    var value: string
    var values: seq<string>
    var more: bool

    constructor (kind: Kind, flag: string, name: string, visitor: Visitor, accepts: string -> bool,
                 required: bool, initially: bool, initialValue: string := "")
      requires |flag| <= 1
      requires kind.Switch? ==> !required
      ensures Untouched() && !more && this.required == required
      ensures this.kind == kind && this.flag == flag && this.name == name
      ensures this.visitor == visitor && this.accepts == accepts && this.initially == initially && on == initially
      ensures this.initialValue == initialValue && value == initialValue
    {
      this.kind, this.flag, this.name, this.visitor, this.accepts := kind, flag, name, visitor, accepts;
      this.required, alreadySet, xorSet := required, false, false;
      this.initially, this.initialValue := initially, initialValue;
      on, value, values, more := initially, initialValue, [], false;
    }

    ghost function Look(): View
      reads this
    {
      View(required, alreadySet, xorSet, more, on, value, values)
    }

    /** The state in which a parse may start; a MultiArg's `more` is not part of it, for `Reset` keeps it. */
    predicate Untouched()
      reads this`alreadySet, this`xorSet, this`values
    {
      !alreadySet && !xorSet && values == []
    }

    predicate IsSet()
      reads this
    {
      alreadySet && !xorSet
    }

    predicate IsRequired()
      reads this
    {
      required && (kind.Multi? ==> |values| <= 1)
    }

    predicate SameAs(a: Arg) {
      (flag != "" && flag == a.flag) || name == a.name
    }

    method ForceRequired()
      modifies this`required
      ensures required
    {
      required := true;
    }

    method XorSet()
      modifies this`alreadySet, this`xorSet
      ensures alreadySet && xorSet
    {
      alreadySet, xorSet := true, true;
    }

    /** Only a MultiArg says yes, and from its second call on. */
    method AllowMore() returns (r: bool)
      modifies this`more
      ensures r == (kind.Multi? && old(more))
      ensures more == (kind.Multi? || old(more))
    {
      if !kind.Multi? {
        return false;
      }
      r := more;
      more := true;
    }

    method Reset()
      modifies this
      ensures Untouched() && on == initially && value == initialValue && more == old(more) && required == old(required)
    {
      xorSet, alreadySet := false, false;
      on, value, values := initially, initialValue, [];
    }

    method CheckWithVisitor(statics: Statics) returns (status: Status)
      modifies statics
      ensures status == if visitor.ExitProgram? then Thrown(Exit) else Fine
      ensures statics.ignoreRest == (old(statics.ignoreRest) || visitor.BeginIgnoring?)
    {
      if visitor.BeginIgnoring? {
        statics.ignoreRest := true;
      }
      status := if visitor.ExitProgram? then Thrown(Exit) else Fine;
    }

    /** Blank the first letter of a combined token that is this switch's flag. */
    method CombinedSwitchesMatch(args: array<string>, i: nat, delimiter: char) returns (found: bool)
      requires i < args.Length
      modifies args
      ensures found <==> FindsLetter(old(args[i]), delimiter)
      ensures !found ==> args[i] == old(args[i])
      ensures found ==> var p := IndexOf(old(args[i]), flag[0], 1);
        p < |old(args[i])| && args[i] == old(args[i])[p := BLANK]
      ensures forall j | 0 <= j < args.Length && j != i :: args[j] == old(args[j])
    {
      var token := args[i];
      if |token| > 0 && token[0] != FLAG_START {
        return false;
      }
      if NAME_START <= token {
        return false;
      }
      if delimiter in token {
        return false;
      }
      var k := 1;
      while k < |token|
        invariant |token| > 0 ==> k <= |token|
        invariant flag != "" && flag[0] != FLAG_START && |token| > 0 ==> k <= IndexOf(token, flag[0], 1)
        invariant args[..] == old(args[..])
      {
        if flag != "" && token[k] == flag[0] && flag[0] != FLAG_START {
          args[i] := token[k := BLANK];
          assert IndexOf(token, flag[0], 1) == k;
          return true;
        }
        k := k + 1;
      }
      return false;
    }

    function Visit(): Status {
      if visitor.ExitProgram? then Thrown(Exit) else Fine
    }

    /** A switch can be set once, and not behind the back of its group. */
    function SwitchVerdict(u: View): Status {
      if u.xorSet then Thrown(MutuallyExclusive) else if u.alreadySet then Thrown(ArgumentAlreadySet) else Visit()
    }

    /** How taking a value from token `i` ends. */
    function ValueVerdict(args: seq<string>, i: nat, delimiter: char): Status
      requires i < |args|
    {
      var (v, i') := GivenValue(args, i, delimiter);
      if delimiter != ' ' && ValuePart(args[i], delimiter) == "" then Thrown(CouldNotFindDelimiter)
      else if i' >= |args| then Thrown(MissingAValue)
      else if !accepts(v) then Thrown(BadValue)
      else Visit()
    }

    /** What comes of handing token `i` to the argument when it looks like `u`. */
    function Verdict(u: View, args: seq<string>, i: nat, delimiter: char, ignoring: bool): (r: Status)
      requires i < |args|
      ensures r.Thrown? ==> !IsRequiredError(r.error)
    {
      if ignoring then Fine
      else match kind
        case Switch =>
          if Matches(flag, name, args[i]) then SwitchVerdict(u)
          else if !FindsLetter(args[i], delimiter) then Fine
          else if flag[0] == BLANK || !Once(args[i], flag[0]) then Thrown(ArgumentAlreadySet)
          else SwitchVerdict(u)
        case Value =>
          if !TakesToken(args[i], delimiter) then Fine
          else if u.alreadySet then Thrown(if u.xorSet then MutuallyExclusive else ArgumentAlreadySet)
          else ValueVerdict(args, i, delimiter)
        case Multi =>
          if TakesToken(args[i], delimiter) then ValueVerdict(args, i, delimiter) else Fine
    }

    /** The token may combine switches and has this one's letter. */
    predicate FindsLetter(token: string, delimiter: char)
      ensures FindsLetter(token, delimiter) ==> flag != ""
    {
      Combined(token, delimiter) && flag != "" && flag[0] != FLAG_START && flag[0] in Letters(token)
    }

    /** The argument has to do with the token. */
    predicate Concerns(token: string, delimiter: char)
      ensures kind.Switch? && Concerns(token, delimiter) && !Matches(flag, name, token) ==> flag != ""
    {
      Recognises(token, delimiter) || (kind.Switch? && FindsLetter(token, delimiter))
    }

    /** What handing token `i` to the argument does when nothing is wrong with it. */
    function Effect(u: View, args: seq<string>, i: nat, delimiter: char, ignoring: bool): (c: Change)
      requires i < |args| && Verdict(u, args, i, delimiter, ignoring).Fine?
      ensures i <= c.to < |args| && (!c.matched ==> c.to == i)
    {
      var token := args[i];
      if ignoring || !Concerns(token, delimiter) then Change(u, token, i, false, ignoring)
      else match kind
        case Switch =>
          var text := if Matches(flag, name, token) then token else Blanked(token, {flag[0]});
          Change(u.(alreadySet := true, on := !u.on), text, i, Matches(flag, name, token) || AllBlank(text),
                 visitor.BeginIgnoring?)
        case Value =>
          var (v, to) := GivenValue(args, i, delimiter);
          Change(u.(alreadySet := true, value := v), token, to, true, visitor.BeginIgnoring?)
        case Multi =>
          var (v, to) := GivenValue(args, i, delimiter);
          Change(u.(alreadySet := true, values := u.values + [v]), token, to, true, visitor.BeginIgnoring?)
    }

    /** What a switch does once it is recognised. */
    method CommonProcessing(statics: Statics) returns (status: Status)
      modifies this`alreadySet, this`on, statics
      ensures status == old(SwitchVerdict(Look()))
      ensures status.Fine? ==> statics.ignoreRest == (old(statics.ignoreRest) || visitor.BeginIgnoring?)
      ensures status.Fine? ==> !old(alreadySet) && !xorSet && alreadySet && on == !old(on)
    {
      if xorSet {
        return Thrown(MutuallyExclusive);
      }
      if alreadySet {
        return Thrown(ArgumentAlreadySet);
      }
      alreadySet := true;
      on := !on;
      status := CheckWithVisitor(statics);
    }

    /**
     SwitchArg::processArg. A switch found inside a combined token is set although the answer is
     no, unless it was the last letter left.
     */
    method ProcessSwitch(args: array<string>, i: nat, statics: Statics) returns (matched: bool, status: Status)
      requires kind.Switch? && i < args.Length && statics.delimiter != BLANK
      modifies this`alreadySet, this`on, args, statics
      ensures forall j | 0 <= j < args.Length && j != i :: args[j] == old(args[j])
      ensures status == old(Verdict(Look(), args[..], i, statics.delimiter, statics.ignoreRest))
      ensures status.Fine? ==>
        Change(Look(), args[i], i, matched, statics.ignoreRest)
        == old(Effect(Look(), args[..], i, statics.delimiter, statics.ignoreRest))
    {
      if statics.ignoreRest {
        return false, Fine;
      }
      ghost var token := args[i];
      if Matches(flag, name, args[i]) {
        status := CommonProcessing(statics);
        return true, status;
      }
      var found := CombinedSwitchesMatch(args, i, statics.delimiter);
      if !found {
        return false, Fine;
      }
      ghost var once := args[i];
      var again := CombinedSwitchesMatch(args, i, statics.delimiter);
      if again {
        if flag[0] != BLANK {
          FoundTwice(token, flag[0], once);
        }
        return false, Thrown(ArgumentAlreadySet);
      }
      FoundOnce(token, flag[0], once, statics.delimiter);
      status := CommonProcessing(statics);
      matched := AllBlank(args[i]);
    }

    /** The value a token gives to an argument that takes one, and where the parse goes on. */
    static function GivenValue(args: seq<string>, i: nat, delimiter: char): (r: (string, nat))
      requires i < |args|
    {
      var v := ValuePart(args[i], delimiter);
      if v != "" then (v, i) else if i + 1 < |args| then (args[i + 1], i + 1) else ("", i + 1)
    }

    /** The part that ValueArg::processArg and MultiArg::processArg share: find the value or fail. */
    method TakeValue(args: array<string>, i: nat, delimiter: char) returns (status: Status, v: string, i': nat)
      requires i < args.Length
      ensures ValueVerdict(args[..], i, delimiter) == if status.Fine? then Visit() else status
      ensures status.Fine? ==> accepts(v) && (v, i') == GivenValue(args[..], i, delimiter) && i <= i' < args.Length
    {
      v, i' := ValuePart(args[i], delimiter), i;
      if delimiter != ' ' && v == "" {
        return Thrown(CouldNotFindDelimiter), v, i';
      }
      if v == "" {
        i' := i + 1;
        if i' >= args.Length {
          return Thrown(MissingAValue), v, i';
        }
        v := args[i'];
      }
      status := if accepts(v) then Fine else Thrown(BadValue);
    }

    predicate TakesToken(token: string, delimiter: char) {
      !HasBlanks(token) && Matches(flag, name, FlagPart(token, delimiter))
    }

    /** The token is this argument's own flag or name, with a value attached if the argument takes one. */
    predicate Recognises(token: string, delimiter: char) {
      if kind.Switch? then Matches(flag, name, token) else TakesToken(token, delimiter)
    }

    /** ValueArg::processArg. */
    method ProcessValue(args: array<string>, i: nat, statics: Statics) returns (matched: bool, i': nat, status: Status)
      requires kind.Value? && i < args.Length
      modifies this`alreadySet, this`value, statics
      ensures status == old(Verdict(Look(), args[..], i, statics.delimiter, statics.ignoreRest))
      ensures status.Fine? ==>
        Change(Look(), args[i], i', matched, statics.ignoreRest)
        == old(Effect(Look(), args[..], i, statics.delimiter, statics.ignoreRest))
    {
      matched, i', status := false, i, Fine;
      if statics.ignoreRest || HasBlanks(args[i]) || !Matches(flag, name, FlagPart(args[i], statics.delimiter)) {
        return;
      }
      if alreadySet {
        return true, i, Thrown(if xorSet then MutuallyExclusive else ArgumentAlreadySet);
      }
      var v;
      status, v, i' := TakeValue(args, i, statics.delimiter);
      if status.Thrown? {
        return;
      }
      value := v;
      alreadySet, matched := true, true;
      status := CheckWithVisitor(statics);
    }

    /** MultiArg::processArg: neither `alreadySet` nor `xorSet` stops it. */
    method ProcessMulti(args: array<string>, i: nat, statics: Statics) returns (matched: bool, i': nat, status: Status)
      requires kind.Multi? && i < args.Length
      modifies this`alreadySet, this`values, statics
      ensures status == old(Verdict(Look(), args[..], i, statics.delimiter, statics.ignoreRest))
      ensures status.Fine? ==>
        Change(Look(), args[i], i', matched, statics.ignoreRest)
        == old(Effect(Look(), args[..], i, statics.delimiter, statics.ignoreRest))
    {
      matched, i', status := false, i, Fine;
      if statics.ignoreRest || HasBlanks(args[i]) || !Matches(flag, name, FlagPart(args[i], statics.delimiter)) {
        return;
      }
      var v;
      status, v, i' := TakeValue(args, i, statics.delimiter);
      if status.Thrown? {
        return;
      }
      values := values + [v];
      alreadySet, matched := true, true;
      status := CheckWithVisitor(statics);
    }

    /** The virtual processArg. */
    method ProcessArg(args: array<string>, i: nat, statics: Statics) returns (matched: bool, i': nat, status: Status)
      requires i < args.Length && statics.delimiter != BLANK
      modifies this`alreadySet, this`on, this`value, this`values, args, statics
      ensures forall j | 0 <= j < args.Length && j != i :: args[j] == old(args[j])
      ensures status == old(Verdict(Look(), args[..], i, statics.delimiter, statics.ignoreRest))
      ensures status.Fine? ==>
        Change(Look(), args[i], i', matched, statics.ignoreRest)
        == old(Effect(Look(), args[..], i, statics.delimiter, statics.ignoreRest))
    {
      hide Verdict;
      match kind
      case Switch =>
        i' := i;
        matched, status := ProcessSwitch(args, i, statics);
      case Value =>
        matched, i', status := ProcessValue(args, i, statics);
        assert args[..] == old(args[..]);
      case Multi =>
        matched, i', status := ProcessMulti(args, i, statics);
        assert args[..] == old(args[..]);
    }
  }

  predicate IsRequiredError(e: Error) {
    e == MissingRequired || e == TooManyArguments
  }

  /** After one letter was blanked and none like it is left, it had stood there once. */
  lemma FoundOnce(token: string, c: char, once: string, delimiter: char)
    requires delimiter != BLANK
    requires c in Letters(token) && Combined(token, delimiter)
    requires once == token[IndexOf(token, c, 1) := BLANK]
    requires !(Combined(once, delimiter) && c in Letters(once))
    ensures c != BLANK && Once(token, c) && once == Blanked(token, {c})
  {
    var p := IndexOf(token, c, 1);
    assert p < |token| && token[p] == c;
    StaysCombined(token, p, delimiter);
    assert once[p] == BLANK && once[p] in Letters(once);
    forall j | 1 <= j < |token| && j != p
      ensures token[j] == once[j] != c
    {
      assert once[j] in Letters(once);
    }
    OnceAt(token, c, p);
  }

  lemma OnceAt(token: string, c: char, p: nat)
    requires 1 <= p < |token| && token[p] == c && forall j | 1 <= j < |token| && j != p :: token[j] != c
    ensures Once(token, c) && token[p := BLANK] == Blanked(token, {c})
  {
  }

  /** A letter that is still there after its first one was blanked had stood there twice. */
  lemma FoundTwice(token: string, c: char, once: string)
    requires c != BLANK && c in Letters(token) && c in Letters(once)
    requires once == token[IndexOf(token, c, 1) := BLANK]
    ensures !Once(token, c)
  {
    var p := IndexOf(token, c, 1);
    var q :| 1 <= q < |once| && once[q] == c;
    assert token[p] == c && token[q] == c && p != q;
  }

  lemma StaysCombined(token: string, p: nat, delimiter: char)
    requires delimiter != BLANK && 1 <= p < |token| && Combined(token, delimiter)
    ensures Combined(token[p := BLANK], delimiter)
  {
    var once := token[p := BLANK];
    assert forall k | 0 <= k < |token| :: once[k] == token[k] || once[k] == BLANK;
    NameStart(token);
    NameStart(once);
  }

  lemma NameStart(s: string)
    ensures NAME_START <= s <==> |s| >= 2 && s[0] == '-' && s[1] == '-'
  {
    assert |s| >= 2 ==> s[..2] == [s[0], s[1]];
  }
}
