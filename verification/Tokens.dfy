/**
 What the argument classes of TCLAP do with the text of one token (3rd/tclap/Arg.h and
 3rd/tclap/SwitchArg.h), apart from any state of the arguments.
 */
module Tokens {
  const FLAG_START: char := '-'
  const NAME_START: string := "--"
  const BLANK: char := 7 as char

  predicate Matches(flag: string, name: string, token: string) {
    (flag != "" && token == [FLAG_START] + flag) || token == NAME_START + name
  }

  function IndexOf(s: string, c: char, from: nat): (i: nat)
    requires from <= |s|
    ensures from <= i <= |s|
    ensures c !in s[from..i]
    ensures i < |s| ==> s[i] == c
    decreases |s| - from
  {
    if from == |s| || s[from] == c then from
    else
      var i := IndexOf(s, c, from + 1);
      assert s[from..i] == [s[from]] + s[from + 1..i];
      i
  }

  /** Where a token is cut into flag and value; a delimiter at position 0 or 1 does not cut. */
  function Cut(token: string, delimiter: char): (i: nat)
    ensures i <= |token|
  {
    var i := IndexOf(token, delimiter, 0);
    if i == |token| || i <= 1 then |token| else i
  }

  function FlagPart(token: string, delimiter: char): string {
    token[..Cut(token, delimiter)]
  }

  function ValuePart(token: string, delimiter: char): string {
    var i := Cut(token, delimiter);
    if i == |token| then "" else token[i + 1..]
  }

  predicate HasBlanks(token: string) {
    exists i :: 1 <= i < |token| && token[i] == BLANK
  }

  predicate AllBlank(token: string) {
    forall i | 1 <= i < |token| :: token[i] == BLANK
  }

  /** A token that may combine switches: not a plain word, not a long name, no value attached. */
  predicate Combined(token: string, delimiter: char) {
    && (|token| > 0 ==> token[0] == FLAG_START)
    && !(NAME_START <= token)
    && delimiter !in token
  }

  predicate EmptyCombined(token: string) {
    (|token| > 0 ==> token[0] == FLAG_START) && AllBlank(token)
  }

  /** The letters of a combined token. */
  function Letters(token: string): set<char> {
    set i | 1 <= i < |token| :: token[i]
  }

  predicate Once(token: string, c: char) {
    exists i :: 1 <= i < |token| && token[i] == c && forall j | 1 <= j < |token| && token[j] == c :: j == i
  }

  /** `token` with every letter in `gone` replaced by the blank character. */
  function Blanked(token: string, gone: set<char>): (r: string)
    ensures |r| == |token|
  {
    seq(|token|, i requires 0 <= i < |token| => if i >= 1 && token[i] in gone then BLANK else token[i])
  }

  lemma BlankedTwice(token: string, gone: set<char>, c: char)
    ensures Blanked(Blanked(token, gone), {c}) == Blanked(token, gone + {c})
  {
  }
}
