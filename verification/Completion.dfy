/**
 Completion of a symbol in 3rd/s7/glistener.c: `compare_names` is called for name after name, keeps
 what the names that extend the text have in common, and asks to stop once that cannot complete
 anything any more. Names are C strings: they hold no NUL.
 */
module Completion {
  import opened Wrappers

  predicate CString(s: string) {
    '\0' !in s
  }

  /** `p` starts every name that extends `text`. */
  ghost predicate Common(p: string, text: string, names: seq<string>) {
    forall n | n in names && text <= n :: p <= n
  }

  /** `p` is the longest string that starts every name extending `text`, and there is such a name. */
  ghost predicate Longest(p: string, text: string, names: seq<string>) {
    && (exists n :: n in names && text <= n)
    && Common(p, text, names)
    && forall q: string | Common(q, text, names) :: q <= p
  }

  lemma LongestIsUnique(p: string, p': string, text: string, names: seq<string>)
    requires Longest(p, text, names) && Longest(p', text, names)
    ensures p == p'
  {
    assert p <= p' && p' <= p;
  }

  /** The longest string that starts both, character by character. */
  ghost predicate Meet(p: string, a: string, b: string) {
    p <= a && p <= b && (|p| < |a| && |p| < |b| ==> a[|p|] != b[|p|])
  }

  lemma MeetIsLongest(p: string, a: string, b: string, q: string)
    requires Meet(p, a, b) && q <= a && q <= b
    ensures q <= p
  {
  }

  lemma CommonToFewer(p: string, text: string, names: seq<string>, more: seq<string>)
    requires Common(p, text, names + more)
    ensures Common(p, text, names)
  {
    forall n | n in names && text <= n
      ensures p <= n
    {
      assert n in names + more;
    }
  }

  /** One more name narrows what the names have in common. */
  lemma OneMore(p: string, text: string, names: seq<string>, name: string, p': string)
    requires Longest(p, text, names) && text <= name && Meet(p', p, name)
    ensures Longest(p', text, names + [name])
  {
    forall n | n in names + [name] && text <= n
      ensures p' <= n
    {
      assert n in names ==> p <= n;
    }
    forall q: string | Common(q, text, names + [name])
      ensures q <= p'
    {
      CommonToFewer(q, text, names, [name]);
      assert name in names + [name] && q <= name;
      MeetIsLongest(p', p, name, q);
    }
    var n :| n in names && text <= n;
    assert n in names + [name];
  }

  lemma FirstOne(text: string, names: seq<string>, name: string)
    requires text <= name && !exists n :: n in names && text <= n
    ensures Longest(name, text, names + [name])
  {
    assert name in names + [name];
  }

  /** Once nothing but the text is common, more names change nothing. */
  lemma NothingToGain(text: string, names: seq<string>, more: seq<string>)
    requires Longest(text, text, names)
    ensures Longest(text, text, names + more)
  {
    forall q: string | Common(q, text, names + more)
      ensures q <= text
    {
      CommonToFewer(q, text, names, more);
    }
    var n :| n in names && text <= n;
    assert n in names + more;
  }

  /** `match_info`: the text and what the names seen so far have in common. */
  class MatchInfo {
    const text: string
    var currentMatch: Option<string>
    var len: nat

    ghost predicate Holds(seen: seq<string>)
      reads this
    {
      match currentMatch
      case None => len == 0 && !exists n :: n in seen && text <= n
      case Some(p) => len == |p| && CString(p) && Longest(p, text, seen)
    }

    constructor (text: string)
      ensures this.text == text && Holds([])
    {
      this.text, currentMatch, len := text, None, 0;
    }

    /** Take the next name, and say whether to stop. */
    method CompareNames(symbolName: string, ghost seen: seq<string>) returns (stop: bool)
      requires CString(symbolName) && Holds(seen)
      modifies this
      ensures Holds(seen + [symbolName])
      ensures stop <==> 0 < len <= |text|
    {
      if text <= symbolName {
        match currentMatch
        case None =>
          FirstOne(text, seen, symbolName);
          len := |symbolName|;
          currentMatch := Some(symbolName);
        case Some(current) =>
          var j := Differ(current, len, symbolName);
          if j < len {
            currentMatch := Some(current[..j]);
            len := j;
          }
          OneMore(current, text, seen, symbolName, current[..j]);
      } else {
        assert forall n :: n in seen + [symbolName] && text <= n <==> n in seen && text <= n;
        Unchanged(text, seen, symbolName);
      }
      return 0 < len <= |text|;
    }
  }

  /** The loop over the characters; the NUL behind the name differs from every character of the match. */
  method Differ(current: string, len: nat, symbolName: string) returns (j: nat)
    requires len == |current| && CString(current)
    ensures j <= len && Meet(current[..j], current, symbolName)
  {
    j := 0;
    while j < len
      invariant j <= len && j <= |symbolName| && current[..j] == symbolName[..j]
    {
      if current[j] != (if j < |symbolName| then symbolName[j] else '\0') {
        break;
      }
      assert current[..j + 1] == current[..j] + [current[j]];
      assert symbolName[..j + 1] == symbolName[..j] + [symbolName[j]];
      j := j + 1;
    }
  }

  lemma Unchanged(text: string, names: seq<string>, name: string)
    requires !(text <= name)
    ensures forall p: string :: Longest(p, text, names) ==> Longest(p, text, names + [name])
  {
    forall p: string | Longest(p, text, names)
      ensures Longest(p, text, names + [name])
    {
      forall q: string | Common(q, text, names + [name])
        ensures q <= p
      {
        CommonToFewer(q, text, names, [name]);
      }
      var n :| n in names && text <= n;
      assert n in names + [name];
    }
  }

  /**
   Offer the names one after the other until `CompareNames` says stop. The completion is the longest
   string that starts every name extending the text, stopped early or not; there is none exactly when
   that string is no longer than the text, or no name extends it.
   */
  method SymbolCompletion(names: seq<string>, text: string) returns (result: Option<string>)
    requires CString(text) && forall n | n in names :: CString(n)
    ensures result.Some? ==> Longest(result.value, text, names) && |result.value| > |text|
    ensures result.None? <==> (!exists n :: n in names && text <= n) || Longest(text, text, names)
  {
    var m := new MatchInfo(text);
    var i, stop := 0, false;
    while i < |names| && !stop
      invariant i <= |names| && m.Holds(names[..i])
      invariant stop ==> 0 < m.len <= |text|
    {
      assert names[..i + 1] == names[..i] + [names[i]];
      stop := m.CompareNames(names[i], names[..i]);
      i := i + 1;
    }
    assert names == names[..i] + names[i..];
    if stop {
      StoppedAtText(m.currentMatch.value, text, names[..i]);
      NothingToGain(text, names[..i], names[i..]);
    } else {
      assert names[..i] == names;
    }
    result := if m.len > |text| then m.currentMatch else None;
    if m.currentMatch.Some? && m.len <= |text| {
      StoppedAtText(m.currentMatch.value, text, names[..i]);
    }
    if result.Some? && Longest(text, text, names) {
      LongestIsUnique(text, result.value, text, names);
    }
  }

  lemma StoppedAtText(p: string, text: string, names: seq<string>)
    requires Longest(p, text, names) && |p| <= |text|
    ensures p == text
  {
    assert Common(text, text, names);
  }
}
