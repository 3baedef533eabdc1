/**
 The parenthesis matchers of 3rd/s7/glistener.c on text without quotes, bars and backslashes. The
 forward matcher jumps over comments; the backward one meets a comment's text before it can know that
 it is a comment, and takes the line's count back when it meets the `;`.
 */
module Parens {
  function Weight(c: char): int {
    if c == '(' then 1 else if c == ')' then -1 else 0
  }

  /** Open minus close parentheses in `t[i..j]`. */
  function Net(t: string, i: nat, j: nat): int
    requires i <= j <= |t|
  {
    if i == j then 0 else Net(t, i, j - 1) + Weight(t[j - 1])
  }

  lemma {:induction false} NetSplit(t: string, i: nat, k: nat, j: nat)
    requires i <= k <= j <= |t|
    ensures Net(t, i, j) == Net(t, i, k) + Net(t, k, j)
    decreases j
  {
    if k < j {
      NetSplit(t, i, k, j - 1);
    }
  }

  lemma {:induction false} NetSame(t: string, u: string, i: nat, j: nat)
    requires i <= j <= |t| == |u|
    requires forall k | i <= k < j :: Weight(t[k]) == Weight(u[k])
    ensures Net(t, i, j) == Net(u, i, j)
    decreases j
  {
    if i < j {
      NetSame(t, u, i, j - 1);
    }
  }

  lemma {:induction false} NetZero(t: string, i: nat, j: nat)
    requires i <= j <= |t|
    requires forall k | i <= k < j :: Weight(t[k]) == 0
    ensures Net(t, i, j) == 0
    decreases j
  {
    if i < j {
      NetZero(t, i, j - 1);
    }
  }

  /** Is position `i` behind a `;` on its line, when the text before `from` is out of sight? */
  predicate InComment(text: string, from: nat, i: nat)
    requires from <= i <= |text|
    decreases i
  {
    i > from && (text[i - 1] == ';' || (text[i - 1] != '\n' && InComment(text, from, i - 1)))
  }

  /** The text from `from` on, comments blanked out. */
  function Stripped(text: string, from: nat): (t: string)
    requires from <= |text|
    ensures |t| == |text|
  {
    seq(|text|, i requires 0 <= i < |text| =>
      if i < from || (text[i] != '\n' && (text[i] == ';' || InComment(text, from, i))) then ' ' else text[i])
  }

  /** Going back from `c`, the `parens`-th parenthesis left open is the one at `o`. */
  ghost predicate Encloses(t: string, o: nat, c: nat, parens: int)
    requires o < c <= |t|
  {
    && Net(t, o, c) == parens
    && forall k | o < k <= c :: Net(t, k, c) < parens
  }

  ghost predicate Enclosed(t: string, from: nat, c: nat, parens: int)
    requires c <= |t|
  {
    exists o | from <= o < c :: Encloses(t, o, c, parens)
  }

  /** Going on from `o`, the parenthesis at `c` closes the `parens`-th one that was open. */
  ghost predicate Closes(t: string, o: nat, c: nat, parens: int)
    requires o <= c < |t|
  {
    && Net(t, o, c + 1) == -parens
    && forall k | o <= k <= c :: Net(t, o, k) > -parens
  }

  ghost predicate Closed(t: string, o: nat, limit: nat, parens: int)
    requires limit <= |t|
  {
    exists c | o <= c < limit :: Closes(t, o, c, parens)
  }

  predicate Plain(text: string) {
    forall i | 0 <= i < |text| :: text[i] != '"' && text[i] != '|' && text[i] != '\\'
  }

  /** What one line contributes: up to the first `;` its text, behind it nothing. */
  lemma StrippedLine(text: string, from: nat, start: nat, mark: nat, end: nat)
    requires from <= start <= mark <= end <= |text|
    requires start == from || text[start - 1] == '\n'
    requires forall k | start <= k < mark :: text[k] != '\n' && text[k] != ';'
    requires forall k | mark <= k < end :: text[k] != '\n'
    requires mark < end ==> text[mark] == ';'
    ensures forall k | start <= k < mark :: Stripped(text, from)[k] == text[k]
    ensures forall k | mark <= k < end :: Stripped(text, from)[k] == ' '
  {
    var k := start;
    while k < end
      invariant start <= k <= end
      invariant InComment(text, from, k) <==> k > mark
      invariant forall j | start <= j < k :: InComment(text, from, j) <==> j > mark
    {
      k := k + 1;
    }
  }

  /** A line whose text up to `mark` is code and from there a comment. */
  predicate Line(text: string, from: nat, start: nat, mark: nat, end: nat) {
    && from <= start <= mark <= end <= |text|
    && (start == from || text[start - 1] == '\n')
    && (forall k | start <= k < end :: text[k] != '\n')
    && (forall k | start <= k < mark :: text[k] != ';')
    && (mark < end ==> text[mark] == ';')
  }

  lemma LineNet(text: string, from: nat, start: nat, mark: nat, end: nat, c: nat, k: nat)
    requires Line(text, from, start, mark, end) && start <= k <= end <= c <= |text|
    ensures var t := Stripped(text, from);
      Net(t, k, c) == (if k <= mark then Net(text, k, mark) else 0) + Net(t, end, c)
  {
    hide Stripped;
    var t := Stripped(text, from);
    StrippedLine(text, from, start, mark, end);
    NetSplit(t, k, end, c);
    if k <= mark {
      NetSplit(t, k, mark, end);
      NetSame(t, text, k, mark);
      NetZero(t, mark, end);
    } else {
      NetZero(t, k, end);
    }
  }

  /** Seen back from `mark`, no parenthesis of `text[from..mark]` is the one, and `parens` are still to come. */
  ghost predicate Open(text: string, from: nat, mark: nat, wanted: int, parens: int)
    requires from <= mark <= |text|
  {
    && parens == wanted - Net(text, from, mark)
    && forall k | from <= k <= mark :: Net(text, k, mark) < wanted
  }

  /** Seen back from `mark`, the one is at `o`. */
  ghost predicate Met(text: string, from: nat, mark: nat, wanted: int, o: nat)
    requires from <= mark <= |text|
  {
    from <= o < mark && Encloses(text, o, mark, wanted)
  }

  lemma LineOpen(text: string, from: nat, start: nat, mark: nat, end: nat, c: nat, parens0: int, wanted: int,
      parens: int)
    requires Line(text, from, start, mark, end) && end <= c <= |text|
    requires var t := Stripped(text, from); wanted == parens0 - Net(t, end, c) && wanted > 0
    requires forall k | end <= k <= c :: Net(Stripped(text, from), k, c) < parens0
    requires Open(text, start, mark, wanted, parens)
    ensures forall k | start <= k <= c :: Net(Stripped(text, from), k, c) < parens0
    ensures parens == parens0 - Net(Stripped(text, from), start, c) > 0
  {
    hide Stripped;
    LineNet(text, from, start, mark, end, c, start);
    forall k | start <= k < end
      ensures Net(Stripped(text, from), k, c) < parens0
    {
      LineNet(text, from, start, mark, end, c, k);
    }
  }

  lemma LineMet(text: string, from: nat, start: nat, mark: nat, end: nat, c: nat, parens0: int, wanted: int, o: nat)
    requires Line(text, from, start, mark, end) && end <= c <= |text|
    requires var t := Stripped(text, from); wanted == parens0 - Net(t, end, c) && wanted > 0
    requires forall k | end <= k <= c :: Net(Stripped(text, from), k, c) < parens0
    requires Met(text, start, mark, wanted, o)
    ensures Encloses(Stripped(text, from), o, c, parens0)
  {
    hide Stripped;
    LineNet(text, from, start, mark, end, c, o);
    forall k | o < k < end
      ensures Net(Stripped(text, from), k, c) < parens0
    {
      LineNet(text, from, start, mark, end, c, k);
    }
  }

  /** One more character of code, going back. */
  lemma StepBack(text: string, scan: nat, mark: nat)
    requires scan < mark <= |text|
    ensures forall k | scan < k <= mark :: Net(text, scan, mark) == Net(text, scan, k) + Net(text, k, mark)
    ensures Net(text, scan, mark) == Weight(text[scan]) + Net(text, scan + 1, mark)
  {
    forall k | scan < k <= mark
      ensures Net(text, scan, mark) == Net(text, scan, k) + Net(text, k, mark)
    {
      NetSplit(text, scan, k, mark);
    }
    assert Net(text, scan, scan + 1) == Weight(text[scan]);
  }

  lemma NewlineBack(text: string, from: nat, scan: nat, c: nat)
    requires from <= scan < c <= |text| && text[scan] == '\n'
    ensures Net(Stripped(text, from), scan, c) == Net(Stripped(text, from), scan + 1, c)
  {
    StepBack(Stripped(text, from), scan, c);
  }

  /**
   The backward matcher. It finds the parenthesis that, on the text without its comments, is the
   `parens0`-th one open before `pos + 1`, wherever comments stand in between. The text includes
   the NUL that is read at its end.
   */
  method FindOpenParen(text: string, parens0: int, pos: nat, limit: nat) returns (found: bool, highlight: nat)
    requires Plain(text) && parens0 > 0 && pos < |text| && limit < |text|
    ensures found <==> Enclosed(Stripped(text, limit + 1), limit + 1, pos + 1, parens0)
    ensures found ==> limit < highlight <= pos && Encloses(Stripped(text, limit + 1), highlight, pos + 1, parens0)
  {
    hide Stripped;
    var parens, parensAtLineEnd, endScan := parens0, parens0, false;
    highlight := 0;
    var scan := pos;
    ghost var from, t, c := limit + 1, Stripped(text, limit + 1), pos + 1;
    ghost var lineEnd, mark := c, c;
    while limit < scan
      invariant scan <= pos && scan < mark <= lineEnd <= c
      invariant limit <= scan || scan == pos
      invariant lineEnd < c ==> text[lineEnd] == '\n'
      invariant forall k | scan < k < lineEnd :: text[k] != '\n'
      invariant forall k | scan < k < mark :: text[k] != ';'
      invariant mark < lineEnd ==> text[mark] == ';'
      invariant parensAtLineEnd == parens0 - Net(t, lineEnd, c) && parensAtLineEnd > 0
      invariant forall k | lineEnd <= k <= c :: Net(t, k, c) < parens0
      invariant !endScan ==> Open(text, scan + 1, mark, parensAtLineEnd, parens)
      invariant endScan ==> Met(text, scan + 1, mark, parensAtLineEnd, highlight) && parens == 0
    {
      var ch := text[scan];
      StepBack(text, scan, mark);
      if ch == '\n' {
        if endScan {
          LineMet(text, from, scan + 1, mark, lineEnd, c, parens0, parensAtLineEnd, highlight);
          return true, highlight;
        }
        LineOpen(text, from, scan + 1, mark, lineEnd, c, parens0, parensAtLineEnd, parens);
        NewlineBack(text, from, scan, c);
        parensAtLineEnd := parens;
        lineEnd, mark := scan, scan;
      } else if ch == ';' {
        parens := parensAtLineEnd;
        endScan := false;
        mark := scan;
      } else if !endScan {
        if ch == ')' {
          parens := parens + 1;
        } else if ch == '(' {
          parens := parens - 1;
          if parens == 0 {
            highlight := scan;
            endScan := true;
          }
        }
      }
      scan := scan - 1;
    }
    found := parens == 0;
    if limit < pos {
      if endScan {
        LineMet(text, from, from, mark, lineEnd, c, parens0, parensAtLineEnd, highlight);
      } else {
        LineOpen(text, from, from, mark, lineEnd, c, parens0, parensAtLineEnd, parens);
      }
    }
  }

  /** `gtk_text_iter_forward_to_line_end` from inside a line. */
  method ForwardToLineEnd(text: string, at: nat) returns (end: nat)
    requires at < |text| && text[at] != '\n'
    ensures at < end <= |text| && (end < |text| ==> text[end] == '\n')
    ensures forall k | at <= k < end :: text[k] != '\n'
  {
    end := at;
    while end < |text| && text[end] != '\n'
      invariant at <= end <= |text|
      invariant forall k | at <= k < end :: text[k] != '\n'
    {
      end := end + 1;
    }
  }

  lemma CommentIsBlank(text: string, from: nat, at: nat, end: nat)
    requires from <= at < end <= |text| && text[at] == ';'
    requires forall k | at <= k < end :: text[k] != '\n'
    ensures forall k | at <= k < end :: Stripped(text, from)[k] == ' '
  {
    var k := at;
    while k < end
      invariant at <= k <= end
      invariant at < k ==> InComment(text, from, k)
      invariant forall j | at <= j < k :: Stripped(text, from)[j] == ' '
    {
      k := k + 1;
    }
  }

  /** A stretch without closing parentheses cannot hold the one looked for. */
  lemma Blank(t: string, o: nat, at: nat, end: nat)
    requires o <= at <= end <= |t| && forall k | at <= k < end :: Weight(t[k]) == 0
    ensures forall k | at <= k <= end :: Net(t, o, k) == Net(t, o, at)
  {
    forall k | at <= k <= end
      ensures Net(t, o, k) == Net(t, o, at)
    {
      NetSplit(t, o, at, k);
      NetZero(t, at, k);
    }
  }

  /** The forward matcher. It finds the close parenthesis of the text without its comments. */
  method FindCloseParen(text: string, parens0: int, pos: nat, limit: nat) returns (found: bool, highlight: nat)
    requires Plain(text) && parens0 > 0 && pos <= |text| && limit <= |text|
    ensures found <==> Closed(Stripped(text, pos), pos, limit, parens0)
    ensures found ==> pos <= highlight < limit && Closes(Stripped(text, pos), pos, highlight, parens0)
  {
    var parens, scan := parens0, pos;
    highlight := 0;
    ghost var t := Stripped(text, pos);
    while scan < limit
      invariant pos <= scan <= |text|
      invariant scan < |text| ==> !InComment(text, pos, scan)
      invariant parens == parens0 + Net(t, pos, scan) && parens > 0
      invariant forall k | pos <= k <= scan :: Net(t, pos, k) > -parens0
      decreases |text| - scan
    {
      var c := text[scan];
      ghost var at := scan;
      if c == ';' {
        scan := ForwardToLineEnd(text, scan);
        CommentIsBlank(text, pos, at, scan);
        assert scan < |text| ==> t[scan] == '\n';
        Blank(t, pos, at, if scan < |text| then scan + 1 else scan);
      } else if c == ')' {
        parens := parens - 1;
        if parens == 0 {
          assert Closes(t, pos, scan, parens0);
          return true, scan;
        }
      } else if c == '(' {
        parens := parens + 1;
      }
      if scan < |text| {
        scan := scan + 1;
      }
    }
    found := parens == 0;
  }

  /** Outside a comment it does not matter where the look at the text began. */
  lemma {:induction false} SameComments(text: string, from: nat, pos: nat, i: nat)
    requires from <= pos <= i <= |text| && !InComment(text, from, pos)
    ensures InComment(text, pos, i) <==> InComment(text, from, i)
    decreases i
  {
    if pos < i {
      SameComments(text, from, pos, i - 1);
    }
  }

  lemma SameCode(text: string, from: nat, pos: nat)
    requires from <= pos <= |text| && !InComment(text, from, pos)
    ensures forall i | pos <= i < |text| :: Stripped(text, pos)[i] == Stripped(text, from)[i]
  {
    forall i | pos <= i < |text|
      ensures Stripped(text, pos)[i] == Stripped(text, from)[i]
    {
      SameComments(text, from, pos, i);
    }
  }

  /**
   For two parentheses outside comments: looking forward from the first one finds the second exactly
   when looking back from the second finds the first.
   */
  lemma MatchersAreInverse(text: string, from: nat, o: nat, c: nat)
    requires from <= o < c < |text|
    requires Stripped(text, from)[o] == '(' && Stripped(text, from)[c] == ')'
    ensures Closes(Stripped(text, o + 1), o + 1, c, 1) <==> Encloses(Stripped(text, from), o, c, 1)
  {
    SameCode(text, from, o + 1);
    Mirror(Stripped(text, from), Stripped(text, o + 1), o, c);
  }

  lemma Mirror(t: string, u: string, o: nat, c: nat)
    requires o < c < |t| == |u| && t[o] == '(' && t[c] == ')'
    requires forall i | o < i < |t| :: u[i] == t[i]
    ensures Closes(u, o + 1, c, 1) <==> Encloses(t, o, c, 1)
  {
    forall k | o < k <= c
      ensures Net(u, o + 1, k) == Net(t, o, c) - 1 - Net(t, k, c)
    {
      StepBack(t, o, c);
      NetSplit(t, o + 1, k, c);
      NetSame(t, u, o + 1, k);
    }
    assert Net(t, c, c) == 0;
    assert Net(u, o + 1, c + 1) == Net(u, o + 1, c) - 1 == Net(t, o, c) - 2;
    if Closes(u, o + 1, c, 1) {
      forall k | o < k <= c
        ensures Net(t, k, c) < 1
      {
        assert Net(u, o + 1, k) > -1;
      }
    }
    if Encloses(t, o, c, 1) {
      var next := o + 1;
      forall k | o < k <= c
        ensures Net(u, next, k) > -1
      {
        assert Net(t, k, c) < 1;
      }
    }
  }

  /** What either matcher finds is a parenthesis, and the only one that fits. */
  lemma EnclosesOnce(t: string, o: nat, o': nat, c: nat, parens: int)
    requires o < c <= |t| && o' < c && Encloses(t, o, c, parens) && Encloses(t, o', c, parens)
    ensures o == o' && t[o] == '('
  {
    StepBack(t, o, c);
  }

  lemma ClosesOnce(t: string, o: nat, c: nat, c': nat, parens: int)
    requires o <= c < |t| && o <= c' < |t| && Closes(t, o, c, parens) && Closes(t, o, c', parens)
    ensures c == c' && t[c] == ')'
  {
    assert Net(t, o, c + 1) == Net(t, o, c) + Weight(t[c]);
  }

  /** From an open parenthesis outside comments to its partner and back again. */
  method ThereAndBack(text: string, o: nat, limit: nat, end: nat) returns (there: bool, c: nat, back: bool, again: nat)
    requires Plain(text) && limit < o < end <= |text| && Stripped(text, limit + 1)[o] == '('
    ensures there ==> o < c < end && back && again == o
  {
    back, again := false, 0;
    there, c := FindCloseParen(text, 1, o + 1, end);
    if there {
      ClosesOnce(Stripped(text, o + 1), o + 1, c, c, 1);
      SameCode(text, limit + 1, o + 1);
      MatchersAreInverse(text, limit + 1, o, c);
      back, again := FindOpenParen(text, 1, c - 1, limit);
      EnclosesOnce(Stripped(text, limit + 1), o, again, c, 1);
    }
  }

  /** From a close parenthesis outside comments to its partner and back again. */
  method BackAndThere(text: string, c: nat, limit: nat, end: nat) returns (back: bool, o: nat, there: bool, again: nat)
    requires Plain(text) && limit < c < end <= |text| && Stripped(text, limit + 1)[c] == ')'
    ensures back ==> limit < o < c && there && again == c
  {
    there, again := false, 0;
    back, o := FindOpenParen(text, 1, c - 1, limit);
    if back {
      EnclosesOnce(Stripped(text, limit + 1), o, o, c, 1);
      MatchersAreInverse(text, limit + 1, o, c);
      there, again := FindCloseParen(text, 1, o + 1, end);
      ClosesOnce(Stripped(text, o + 1), o + 1, c, again, 1);
    }
  }
}
