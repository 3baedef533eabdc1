/**
 `StdOutput::spacePrint` of 3rd/tclap/StdOutput.h: break a text into indented lines. The text of a
 C++ string is followed by a NUL, which the code reads when it looks one past the end.
 */
module WordWrap {
  /** A printed line: where its text starts, its indent, its text, and the spaces dropped after it. */
  datatype Line = Line(start: nat, indent: nat, text: string, gap: nat)

  function CharAt(s: string, i: nat): char
    requires i <= |s|
  {
    if i < |s| then s[i] else '\0'
  }

  predicate BreakAt(s: string, i: nat)
    requires i <= |s|
  {
    CharAt(s, i) == ' ' || CharAt(s, i) == ',' || CharAt(s, i) == '|'
  }

  function Spaces(n: nat): (r: string)
    ensures |r| == n
  {
    seq(n, _ => ' ')
  }

  function Printed(lines: seq<Line>): string {
    if lines == [] then ""
    else
      var last := lines[|lines| - 1];
      Printed(lines[..|lines| - 1]) + Spaces(last.indent) + last.text + "\n"
  }

  /** Every line is printed behind those before it, as its indent, its text and a newline. */
  lemma {:induction false} LineIsPrinted(lines: seq<Line>, i: nat) returns (behind: string)
    requires i < |lines|
    ensures Printed(lines)
         == Printed(lines[..i]) + (seq(lines[i].indent, _ => ' ') + lines[i].text + "\n") + behind
    decreases |lines|
  {
    var front, last := lines[..|lines| - 1], lines[|lines| - 1];
    var own := Spaces(last.indent) + last.text + "\n";
    assert Printed(lines) == Printed(front) + own;
    behind := "";
    if i < |front| {
      behind := LineIsPrinted(front, i);
      assert front[..i] == lines[..i];
      behind := behind + own;
    } else {
      assert Spaces(last.indent) == seq(last.indent, _ => ' ');
    }
  }

  /** The texts of the lines with the dropped spaces put back. */
  function Joined(lines: seq<Line>): string {
    if lines == [] then ""
    else
      var last := lines[|lines| - 1];
      Joined(lines[..|lines| - 1]) + last.text + Spaces(last.gap)
  }

  /**
   `n` characters from `start` are what fits: all that is left when that is less than the room, else
   up to the last break point in the room, else the whole room.
   */
  ghost predicate Fitted(s: string, start: nat, room: nat, n: nat)
    requires start <= |s|
  {
    if |s| - start < room then n == |s| - start
    else
      && 1 <= n <= room
      && if BreakAt(s, start + n) then
           forall k | start + n < k <= start + room :: !BreakAt(s, k)
         else
           n == room && forall k | start < k <= start + room :: !BreakAt(s, k)
  }

  /** A line takes what fits, or less when a newline ends it before. */
  ghost predicate Piece(s: string, start: nat, room: nat, n: nat)
    requires start <= |s|
  {
    && 1 <= n <= room && start + n <= |s|
    && (forall k | start <= k < start + n - 1 :: s[k] != '\n')
    && exists fit: nat ::
         && n <= fit && start + fit <= |s| && Fitted(s, start, room, fit)
         && (n < fit ==> s[start + n - 1] == '\n')
  }

  /** The run of spaces from `at` on has `gap` spaces. */
  ghost predicate Run(s: string, at: nat, gap: nat) {
    && at + gap <= |s|
    && (forall k | at <= k < at + gap :: s[k] == ' ')
    && CharAt(s, at + gap) != ' '
  }

  ghost predicate LineOf(s: string, l: Line, maxWidth: nat) {
    && l.start <= |s| && l.indent <= maxWidth
    && Piece(s, l.start, maxWidth - l.indent, |l.text|)
    && l.text == s[l.start..l.start + |l.text|]
    && Run(s, l.start + |l.text|, l.gap)
  }

  /** The lines follow one another from the start of `s` to `end`. */
  ghost predicate Wrapped(s: string, lines: seq<Line>, indent: nat, offset: nat, maxWidth: nat, end: nat) {
    if lines == [] then end == 0
    else
      var last := lines[|lines| - 1];
      && LineOf(s, last, maxWidth)
      && last.indent == (if |lines| == 1 then indent else indent + offset)
      && last.start + |last.text| + last.gap == end
      && Wrapped(s, lines[..|lines| - 1], indent, offset, maxWidth, last.start)
  }

  /** Nothing but spaces after a line is lost. */
  lemma {:induction false} WrappedKeepsText(s: string, lines: seq<Line>, indent: nat, offset: nat, maxWidth: nat,
      end: nat)
    requires Wrapped(s, lines, indent, offset, maxWidth, end)
    ensures end <= |s| && Joined(lines) == s[..end]
    decreases |lines|
  {
    hide Piece;
    if lines != [] {
      var front, last := lines[..|lines| - 1], lines[|lines| - 1];
      WrappedKeepsText(s, front, indent, offset, maxWidth, last.start);
      var mid := last.start + |last.text|;
      assert s[mid..end] == Spaces(last.gap);
      assert s[..end] == s[..last.start] + s[last.start..mid] + s[mid..end];
    }
  }

  /** Every line fits, none is empty, and a newline can only be its last character. */
  lemma {:induction false} WrappedFits(s: string, lines: seq<Line>, indent: nat, offset: nat, maxWidth: nat, end: nat,
      i: nat)
    requires Wrapped(s, lines, indent, offset, maxWidth, end) && i < |lines|
    ensures lines[i].text != "" && lines[i].indent + |lines[i].text| <= maxWidth
    ensures forall k | 0 <= k < |lines[i].text| - 1 :: lines[i].text[k] != '\n'
    decreases |lines|
  {
    var front, last := lines[..|lines| - 1], lines[|lines| - 1];
    if i < |front| {
      WrappedFits(s, front, indent, offset, maxWidth, last.start, i);
    } else {
      forall k | 0 <= k < |last.text| - 1
        ensures last.text[k] != '\n'
      {
        assert last.text[k] == s[last.start + k];
      }
    }
  }

  predicate InWord(c: char) { c !in " ,|" }

  /** A line that ends inside a word, and not at a newline, is full, and the word had begun at its start. */
  lemma WordsStayWhole(s: string, l: Line, maxWidth: nat)
    requires LineOf(s, l, maxWidth)
    requires var end := l.start + |l.text|; end < |s| && InWord(s[end]) && s[end - 1] != '\n'
    ensures l.indent + |l.text| == maxWidth && forall c | c in l.text[1..] :: InWord(c)
  {
    var n, room := |l.text|, maxWidth - l.indent;
    assert Fitted(s, l.start, room, n);
    assert !BreakAt(s, l.start + n);
    forall k | 1 <= k < n
      ensures InWord(l.text[k])
    {
      assert !BreakAt(s, l.start + k);
    }
  }

  /** Trim so that the line does not end inside a word; a word longer than the line is split. */
  method Trim(s: string, start: nat, room: nat) returns (n: nat)
    requires start < |s|
    ensures n <= room && start + n <= |s|
    ensures room > 0 ==> n > 0 && Fitted(s, start, room, n)
  {
    var k: int := if |s| - start < room then |s| - start else room;
    if k == room {
      while k >= 0 && CharAt(s, start + k) != ' ' && CharAt(s, start + k) != ',' && CharAt(s, start + k) != '|'
        invariant -1 <= k <= room
        invariant forall j | start + k < j <= start + room :: !BreakAt(s, j)
      {
        k := k - 1;
      }
    }
    if k <= 0 {
      k := room;
    }
    n := k;
  }

  method CutAtNewline(s: string, start: nat, fit: nat) returns (n: nat)
    requires start + fit <= |s|
    ensures n <= fit && (fit > 0 ==> n > 0) && (n < fit ==> n > 0 && s[start + n - 1] == '\n')
    ensures forall k | start <= k < start + n - 1 :: s[k] != '\n'
  {
    n := fit;
    var i := 0;
    while i < n
      invariant 0 <= i <= n <= fit && (fit > 0 ==> n > 0)
      invariant i < n ==> n == fit
      invariant forall k | start <= k < start + i && k < start + n - 1 :: s[k] != '\n'
      invariant n < fit ==> n > 0 && s[start + n - 1] == '\n'
      invariant i < n ==> forall k | start <= k < start + i :: s[k] != '\n'
    {
      if s[start + i] == '\n' {
        n := i + 1;
      }
      i := i + 1;
    }
  }

  /** Move `start` on for every space that follows the piece, so that no line starts with a space. */
  method SkipSpaces(s: string, start: nat, n: nat) returns (start': nat)
    requires start + n <= |s|
    ensures start <= start' && Run(s, start + n, start' - start)
  {
    start' := start;
    while CharAt(s, n + start') == ' ' && start' < |s|
      invariant start <= start' && n + start' <= |s|
      invariant forall k | start + n <= k < n + start' :: s[k] == ' '
      decreases |s| - start'
    {
      start' := start' + 1;
    }
  }

  /**
   One pass of the loop: the length of the piece and where the next one starts. Without any room the
   pass prints nothing and, unless a space is next, stays where it is: the loop would not end.
   */
  method NextLine(s: string, start: nat, room: nat) returns (n: nat, next: nat)
    requires start < |s|
    ensures start + n <= next && Run(s, start + n, next - (start + n))
    ensures room > 0 ==> Piece(s, start, room, n) && next > start
    ensures room == 0 ==> n == 0 && (next == start <==> s[start] != ' ')
  {
    hide Fitted;
    var fit := Trim(s, start, room);
    n := CutAtNewline(s, start, fit);
    if room > 0 {
      FittedIsPiece(s, start, room, fit, n);
    }
    var start' := SkipSpaces(s, start, n);
    next := start' + n;
  }

  /**
   Print `s`, broken into lines of at most `maxWidth` characters. The lines hold the whole text: only
   spaces between two lines are dropped.
   */
  method SpacePrint(s: string, maxWidth: int, indentSpaces: nat, secondLineOffset: nat)
    returns (os: string, ghost lines: seq<Line>)
    requires |s| + indentSpaces > maxWidth > 0 ==> maxWidth > indentSpaces + secondLineOffset
    ensures os == Printed(lines) && Joined(lines) == s
    ensures |s| + indentSpaces > maxWidth > 0 ==> Wrapped(s, lines, indentSpaces, secondLineOffset, maxWidth, |s|)
    ensures !(|s| + indentSpaces > maxWidth > 0) ==> lines == [Line(0, indentSpaces, s, 0)]
  {
    hide LineOf, Fitted, Piece;
    os, lines := "", [];
    if |s| + indentSpaces > maxWidth && maxWidth > 0 {
      var indent, room := indentSpaces, maxWidth - indentSpaces;
      var start := 0;
      while start < |s|
        invariant 0 <= start <= |s|
        invariant indent + room == maxWidth && room > 0
        invariant indent == if start == 0 then indentSpaces else indentSpaces + secondLineOffset
        invariant start == 0 <==> lines == []
        invariant Wrapped(s, lines, indentSpaces, secondLineOffset, maxWidth, start)
        invariant os == Printed(lines)
      {
        var n, next := NextLine(s, start, room);
        ghost var at, lineIndent := start, indent;
        os := os + Spaces(indent);
        if start == 0 {
          indent, room := indent + secondLineOffset, room - secondLineOffset;
        }
        os := os + s[start..start + n] + "\n";
        ghost var line := Line(at, lineIndent, s[at..at + n], next - (at + n));
        IsLine(s, line, maxWidth);
        AddLine(s, lines, indentSpaces, secondLineOffset, maxWidth, line);
        lines := lines + [line];
        start := next;
      }
      WrappedKeepsText(s, lines, indentSpaces, secondLineOffset, maxWidth, |s|);
    } else {
      os := Spaces(indentSpaces) + s + "\n";
      lines := [Line(0, indentSpaces, s, 0)];
      OneLine(lines[0]);
    }
  }

  lemma FittedIsPiece(s: string, start: nat, room: nat, fit: nat, n: nat)
    requires start + fit <= |s| && fit <= room && Fitted(s, start, room, fit)
    requires 1 <= n <= fit && (n < fit ==> s[start + n - 1] == '\n')
    requires forall k | start <= k < start + n - 1 :: s[k] != '\n'
    ensures Piece(s, start, room, n)
  {
  }

  lemma IsLine(s: string, l: Line, maxWidth: nat)
    requires l.start + |l.text| <= |s| && l.text == s[l.start..l.start + |l.text|] && l.indent <= maxWidth
    requires Piece(s, l.start, maxWidth - l.indent, |l.text|) && Run(s, l.start + |l.text|, l.gap)
    ensures LineOf(s, l, maxWidth)
  {
  }

  lemma AddLine(s: string, lines: seq<Line>, indent: nat, offset: nat, maxWidth: nat, line: Line)
    requires Wrapped(s, lines, indent, offset, maxWidth, line.start) && LineOf(s, line, maxWidth)
    requires line.indent == if lines == [] then indent else indent + offset
    ensures Wrapped(s, lines + [line], indent, offset, maxWidth, line.start + |line.text| + line.gap)
    ensures Printed(lines + [line]) == Printed(lines) + Spaces(line.indent) + line.text + "\n"
  {
    assert (lines + [line])[..|lines|] == lines;
  }

  lemma OneLine(line: Line)
    requires line.gap == 0
    ensures Printed([line]) == Spaces(line.indent) + line.text + "\n" && Joined([line]) == line.text
  {
    assert [line][..0] == [];
  }
}
