/**
  What the text format can carry: the shapes of names, values and comments that
  come back from a printed text, and what is known of a text that has a given
  piece at a given place.
*/
module IniShapes {
  import opened IniText
  import opened IniParse
  import opened IniView

  // ------------------------------------------------------------------
  // Shapes that the text format can carry

  predicate OneLine(s: string) {
    forall c | c in s :: c != NUL && !IsNewLineChar(c)
  }

  // No white space at either end
  predicate Trimmed(s: string) {
    s != "" ==> !IsSpace(s[0]) && !IsSpace(s[|s|-1])
  }

  predicate GoodSectionName(s: string) {
    s != "" && OneLine(s) && Trimmed(s) && ']' !in s
  }

  predicate GoodKeyName(k: string) {
    k != "" && OneLine(k) && Trimmed(k) && '=' !in k && !IsComment(k[0]) && k[0] != '['
  }

  /** A value that survives: on one line, or as a block without carriage returns and without a line that reads like the end tag. */
  predicate GoodValue(v: string, multiLine: bool) {
    if multiLine && IsMultiLineData(v) then
      NUL !in v && '\r' !in v && forall l | l in SplitLines(v) :: !SameName(l, END_TAG)
    else
      OneLine(v) && Trimmed(v) && (multiLine ==> !(OPENING <= v))
  }

  // A comment line, without its line break
  predicate CommentLine(l: string) {
    OneLine(l) && l != "" && IsComment(l[0])
  }

  // Comment lines with blank lines between them
  predicate CommentLines(lines: seq<string>) {
    && lines != [] && CommentLine(lines[0]) && CommentLine(lines[|lines|-1])
    && forall l | l in lines :: l == "" || CommentLine(l)
  }

  /** A comment of a section or a value that survives: comment lines and blank lines, a comment line at either end. */
  predicate GoodComment(c: string) {
    CommentLines(SplitLines(c))
  }

  /** A file comment that survives: comment lines only, since a blank line ends it. */
  predicate GoodFileComment(c: string) {
    forall l | l in SplitLines(c) :: CommentLine(l)
  }

  // ------------------------------------------------------------------
  // Pieces of a text

  ghost predicate At(t: string, i: nat, piece: string) {
    i + |piece| <= |t| && t[i..i+|piece|] == piece
  }

  lemma AtFits(t: string, i: nat, piece: string)
    requires At(t, i, piece)
    ensures i + |piece| <= |t|
  {
  }

  lemma AtSplit(t: string, i: nat, a: string, b: string)
    requires At(t, i, a + b)
    ensures At(t, i, a) && At(t, i + |a|, b)
  {
    assert t[i..i+|a|] == (a + b)[..|a|];
    assert t[i+|a|..i+|a|+|b|] == (a + b)[|a|..];
  }

  lemma AtChar(t: string, i: nat, piece: string, k: nat)
    requires At(t, i, piece) && k < |piece|
    ensures t[i + k] == piece[k]
  {
    assert t[i + k] == t[i..i+|piece|][k];
  }

  // A piece without stop characters before a stop character
  lemma ScanPiece(t: string, i: nat, piece: string, stop: set<char>)
    requires At(t, i, piece) && (forall c | c in piece :: c !in stop)
    requires i + |piece| < |t| ==> t[i + |piece|] in stop
    ensures FirstOf(t, i, stop) == i + |piece|
  {
    forall k | i <= k < i + |piece|
      ensures t[k] !in stop
    {
      AtChar(t, i, piece, k - i);
      assert piece[k - i] in piece;
    }
    FirstOfIs(t, i, stop, i + |piece|);
  }

  lemma LinePiece(t: string, i: nat, piece: string)
    requires At(t, i, piece) && OneLine(piece)
    requires i + |piece| < |t| ==> IsNewLineChar(t[i + |piece|])
    ensures LineEnd(t, i) == i + |piece|
  {
    ScanPiece(t, i, piece, NEWLINES);
  }

  lemma {:induction false} SkipPiece(t: string, i: nat, j: nat)
    requires i <= j <= |t| && forall k | i <= k < j :: IsSpace(t[k])
    ensures SkipSpaces(t, i) == SkipSpaces(t, j)
    decreases j - i
  {
    if i < j {
      SkipPiece(t, i + 1, j);
    }
  }

  // Trimming cuts the white space behind a trimmed piece, and no more
  lemma {:induction false} TrimPiece(t: string, lo: nat, piece: string, hi: nat)
    requires At(t, lo, piece) && Trimmed(piece) && lo + |piece| <= hi <= |t|
    requires forall k | lo + |piece| <= k < hi :: IsSpace(t[k])
    ensures TrimEnd(t, lo, hi) == lo + |piece|
    decreases hi
  {
    if lo + |piece| < hi {
      TrimPiece(t, lo, piece, hi - 1);
    } else if piece != "" {
      AtChar(t, lo, piece, |piece| - 1);
    }
  }

  lemma NoSpaces(t: string, i: nat)
    requires i < |t| && !IsSpace(t[i])
    ensures SkipSpaces(t, i) == i
  {
  }

  // A line, its newline, and what follows
  lemma LineThere(t: string, i: nat, line: string, tail: string)
    requires At(t, i, line + "\n" + tail) && OneLine(line)
    ensures At(t, i, line) && At(t, i + |line| + 1, tail)
    ensures LineEnd(t, i) == i + |line| && i + |line| < |t| && SkipNewLine(t, i + |line|) == i + |line| + 1
    ensures IsNewLineChar(t[i + |line|])
  {
    hide FirstOf;
    assert line + "\n" + tail == line + ("\n" + tail);
    AtSplit(t, i, line, "\n" + tail);
    AtSplit(t, i + |line|, "\n", tail);
    AtChar(t, i + |line|, "\n", 0);
    LinePiece(t, i, line);
  }

  lemma {:induction false} JoinSplit(v: string)
    ensures Join(SplitLines(v)) == v
    decreases |v|
  {
    var e := FirstOf(v, 0, {'\n'});
    if e < |v| {
      JoinSplit(v[e+1..]);
      assert v == v[..e] + "\n" + v[e+1..];
      var rest := SplitLines(v[e+1..]);
      assert ([v[..e]] + rest)[1..] == rest;
    }
  }

  lemma {:induction false} SplitIsOneLine(v: string)
    requires NUL !in v && '\r' !in v
    ensures forall l | l in SplitLines(v) :: OneLine(l)
    decreases |v|
  {
    var e := FirstOf(v, 0, {'\n'});
    assert OneLine(v[..e]) by {
      forall c | c in v[..e]
        ensures c != NUL && !IsNewLineChar(c)
      {
        var k :| 0 <= k < e && v[..e][k] == c;
        assert v[k] in v;
      }
    }
    if e < |v| {
      SplitIsOneLine(v[e+1..]);
    } else {
      assert v[..e] == v;
    }
  }
}
