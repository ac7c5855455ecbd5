/**
  Comments come back: a printed comment is read as itself, whether it stands in
  front of a section, of a value, or at the start of the text.
*/
module IniComments {
  import opened Options
  import opened IniText
  import opened IniParse
  import opened IniView
  import opened IniShapes

  // ------------------------------------------------------------------
  // Blank lines

  lemma {:induction false} OneMoreBlank(n: nat)
    ensures BlankLines(n + 1) == [""] + BlankLines(n)
  {
    if n > 0 {
      OneMoreBlank(n - 1);
      assert ([""] + BlankLines(n - 1)) + [""] == [""] + (BlankLines(n - 1) + [""]);
    }
  }

  // A newline in front of a comment, or of blank lines before one, is one blank line more
  lemma BlankStep(t: string, i: nat)
    requires i < |t| && t[i] == '\n' && SkipSpaces(t, i) < |t| && IsComment(t[SkipSpaces(t, i)])
    ensures var rest := CommentBlock(t, i + 1, true); CommentBlock(t, i, true) == Block([""] + rest.lines, rest.next)
  {
    hide LineEnd;
    var s := SkipSpaces(t, i);
    assert SkipSpaces(t, i + 1) == s && SkipNewLine(t, i) == i + 1;
    var n := Breaks(t, i + 1, s);
    assert Breaks(t, i, s) == n + 1;
    OneMoreBlank(n);
    var rest := CommentBlock(t, s, true);
    assert ([""] + BlankLines(n)) + rest.lines == [""] + (BlankLines(n) + rest.lines);
    if s == i + 1 {
      assert n == 0 && BlankLines(0) + rest.lines == rest.lines;
    }
  }

  // ------------------------------------------------------------------
  // The block of a printed comment

  // The lines from some line of a comment on
  predicate Remaining(lines: seq<string>) {
    && (lines != [] ==> CommentLine(lines[|lines|-1]))
    && forall l | l in lines :: l == "" || CommentLine(l)
  }

  lemma RemainingRest(lines: seq<string>)
    requires lines != [] && Remaining(lines)
    ensures lines == [lines[0]] + lines[1..] && Remaining(lines[1..]) && OneLine(lines[0])
    ensures if lines[0] == "" then lines[1..] != [] else CommentLine(lines[0])
  {
    assert lines[0] in lines;
    assert lines[0] == "" ==> |lines| > 1;
  }

  lemma UnlinesRest(l: string, rest: seq<string>)
    ensures Unlines([l] + rest) == l + "\n" + Unlines(rest) && |Unlines([l] + rest)| == |l| + 1 + |Unlines(rest)|
  {
    hide Unlines;
    UnlinesCons(l, rest);
  }

  // White space before the remaining lines leads to a comment line
  lemma {:induction false} BlanksLeadToComment(t: string, i: nat, lines: seq<string>)
    requires At(t, i, Unlines(lines)) && lines != [] && Remaining(lines)
    ensures var s := SkipSpaces(t, i); s < |t| && IsComment(t[s])
    decreases |lines|
  {
    hide *;
    var l, rest := lines[0], lines[1..];
    RemainingRest(lines);
    UnlinesRest(l, rest);
    LineThere(t, i, l, Unlines(rest));
    if l == "" {
      BlanksLeadToComment(t, i + 1, rest);
      AtNewline(t, i);
    } else {
      CommentAt(t, i, l);
    }
  }

  lemma AtNewline(t: string, i: nat)
    requires i < |t| && IsNewLineChar(t[i])
    ensures SkipSpaces(t, i) == SkipSpaces(t, i + 1)
  {
  }

  lemma CommentAt(t: string, i: nat, l: string)
    requires At(t, i, l) && i < |t| && CommentLine(l)
    ensures IsComment(t[i]) && SkipSpaces(t, i) == i
  {
    AtChar(t, i, l, 0);
  }

  // Where a block of comment lines ends
  predicate Stops(t: string, j: nat, blanks: bool)
    requires j <= |t|
  {
    var s := if blanks then SkipSpaces(t, j) else j;
    s < |t| ==> !IsComment(t[s])
  }

  lemma StopsThere(t: string, j: nat, blanks: bool)
    requires j <= |t| && Stops(t, j, blanks)
    ensures CommentBlock(t, j, blanks) == Block([], j)
  {
  }

  lemma CommentStep(t: string, i: nat, l: string, blanks: bool)
    requires At(t, i, l) && CommentLine(l) && LineEnd(t, i) == i + |l| < |t| && SkipNewLine(t, i + |l|) == i + |l| + 1
    ensures var rest := CommentBlock(t, i + |l| + 1, blanks); CommentBlock(t, i, blanks) == Block([l] + rest.lines, rest.next)
  {
    hide LineEnd, SkipNewLine, SkipSpaces;
    AtChar(t, i, l, 0);
  }

  lemma NewlineThere(t: string, i: nat, tail: string)
    requires At(t, i, "" + "\n" + tail)
    ensures i < |t| && t[i] == '\n'
  {
    assert "" + "\n" + tail == "\n" + tail;
    AtSplit(t, i, "\n", tail);
    AtChar(t, i, "\n", 0);
  }

  /** Printed comment lines are read back, blank lines between them only where they are kept. */
  lemma {:induction false} ParseCommentLines(t: string, i: nat, lines: seq<string>, blanks: bool)
    requires At(t, i, Unlines(lines)) && Remaining(lines) && (blanks || "" !in lines)
    requires i + |Unlines(lines)| <= |t| && Stops(t, i + |Unlines(lines)|, blanks)
    ensures CommentBlock(t, i, blanks) == Block(lines, i + |Unlines(lines)|)
    decreases |lines|
  {
    hide *;
    if lines == [] {
      NoLine();
      StopsThere(t, i, blanks);
    } else {
      var l, rest := lines[0], lines[1..];
      RemainingRest(lines);
      UnlinesRest(l, rest);
      LineThere(t, i, l, Unlines(rest));
      ParseCommentLines(t, i + |l| + 1, rest, blanks);
      if l == "" {
        NewlineThere(t, i, Unlines(rest));
        BlanksLeadToComment(t, i, lines);
        BlankStep(t, i);
      } else {
        CommentStep(t, i, l, blanks);
      }
    }
  }

  lemma NoLine()
    ensures Unlines([]) == ""
  {
  }

  lemma CommentIsUnlines(c: string)
    requires GoodComment(c) || GoodFileComment(c)
    ensures LinesText(c) == Unlines(SplitLines(c)) && Remaining(SplitLines(c)) && c != "" && (GoodFileComment(c) ==> "" !in SplitLines(c))
  {
    hide SplitLines, Unlines;
    var lines := SplitLines(c);
    assert lines[|lines|-1] in lines && lines[0] in lines;
    if c == "" {
      NothingToSplit();
    }
  }

  lemma NothingToSplit()
    ensures SplitLines("") == [""]
  {
  }

  /** A printed comment of a section or a value is read back, up to what it stands in front of. */
  lemma CommentThere(t: string, i: nat, c: string, multiLine: bool)
    requires GoodComment(c) && At(t, i, LinesText(c))
    requires var j := i + |LinesText(c)|; j < |t| && !IsSpace(t[j]) && !IsComment(t[j])
    ensures Find(t, i, Unchanged, None, multiLine) == Find(t, i + |LinesText(c)|, Unchanged, Some(c), multiLine)
  {
    hide GoodComment, LinesText, SplitLines, Unlines, CommentBlock, HeaderTurn, KeyTurn, Remaining, At, Join, IsComment;
    var lines, j := SplitLines(c), i + |LinesText(c)|;
    CommentIsUnlines(c);
    assert Stops(t, j, true);
    ParseCommentLines(t, i, lines, true);
    FirstIsComment(t, i, c);
    JoinSplit(c);
    assert CommentTurn(t, i, Unchanged) == Go(j, Unchanged, Some(c));
  }

  lemma FirstIsComment(t: string, i: nat, c: string)
    requires GoodComment(c) && At(t, i, LinesText(c))
    ensures i < |t| && IsComment(t[i]) && SkipSpaces(t, i) == i
  {
    hide *;
    var lines := SplitLines(c);
    CommentIsUnlines(c);
    FirstLineIsComment(c);
    RemainingRest(lines);
    UnlinesRest(lines[0], lines[1..]);
    LineThere(t, i, lines[0], Unlines(lines[1..]));
    CommentAt(t, i, lines[0]);
  }

  lemma FirstLineIsComment(c: string)
    requires GoodComment(c)
    ensures CommentLine(SplitLines(c)[0])
  {
  }

  /** A printed file comment is read back as the block that the text starts with. */
  lemma FileCommentThere(t: string, c: string)
    requires GoodFileComment(c) && At(t, 0, LinesText(c))
    requires var j := |LinesText(c)|; j < |t| ==> !IsComment(t[j])
    ensures CommentBlock(t, 0, false) == Block(SplitLines(c), |LinesText(c)|) && Join(SplitLines(c)) == c
  {
    hide GoodFileComment, LinesText, SplitLines, Unlines, CommentBlock, Remaining, Join;
    CommentIsUnlines(c);
    ParseCommentLines(t, 0, SplitLines(c), false);
    JoinSplit(c);
  }

  // ------------------------------------------------------------------
  // What the parser takes for a comment can be printed

  lemma CommentLineAt(t: string, i: nat)
    requires i < |t| && IsComment(t[i]) && NUL !in t
    ensures i < LineEnd(t, i) && CommentLine(t[i..LineEnd(t, i)])
  {
    var e := LineEnd(t, i);
    forall c | c in t[i..e]
      ensures c != NUL && !IsNewLineChar(c)
    {
      var k :| 0 <= k < e - i && t[i..e][k] == c;
      assert t[i + k] in t && t[i + k] !in NEWLINES;
    }
  }

  lemma {:induction false} BlanksAreEmpty(n: nat)
    ensures forall l | l in BlankLines(n) :: l == ""
  {
    if n > 0 {
      BlanksAreEmpty(n - 1);
    }
  }

  lemma RemainingAfter(front: seq<string>, lines: seq<string>)
    requires Remaining(lines) && lines != [] && forall l | l in front :: l == "" || CommentLine(l)
    ensures Remaining(front + lines)
  {
    hide CommentLine;
  }

  lemma RemainingOne(l: string)
    requires CommentLine(l)
    ensures Remaining([l])
  {
    hide CommentLine;
  }

  /** A block of comment lines begins and ends with a comment line, and has blank lines only where they are kept. */
  lemma {:induction false} BlockIsComment(t: string, i: nat, blanks: bool)
    requires i <= |t| && NUL !in t
    ensures var lines := CommentBlock(t, i, blanks).lines;
            && Remaining(lines) && (!blanks ==> "" !in lines)
            && (i < |t| && IsComment(t[i]) ==> lines != [] && CommentLine(lines[0]))
    decreases |t| - i
  {
    hide LineEnd, SkipSpaces, SkipNewLine, IsComment, CommentLine, Remaining;
    if i < |t| && IsComment(t[i]) {
      var e := LineEnd(t, i);
      CommentLineAt(t, i);
      RemainingOne(t[i..e]);
      if e < |t| {
        BlockIsComment(t, SkipNewLine(t, e), blanks);
        var rest := CommentBlock(t, SkipNewLine(t, e), blanks).lines;
        if rest == [] {
          assert [t[i..e]] + rest == [t[i..e]];
        } else {
          RemainingAfter([t[i..e]], rest);
        }
      }
    } else {
      NothingRemains();
      var s := SkipSpaces(t, i);
      if blanks && s < |t| && IsComment(t[s]) {
        CommentIsNoSpace(t, i, s);
        BlockIsComment(t, s, blanks);
        BlanksAreEmpty(Breaks(t, i, s));
        RemainingAfter(BlankLines(Breaks(t, i, s)), CommentBlock(t, s, blanks).lines);
      }
    }
  }

  lemma CommentIsNoSpace(t: string, i: nat, s: nat)
    requires i <= |t| && s == SkipSpaces(t, i) < |t| && IsComment(t[s]) && (i < |t| ==> !IsComment(t[i]))
    ensures i < s
  {
  }

  lemma NothingRemains()
    ensures Remaining([])
  {
  }

  lemma {:induction false} SplitJoin(lines: seq<string>)
    requires lines != [] && forall l | l in lines :: OneLine(l)
    ensures SplitLines(Join(lines)) == lines
  {
    var l, rest := lines[0], lines[1..];
    var v := Join(lines);
    assert l in lines;
    NoBreakIn(l);
    if rest == [] {
      FirstOfIs(v, 0, {'\n'}, |v|);
    } else {
      FirstOfIs(v, 0, {'\n'}, |l|);
      assert v[..|l|] == l && v[|l|+1..] == Join(rest);
      SplitJoin(rest);
    }
  }

  lemma NoBreakIn(l: string)
    requires OneLine(l)
    ensures forall k | 0 <= k < |l| :: l[k] != '\n'
  {
    assert forall k | 0 <= k < |l| :: l[k] in l;
  }

  lemma RemainingIsOneLine(lines: seq<string>)
    requires Remaining(lines)
    ensures forall l | l in lines :: OneLine(l)
  {
  }

  /** Whatever the parser takes for the comment of a section or a value can be printed and read back. */
  lemma CommentIsGood(t: string, i: nat)
    requires i < |t| && IsComment(t[i]) && NUL !in t
    ensures GoodComment(Join(CommentBlock(t, i, true).lines))
  {
    hide SplitLines, Join, CommentBlock, CommentLine;
    var lines := CommentBlock(t, i, true).lines;
    BlockIsComment(t, i, true);
    RemainingIsOneLine(lines);
    SplitJoin(lines);
  }

  /** The same for the file comment. */
  lemma FileCommentIsGood(t: string)
    requires NUL !in t && CommentBlock(t, 0, false).lines != []
    ensures GoodFileComment(Join(CommentBlock(t, 0, false).lines))
  {
    hide SplitLines, Join, CommentBlock, CommentLine;
    var lines := CommentBlock(t, 0, false).lines;
    BlockIsComment(t, 0, false);
    RemainingIsOneLine(lines);
    SplitJoin(lines);
  }
}
