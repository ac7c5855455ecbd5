/**
  Which values come back: a printed value, on its key's line or as an end-tagged
  block, is read as itself exactly when it has one of the shapes of GoodValue.
*/
module IniValues {
  import opened IniText
  import opened IniParse
  import opened IniView
  import opened IniShapes
  import opened IniReparse

  // A stretch of text between its first and its last visible character
  lemma TrimmedStretch(t: string, s: nat, e: nat, stop: set<char>)
    requires s < e <= |t| && !IsSpace(t[s]) && NUL !in t && NEWLINES <= stop
    requires forall k | s <= k < e :: t[k] !in stop
    ensures var name := t[s..TrimEnd(t, s, e)];
            name != "" && name[0] == t[s] && OneLine(name) && Trimmed(name) && forall c | c in stop :: c !in name
  {
    var r := TrimEnd(t, s, e);
    var name := t[s..r];
    forall c | c in name
      ensures c != NUL && !IsNewLineChar(c) && c !in stop
    {
      var k :| 0 <= k < |name| && name[k] == c;
      assert name[k] == t[s + k] && t[s + k] in t;
    }
  }

  lemma {:induction false} BlanksEnd(t: string, i: nat)
    requires i <= |t|
    ensures var v := SkipBlanks(t, i); v < |t| ==> !IsSpace(t[v]) || IsNewLineChar(t[v])
    decreases |t| - i
  {
    if i < |t| && IsSpace(t[i]) && !IsNewLineChar(t[i]) {
      BlanksEnd(t, i + 1);
    }
  }

  /** In single-line mode every value that is read is one that can be written back. */
  lemma LineValueIsGood(t: string, i: nat)
    requires i <= |t| && NUL !in t
    ensures ValueAt(t, i, false).Parsed? && GoodValue(ValueAt(t, i, false).text, false)
  {
    hide TrimEnd, SkipBlanks, IsMultiLineData;
    var v := SkipBlanks(t, i);
    var e := LineEnd(t, v);
    BlanksEnd(t, i);
    if v < e {
      TrimmedStretch(t, v, e, NEWLINES);
    } else {
      assert TrimEnd(t, v, e) == v;
      assert t[v..v] == "";
    }
  }

  // ------------------------------------------------------------------
  // Blocks

  lemma {:induction false} BlockLinesAreLines(t: string, i: nat, tag: string)
    requires i <= |t| && NUL !in t
    ensures forall l | l in TagBlock(t, i, tag).lines :: OneLine(l)
    decreases |t| - i
  {
    hide SameName, FirstOf;
    var e := LineEnd(t, i);
    if !SameName(t[i..e], tag) {
      SliceIsLine(t, i, e);
      if e < |t| {
        BlockLinesAreLines(t, SkipNewLine(t, e), tag);
      }
    }
  }

  lemma SliceIsLine(t: string, i: nat, e: nat)
    requires i <= e <= |t| && NUL !in t && forall k | i <= k < e :: !IsNewLineChar(t[k])
    ensures OneLine(t[i..e])
  {
    forall c | c in t[i..e]
      ensures c != NUL && !IsNewLineChar(c)
    {
      var k :| 0 <= k < e - i && t[i..e][k] == c;
      assert t[i + k] in t;
    }
  }

  lemma {:induction false} JoinedLines(lines: seq<string>)
    requires forall l | l in lines :: OneLine(l)
    ensures NUL !in Join(lines) && '\r' !in Join(lines)
  {
    if |lines| > 1 {
      JoinedLines(lines[1..]);
    }
    assert lines != [] ==> lines[0] in lines;
  }

  /** A block with a line that reads like its end tag is cut there. */
  lemma {:induction false} CutBlock(t: string, i: nat, lines: seq<string>, tag: string, k: nat)
    requires At(t, i, Unlines(lines) + tag + "\n") && k < |lines| && SameName(lines[k], tag)
    requires forall l | l in lines :: OneLine(l)
    ensures var taken := TagBlock(t, i, tag).lines; |taken| <= k && taken == lines[..|taken|]
    decreases k
  {
    hide *;
    var l, rest := lines[0], lines[1..];
    assert lines == [l] + rest && l in lines;
    BlockParts(l, rest, tag);
    LineThere(t, i, l, Unlines(rest) + tag + "\n");
    TagBlockStep(t, i, l, tag);
    if !SameName(l, tag) {
      assert k > 0 && rest[k-1] == lines[k];
      CutBlock(t, i + |l| + 1, rest, tag, k - 1);
      var taken := TagBlock(t, i + |l| + 1, tag).lines;
      assert [l] + rest[..|taken|] == lines[..|taken| + 1];
    }
  }

  lemma {:induction false} FewerLines(lines: seq<string>, k: nat)
    requires k <= |lines|
    ensures |Unlines(lines[..k])| + |lines| - k <= |Unlines(lines)|
    decreases |lines|
  {
    if k < |lines| {
      FewerLines(lines[..|lines|-1], k);
      assert lines[..|lines|-1][..k] == lines[..k];
    } else {
      assert lines[..k] == lines;
    }
  }

  // A block that was cut joins to a shorter text
  lemma CutIsShorter(lines: seq<string>, k: nat)
    requires 0 < k < |lines|
    ensures |Join(lines[..k])| < |Join(lines)|
  {
    hide Join, Unlines;
    FewerLines(lines, k);
    UnlinesIsJoin(lines[..k]);
    UnlinesIsJoin(lines);
  }

  // What the parser makes of a printed block
  lemma BlockThere(t: string, i: nat, gap: string, v: string, fmt: Format)
    requires (gap == "" || gap == " ") && fmt.multiLine && IsMultiLineData(v) && At(t, i, gap + ValueText(v, fmt) + "\n")
    ensures var n := i + |gap| + |OPENING + END_TAG| + 1;
            && n <= |t| && At(t, n, Unlines(SplitLines(v)) + END_TAG + "\n")
            && ValueAt(t, i, true) == BlockValue(t, n, TagBlock(t, n, END_TAG))
  {
    hide *;
    LongText(gap, v, fmt);
    TagLineIsLine();
    LineValueThere(t, i, gap, OPENING + END_TAG, Unlines(SplitLines(v)) + END_TAG + "\n");
    OpenedBlock(t, i, i + |gap|, END_TAG);
  }

  lemma TagLineIsLine()
    ensures OneLine(OPENING + END_TAG) && Trimmed(OPENING + END_TAG)
  {
  }

  lemma OpenedBlock(t: string, i: nat, v: nat, tag: string)
    requires i <= |t| && SkipBlanks(t, i) == v && LineValue(t, v) == OPENING + tag
    ensures var n := AfterLine(t, LineEnd(t, v)); ValueAt(t, i, true) == BlockValue(t, n, TagBlock(t, n, tag))
  {
    hide TagBlock, SkipBlanks, LineEnd, LineValue, Join;
    assert (OPENING + tag)[3..] == tag && OPENING <= OPENING + tag;
  }

  // The value that a block of lines stands for
  function BlockValue(t: string, n: nat, block: Block): Value
    requires n <= |t|
  {
    if block.lines != [] then Parsed(Join(block.lines), block.next)
    else if LineEnd(t, n) == n then NoValue
    else Bodyless
  }

  /** A printed block gives its value back exactly when the value has no carriage return and no line that reads like the end tag. */
  lemma BlockSurvivesIff(t: string, i: nat, gap: string, v: string, fmt: Format)
    requires NUL !in t && (gap == "" || gap == " ") && fmt.multiLine && IsMultiLineData(v)
    requires At(t, i, gap + ValueText(v, fmt) + "\n")
    ensures var r := ValueAt(t, i, true); r.Parsed? && r.text == v <==> GoodValue(v, true)
  {
    hide ValueAt, ValueText, TagBlock, Join, Unlines, SplitLines, SameName, OneLine, IsMultiLineData, LineEnd;
    var n := i + |gap| + |OPENING + END_TAG| + 1;
    BlockThere(t, i, gap, v, fmt);
    if GoodValue(v, true) {
      ParseValue(t, i, gap, v, fmt);
    } else {
      var taken, lines := TagBlock(t, n, END_TAG).lines, SplitLines(v);
      BlockLinesAreLines(t, n, END_TAG);
      JoinedLines(taken);
      if NUL !in v && '\r' !in v {
        SplitIsOneLine(v);
        var k :| 0 <= k < |lines| && SameName(lines[k], END_TAG);
        CutBlock(t, n, lines, END_TAG, k);
        JoinSplit(v);
        if taken != [] {
          CutIsShorter(lines, |taken|);
        }
      }
    }
  }

  // ------------------------------------------------------------------
  // Lines

  // A value on its key's line that opens a block instead
  lemma OpeningIsNoValue(t: string, i: nat, gap: string, v: string)
    requires (gap == "" || gap == " ") && OneLine(v) && Trimmed(v) && OPENING <= v && At(t, i, gap + v + "\n")
    ensures ValueAt(t, i, true) != Parsed(v, i + |gap| + |v| + 1)
  {
    hide SkipBlanks, LineValue, SameName, FirstOf;
    assert gap + v + "\n" == gap + v + "\n" + "";
    LineValueThere(t, i, gap, v, "");
    var n := i + |gap| + |v| + 1;
    var e := LineEnd(t, n);
    assert v[0] == '<';
    if e == |t| == n {
      assert t[n..n] == "";
    }
  }

  lemma ShortIsLine(v: string)
    requires NUL !in v && !IsMultiLineData(v)
    ensures OneLine(v) && Trimmed(v)
  {
  }

  /**
    A printed value is read back, with the cursor behind its line or its block,
    exactly when it has one of the shapes of GoodValue for the mode.
  */
  lemma ValueSurvivesIff(t: string, i: nat, gap: string, v: string, fmt: Format)
    requires NUL !in t && (gap == "" || gap == " ") && At(t, i, gap + ValueText(v, fmt) + "\n")
    ensures ValueAt(t, i, fmt.multiLine) == Parsed(v, i + |gap| + |ValueText(v, fmt)| + 1) <==> GoodValue(v, fmt.multiLine)
  {
    hide ValueAt, OneLine, Trimmed, IsMultiLineData, LinesText, SplitLines, SameName;
    if GoodValue(v, fmt.multiLine) {
      ParseValue(t, i, gap, v, fmt);
    } else if !fmt.multiLine {
      LineValueIsGood(t, i);
    } else if IsMultiLineData(v) {
      BlockSurvivesIff(t, i, gap, v, fmt);
    } else {
      PieceHasNoNul(t, i, gap, v);
      ShortIsLine(v);
      OpeningIsNoValue(t, i, gap, v);
    }
  }

  lemma PieceHasNoNul(t: string, i: nat, gap: string, v: string)
    requires NUL !in t && At(t, i, gap + v + "\n")
    ensures NUL !in v
  {
    var piece := gap + v + "\n";
    forall k | 0 <= k < |v|
      ensures v[k] != NUL
    {
      assert piece[|gap| + k] == v[k];
      AtChar(t, i, piece, |gap| + k);
      assert t[i + |gap| + k] in t;
    }
  }

  // ------------------------------------------------------------------
  // A value that does not survive

  const SMALL_TAG := "si-end-of-multiline-text"

  lemma SmallTag()
    ensures SameName(SMALL_TAG, END_TAG) && OneLine(SMALL_TAG) && END_TAG != ""
  {
    hide LoCase, Fold, SameName;
    SmallLetters();
    SameWord(SMALL_TAG, END_TAG);
  }

  lemma SameWord(a: string, b: string)
    requires |a| == |b| && forall k | 0 <= k < |a| :: LoCase(a[k]) == LoCase(b[k])
    ensures SameName(a, b)
  {
  }

  lemma SmallLetters()
    ensures LoCase('d') == LoCase('D') && LoCase('e') == LoCase('E') && LoCase('f') == LoCase('F') && LoCase('i') == LoCase('I')
    ensures LoCase('l') == LoCase('L') && LoCase('m') == LoCase('M') && LoCase('n') == LoCase('N') && LoCase('o') == LoCase('O')
    ensures LoCase('s') == LoCase('S') && LoCase('t') == LoCase('T') && LoCase('u') == LoCase('U') && LoCase('x') == LoCase('X')
  {
  }

  lemma TwoLines(tag: string)
    requires '\n' !in tag
    ensures SplitLines("\n" + tag) == ["", tag]
  {
    var v := "\n" + tag;
    assert v[..0] == "" && v[1..] == tag;
    FirstOfIs(v, 0, {'\n'}, 0);
    FirstOfIs(tag, 0, {'\n'}, |tag|);
  }

  /** The end tag in small letters ends the block too: of a value whose second line it is, only the empty first line comes back. */
  lemma TagInOtherCaseIsLost(t: string, i: nat, gap: string, fmt: Format)
    requires NUL !in t && (gap == "" || gap == " ") && fmt.multiLine && At(t, i, gap + ValueText("\n" + SMALL_TAG, fmt) + "\n")
    ensures ValueAt(t, i, true).Parsed? && ValueAt(t, i, true).text == "" != "\n" + SMALL_TAG
  {
    hide ValueAt, ValueText, TagBlock, Unlines, SplitLines, SameName, LineEnd, END_TAG, SMALL_TAG;
    var v := "\n" + SMALL_TAG;
    var n := i + |gap| + |OPENING + END_TAG| + 1;
    assert v[0] == '\n' && IsMultiLineData(v);
    BlockThere(t, i, gap, v, fmt);
    SmallTag();
    TwoLines(SMALL_TAG);
    EmptyFirstLine(t, n, SMALL_TAG, END_TAG);
  }

  // An empty line, then one that reads like the tag
  lemma EmptyFirstLine(t: string, n: nat, line: string, tag: string)
    requires At(t, n, Unlines(["", line]) + tag + "\n") && OneLine(line) && SameName(line, tag) && tag != ""
    ensures TagBlock(t, n, tag).lines == [""]
  {
    hide *;
    assert [""] + [line] == ["", line];
    NotTheTag(tag);
    CutBlock(t, n, ["", line], tag, 1);
    BlockParts("", [line], tag);
    LineThere(t, n, "", Unlines([line]) + tag + "\n");
    TagBlockStep(t, n, "", tag);
  }

  lemma NotTheTag(tag: string)
    requires tag != ""
    ensures !SameName("", tag) && OneLine("")
  {
    assert |Fold("")| != |Fold(tag)|;
  }
}
