/**
  Reading in characters, continued: comments of several lines and multi-line
  values, with any of the three line breaks between their lines.
*/
module IniBlocks {
  import opened Options
  import opened IniText
  import opened IniParse
  import opened IniShapes
  import opened IniComments
  import opened IniValues
  import opened IniCharacters
  import opened IniLines

  const BREAKS := ["\n", "\r", "\r\n"]

  /** Lines, each with the same line break behind it. */
  function Lines(lines: seq<string>, b: string): string {
    if lines == [] then "" else lines[0] + b + Lines(lines[1..], b)
  }

  // No newline behind that would belong to the last line break
  ghost predicate Ends(t: string, j: nat, b: string) {
    j < |t| ==> !(b == "\r" && t[j] == '\n')
  }

  /** A stored text of several lines is what its lines are with newlines between them. */
  lemma {:induction false} JoinInCharacters(lines: seq<string>)
    requires lines != []
    ensures Join(lines) + "\n" == Lines(lines, "\n")
  {
    if |lines| == 1 {
      assert lines[1..] == [] && lines[0] + "\n" + "" == lines[0] + "\n";
    } else {
      JoinInCharacters(lines[1..]);
      assert lines[0] + "\n" + (Join(lines[1..]) + "\n") == (lines[0] + "\n" + Join(lines[1..])) + "\n";
    }
  }

  // The first line of several, its break, and the other lines
  lemma LinesStep(t: string, i: nat, lines: seq<string>, b: string, tail: string)
    requires lines != [] && At(t, i, Lines(lines, b) + tail) && b in BREAKS && Without(lines[0], {'\n', '\r'})
    requires var j := i + |lines[0]| + |b|; Ends(t, j, b)
    ensures var j := i + |lines[0]| + |b|;
            && j <= |t| && At(t, i, lines[0]) && At(t, j, Lines(lines[1..], b) + tail) && |Lines(lines, b)| == |lines[0]| + |b| + |Lines(lines[1..], b)|
            && LineEnd(t, i) == i + |lines[0]| < |t| && SkipNewLine(t, i + |lines[0]|) == j && t[i..i+|lines[0]|] == lines[0]
  {
    hide *;
    var l, rest := lines[0], lines[1..];
    LinesParts(lines, b, tail);
    AtSplit(t, i, l, b + (Lines(rest, b) + tail));
    AtSplit(t, i + |l|, b, Lines(rest, b) + tail);
    WholeBreak(t, i + |l|, b);
    WithoutAt(t, i, l, {'\n', '\r'});
    LineEndsAt(t, i, i + |l|, b);
    LastLineThere(t, i, l, b);
  }

  lemma LinesParts(lines: seq<string>, b: string, tail: string)
    requires lines != []
    ensures Lines(lines, b) + tail == lines[0] + (b + (Lines(lines[1..], b) + tail))
    ensures |Lines(lines, b)| == |lines[0]| + |b| + |Lines(lines[1..], b)|
  {
  }

  lemma WholeBreak(t: string, p: nat, b: string)
    requires At(t, p, b) && b in BREAKS && Ends(t, p + |b|, b)
    ensures BreakAt(t, p, b) && p < |t| && SkipNewLine(t, p) == p + |b| == AfterLine(t, p)
  {
    AtFits(t, p, b);
    BreakIs(t, p, b);
  }

  // What starts one of the lines, or is behind them
  lemma LinesEnd(t: string, j: nat, lines: seq<string>, b: string, tail: string)
    requires b in BREAKS && At(t, j, Lines(lines, b) + tail) && Ends(t, j + |Lines(lines, b) + tail|, b)
    requires forall l | l in lines :: Without(l, {'\n', '\r'})
    requires tail == "" || tail[0] != '\n'
    ensures Ends(t, j, b)
  {
    var s := Lines(lines, b) + tail;
    if s == "" {
    } else {
      AtChar(t, j, s, 0);
      if lines != [] {
        assert lines[0] in lines;
        if lines[0] != "" {
          assert lines[0][0] in lines[0];
          assert s[0] == lines[0][0];
        } else {
          assert s[0] == b[0];
        }
      } else {
        assert s == tail;
      }
    }
  }

  // ------------------------------------------------------------------
  // Multi-line values

  lemma TakesLine(t: string, i: nat, l: string, j: nat, tag: string)
    requires i <= |t| && LineEnd(t, i) == i + |l| < |t| && SkipNewLine(t, i + |l|) == j && t[i..i+|l|] == l && !SameName(l, tag)
    ensures TagBlock(t, i, tag) == Block([l] + TagBlock(t, j, tag).lines, TagBlock(t, j, tag).next)
  {
    hide LineEnd, SkipNewLine, SameName;
  }

  lemma NoMoreLines(b: string, tail: string)
    ensures Lines([], b) + tail == tail
  {
  }

  lemma LastLineThere(t: string, i: nat, l: string, b: string)
    requires At(t, i, l) && Without(l, {'\n', '\r'}) && BreakAt(t, i + |l|, b)
    ensures i + |l| <= |t| && LineEnd(t, i) == i + |l| && AfterLine(t, i + |l|) == i + |l| + |b| && t[i..i+|l|] == l
    ensures b == "" <==> i + |l| == |t|
  {
    hide AfterLine, LineEnd, Without, BreakAt;
    WithoutAt(t, i, l, {'\n', '\r'});
    BreakIs(t, i + |l|, b);
    LineEndsAt(t, i, i + |l|, b);
  }

  // The end of a block: a line that reads like the tag, or the last line of the text
  lemma BlockEnds(t: string, i: nat, l: string, tag: string, b: string)
    requires At(t, i, l) && Without(l, {'\n', '\r'}) && BreakAt(t, i + |l|, b)
    requires SameName(l, tag) || b == ""
    ensures i <= |t| && TagBlock(t, i, tag) == Block(if SameName(l, tag) then [] else [l], i + |l| + |b|)
  {
    hide SameName, AfterLine, LineEnd, Without, BreakAt, At;
    AtFits(t, i, l);
    LastLineThere(t, i, l, b);
  }

  lemma {:induction false} TakesLines(t: string, i: nat, lines: seq<string>, b: string, l: string, tag: string, b': string)
    requires b in BREAKS && At(t, i, Lines(lines, b) + l) && BreakAt(t, i + |Lines(lines, b) + l|, b') && (b' == "" || b' == b)
    requires (forall x | x in lines :: Without(x, {'\n', '\r'}) && !SameName(x, tag)) && Without(l, {'\n', '\r'})
    requires SameName(l, tag) || b' == ""
    ensures i <= |t| && TagBlock(t, i, tag) == Block(lines + (if SameName(l, tag) then [] else [l]), i + |Lines(lines, b) + l| + |b'|)
    decreases |lines|
  {
    hide *;
    if lines == [] {
      NoMoreLines(b, l);
      BlockEnds(t, i, l, tag, b');
    } else {
      var x, rest := lines[0], lines[1..];
      assert x in lines && lines == [x] + rest;
      NoCutBreak(t, i, lines, b, l, b');
      LinesStep(t, i, lines, b, l);
      TakesLines(t, i + |x| + |b|, rest, b, l, tag, b');
      TakesLine(t, i, x, i + |x| + |b|, tag);
    }
  }

  // No line break is cut in two
  lemma NoCutBreak(t: string, i: nat, lines: seq<string>, b: string, l: string, b': string)
    requires lines != [] && b in BREAKS && At(t, i, Lines(lines, b) + l) && BreakAt(t, i + |Lines(lines, b) + l|, b') && (b' == "" || b' == b)
    requires (forall x | x in lines :: Without(x, {'\n', '\r'})) && Without(l, {'\n', '\r'})
    ensures Ends(t, i + |lines[0]| + |b|, b)
  {
    hide Without;
    var x, rest := lines[0], lines[1..];
    var j := i + |x| + |b|;
    assert Lines(lines, b) + l == (x + b) + (Lines(rest, b) + l);
    AtSplit(t, i, x + b, Lines(rest, b) + l);
    var p := i + |Lines(lines, b) + l|;
    if b' != "" {
      AtChar(t, p, b', 0);
    }
    if l != "" {
      FirstStays(l, {'\n', '\r'});
    }
    LinesEnd(t, j, rest, b, l);
  }

  // The line that opens a block
  lemma OpenerIsRead(t: string, i: nat, h: string, tag: string, z: string, b: string)
    requires At(t, i, h + ("<<<" + tag) + z) && BreakAt(t, i + |h + ("<<<" + tag) + z|, b)
    requires Blank(h) && OnLine("<<<" + tag) && Tight("<<<" + tag) && Blank(z)
    ensures var n := i + |h + ("<<<" + tag) + z| + |b|; n <= |t| && ValueAt(t, i, true) == BlockValue(t, n, TagBlock(t, n, tag))
  {
    hide *;
    var line := "<<<" + tag;
    var p := i + |h + line + z|;
    RestParts(t, i, h, line, z);
    BreakIs(t, p, b);
    LineEndsAt(t, i + |h|, p, b);
    BlankSkips(t, i, i + |h|);
    TrimsTo(t, i + |h|, line, p);
    LineValueFrom(t, i + |h|, line, p);
    OpeningIs(tag);
    OpenedBlock(t, i, i + |h|, tag);
  }

  lemma LineValueFrom(t: string, v: nat, line: string, p: nat)
    requires v <= |t| && LineEnd(t, v) == p && TrimEnd(t, v, p) == v + |line| <= |t| && t[v..v+|line|] == line
    ensures LineValue(t, v) == line
  {
    hide LineEnd, TrimEnd;
  }

  lemma OpeningIs(tag: string)
    ensures OPENING + tag == "<<<" + tag
  {
  }

  /** What a block of lines stands for, its last line being the end tag's or the end of the text. */
  ghost predicate BlockStandsFor(lines: seq<string>, l: string, tag: string, atEnd: bool, v: string) {
    if SameName(l, tag) then lines != [] && v + "\n" == Lines(lines, "\n")
    else atEnd && v == Lines(lines, "\n") + l
  }

  lemma BlockJoins(lines: seq<string>, l: string, tag: string, atEnd: bool, v: string)
    requires BlockStandsFor(lines, l, tag, atEnd, v)
    ensures var taken := lines + (if SameName(l, tag) then [] else [l]); taken != [] && Join(taken) == v
  {
    hide SameName, Join, Lines;
    if SameName(l, tag) {
      JoinInCharacters(lines);
      assert lines + [] == lines;
      assert (Join(lines) + "\n")[..|Join(lines)|] == Join(lines) && (v + "\n")[..|v|] == v;
    } else {
      JoinInCharacters(lines + [l]);
      LinesSnoc(lines, l, "\n");
      assert (Join(lines + [l]) + "\n")[..|Join(lines + [l])|] == Join(lines + [l]);
      assert (Lines(lines, "\n") + l + "\n")[..|v|] == v;
    }
  }

  lemma {:induction false} LinesSnoc(lines: seq<string>, l: string, b: string)
    ensures Lines(lines + [l], b) == Lines(lines, b) + l + b
  {
    if lines == [] {
      assert lines + [l] == [l] && [l][1..] == [];
      assert l + b + "" == "" + l + b;
    } else {
      LinesSnoc(lines[1..], l, b);
      assert (lines + [l])[1..] == lines[1..] + [l];
      assert lines[0] + b + (Lines(lines[1..], b) + l + b) == (lines[0] + b + Lines(lines[1..], b)) + l + b;
    }
  }

  lemma BlockIsParsed(t: string, n: nat, block: Block)
    requires n <= |t| && block.lines != []
    ensures BlockValue(t, n, block) == Parsed(Join(block.lines), block.next)
  {
  }

  /**
    A multi-line value is read as its lines with newlines between them, whatever
    line breaks the text has: up to the line that reads like the tag, or up to the
    end of the text when there is none.
  */
  lemma BlockIsRead(t: string, i: nat, w: string, k: string, g: string, h: string, tag: string, z: string, b: string,
                    lines: seq<string>, l: string, b': string, v: string, comment: Option<string>)
    requires b in BREAKS && (b' == "" || b' == b)
    requires var front := w + (k + g + "=") + (h + ("<<<" + tag) + z);
             && At(t, i, front) && BreakAt(t, i + |front|, b) && At(t, i + |front| + |b|, Lines(lines, b) + l)
             && BreakAt(t, i + |front| + |b| + |Lines(lines, b) + l|, b')
    requires White(w) && ReadsAsKey(k) && Blank(g) && Blank(h) && OnLine("<<<" + tag) && Tight("<<<" + tag) && Blank(z)
    requires (forall x | x in lines :: Without(x, {'\n', '\r'}) && !SameName(x, tag)) && Without(l, {'\n', '\r'})
    requires BlockStandsFor(lines, l, tag, b' == "", v)
    ensures Find(t, i, Unchanged, comment, true)
         == Pair(Unchanged, k, v, comment, i + |w + (k + g + "=") + (h + ("<<<" + tag) + z)| + |b| + |Lines(lines, b) + l| + |b'|)
  {
    hide *;
    var head := w + (k + g + "=");
    var n := i + |head + (h + ("<<<" + tag) + z)| + |b|;
    AtSplit(t, i, head, h + ("<<<" + tag) + z);
    OpenerIsRead(t, i + |head|, h, tag, z, b);
    StandsForSome(lines, l, tag, b' == "", v);
    TakesLines(t, n, lines, b, l, tag, b');
    BlockJoins(lines, l, tag, b' == "", v);
    BlockIsParsed(t, n, TagBlock(t, n, tag));
    KeyLine(t, i, w, k, g, Unchanged, comment, true);
    NotPending(t, Unchanged, i + |w + k|);
  }

  /** A block whose first line ends it has no value: an empty line ends the whole parse, any other one is misread. */
  lemma BlockWithoutLines(t: string, i: nat, w: string, k: string, g: string, h: string, tag: string, z: string, b: string,
                          l: string, b': string, comment: Option<string>)
    requires b in BREAKS
    requires var front := w + (k + g + "=") + (h + ("<<<" + tag) + z);
             && At(t, i, front) && BreakAt(t, i + |front|, b) && At(t, i + |front| + |b|, l) && BreakAt(t, i + |front| + |b| + |l|, b')
    requires White(w) && ReadsAsKey(k) && Blank(g) && Blank(h) && OnLine("<<<" + tag) && Tight("<<<" + tag) && Blank(z)
    requires Without(l, {'\n', '\r'}) && SameName(l, tag)
    ensures Find(t, i, Unchanged, comment, true) == if l == "" then End else BodylessPair
  {
    hide *;
    var head := w + (k + g + "=");
    var n := i + |head + (h + ("<<<" + tag) + z)| + |b|;
    AtSplit(t, i, head, h + ("<<<" + tag) + z);
    OpenerIsRead(t, i + |head|, h, tag, z, b);
    BlockEnds(t, n, l, tag, b');
    LastLineThere(t, n, l, b');
    BlockIsEmpty(t, n, TagBlock(t, n, tag), l);
    KeyLine(t, i, w, k, g, Unchanged, comment, true);
  }

  lemma BlockIsEmpty(t: string, n: nat, block: Block, l: string)
    requires n <= |t| && block.lines == [] && LineEnd(t, n) == n + |l|
    ensures BlockValue(t, n, block) == if l == "" then NoValue else Bodyless
  {
    hide LineEnd;
  }

  lemma StandsForSome(lines: seq<string>, l: string, tag: string, atEnd: bool, v: string)
    requires BlockStandsFor(lines, l, tag, atEnd, v)
    ensures SameName(l, tag) || atEnd
  {
    hide SameName;
  }

  // ------------------------------------------------------------------
  // Comments

  // Comment lines and empty ones, the last one a comment
  predicate Rest(lines: seq<string>) {
    && (lines != [] ==> lines[|lines|-1] != "")
    && forall l | l in lines :: l != "" ==> Without(l, {'\n', '\r'}) && l[0] in {';', '#'}
  }

  lemma RestOfComment(lines: seq<string>)
    requires Rest(lines) && lines != []
    ensures Rest(lines[1..]) && Without(lines[0], {'\n', '\r'}) && lines == [lines[0]] + lines[1..]
    ensures lines[0] == "" ==> lines[1..] != []
    ensures lines[0] != "" ==> lines[0][0] in {';', '#'}
    ensures forall x | x in lines :: Without(x, {'\n', '\r'})
  {
    hide Without;
    EmptyWithout();
    assert lines[0] in lines;
  }

  lemma EmptyWithout()
    ensures Without("", {'\n', '\r'})
  {
  }

  // White space up to something that is no comment
  ghost predicate NoCommentAt(t: string, j: nat) {
    j <= |t| && var s := SkipSpaces(t, j); s < |t| ==> t[s] !in {';', '#'}
  }

  lemma CommentLineStep(t: string, i: nat, l: string, j: nat)
    requires i <= |t| && l != "" && l[0] in {';', '#'} && At(t, i, l)
    requires LineEnd(t, i) == i + |l| < |t| && SkipNewLine(t, i + |l|) == j && t[i..i+|l|] == l
    ensures CommentBlock(t, i, true) == Block([l] + CommentBlock(t, j, true).lines, CommentBlock(t, j, true).next)
    ensures SkipSpaces(t, i) == i && t[i] in {';', '#'}
  {
    hide LineEnd, SkipNewLine;
    AtChar(t, i, l, 0);
  }

  // An empty line in front of a comment line, or of more empty ones before it
  lemma EmptyLineStep(t: string, i: nat, j: nat)
    requires i < j <= |t| && i < |t| && t[i] in {'\n', '\r'} && SkipNewLine(t, i) == j
    requires SkipSpaces(t, j) < |t| && t[SkipSpaces(t, j)] in {';', '#'}
    ensures SkipSpaces(t, i) == SkipSpaces(t, j)
    ensures CommentBlock(t, i, true) == Block([""] + CommentBlock(t, j, true).lines, CommentBlock(t, j, true).next)
  {
    hide LineEnd;
    var s := SkipSpaces(t, j);
    SkipPiece(t, i, j);
    var n := Breaks(t, j, s);
    assert Breaks(t, i, s) == n + 1;
    OneMoreBlank(n);
    var rest := CommentBlock(t, s, true);
    assert ([""] + BlankLines(n)) + rest.lines == [""] + (BlankLines(n) + rest.lines);
    if s == j {
      assert n == 0 && BlankLines(0) + rest.lines == rest.lines;
    }
  }

  lemma NoCommentBlock(t: string, i: nat)
    requires NoCommentAt(t, i)
    ensures CommentBlock(t, i, true) == Block([], i)
  {
  }

  lemma AddNothing(t: string, i: nat, s: string)
    ensures At(t, i, s) <==> At(t, i, s + "")
    ensures s + "" == s
  {
  }

  lemma EndsBefore(t: string, i: nat, lines: seq<string>, b: string)
    requires lines != [] && b in BREAKS && At(t, i, Lines(lines, b)) && Ends(t, i + |Lines(lines, b)|, b)
    requires forall x | x in lines :: Without(x, {'\n', '\r'})
    ensures Ends(t, i + |lines[0]| + |b|, b)
  {
    hide Without, At, BREAKS;
    var x, rest := lines[0], lines[1..];
    assert Lines(lines, b) == (x + b) + Lines(rest, b);
    AtSplit(t, i, x + b, Lines(rest, b));
    AddNothing(t, i + |x| + |b|, Lines(rest, b));
    LinesEnd(t, i + |x| + |b|, rest, b, "");
  }

  lemma BreakHere(t: string, i: nat)
    requires i <= |t| && LineEnd(t, i) == i < |t|
    ensures t[i] in {'\n', '\r'}
  {
  }

  lemma {:induction false} CommentLinesAreRead(t: string, i: nat, lines: seq<string>, b: string)
    requires b in BREAKS && At(t, i, Lines(lines, b)) && Rest(lines) && Ends(t, i + |Lines(lines, b)|, b)
    requires NoCommentAt(t, i + |Lines(lines, b)|)
    ensures i <= |t| && CommentBlock(t, i, true) == Block(lines, i + |Lines(lines, b)|)
    ensures lines != [] ==> SkipSpaces(t, i) < |t| && t[SkipSpaces(t, i)] in {';', '#'}
    decreases |lines|
  {
    hide *;
    if lines == [] {
      NoMoreLines(b, "");
      NoCommentBlock(t, i);
    } else {
      var l, rest := lines[0], lines[1..];
      RestOfComment(lines);
      AddNothing(t, i, Lines(lines, b));
      AddNothing(t, i + |l| + |b|, Lines(rest, b));
      EndsBefore(t, i, lines, b);
      LinesStep(t, i, lines, b, "");
      CommentLinesAreRead(t, i + |l| + |b|, rest, b);
      if l == "" {
        BreakHere(t, i);
        EmptyLineStep(t, i, i + |b|);
      } else {
        CommentLineStep(t, i, l, i + |l| + |b|);
      }
    }
  }

  lemma CommentTurnIs(t: string, s: nat, lines: seq<string>, next: nat, c: string, sec: SectionRef, comment: Option<string>, multiLine: bool)
    requires s < |t| && t[s] in {';', '#'} && (sec.Unclosed? ==> sec.start <= s)
    requires CommentBlock(t, s, true) == Block(lines, next) && lines != [] && c + "\n" == Lines(lines, "\n")
    ensures !IsSpace(t[s]) && TurnAt(t, s, sec, comment, multiLine) == Go(next, Close(t, sec, s, c), Some(c))
  {
    hide CommentBlock, Join, Lines, Close;
    JoinInCharacters(lines);
    assert (Join(lines) + "\n")[..|Join(lines)|] == Join(lines) && (c + "\n")[..|c|] == c;
  }

  lemma StartsComment(t: string, s: nat, lines: seq<string>, b: string)
    requires Rest(lines) && lines != [] && lines[0] != "" && At(t, s, Lines(lines, b))
    ensures s < |t| && t[s] in {';', '#'}
  {
    hide At;
    assert lines[0] in lines;
    AtChar(t, s, Lines(lines, b), 0);
    AtFits(t, s, Lines(lines, b));
  }

  /**
    Lines that start with ';' or '#' are read as the comment of what follows, with
    the empty lines between them and newlines for whatever line breaks they have.
    A '[' line that is not closed before takes them into the section's name.
  */
  lemma CommentIsRead(t: string, i: nat, w: string, lines: seq<string>, b: string, c: string, sec: SectionRef, comment: Option<string>, multiLine: bool)
    requires b in BREAKS && At(t, i, w + Lines(lines, b)) && White(w) && Rest(lines) && lines != [] && lines[0] != ""
    requires var j := i + |w + Lines(lines, b)|; Ends(t, j, b) && NoCommentAt(t, j)
    requires c + "\n" == Lines(lines, "\n") && (sec.Unclosed? ==> sec.start <= i)
    ensures i + |w + Lines(lines, b)| <= |t|
    ensures Find(t, i, sec, comment, multiLine)
         == Find(t, i + |w + Lines(lines, b)|, Close(t, sec, i + |w|, c), Some(c), multiLine)
  {
    hide *;
    var s := i + |w|;
    AtSplit(t, i, w, Lines(lines, b));
    AtFits(t, i, w + Lines(lines, b));
    CommentLinesAreRead(t, s, lines, b);
    StartsComment(t, s, lines, b);
    WhiteSkips(t, i, w);
    CommentTurnIs(t, s, lines, s + |Lines(lines, b)|, c, sec, comment, multiLine);
    FindYields(t, i, s, sec, comment, multiLine);
  }

  /** The name of a section that ends in a comment. */
  lemma UnclosedWithComment(t: string, i: nat, w: string, h: string, n: string, w': string, lines: seq<string>, b: string, c: string,
                            comment: Option<string>, multiLine: bool)
    requires b in BREAKS && At(t, i, w + ("[" + h + n) + (w' + Lines(lines, b)))
    requires White(w) && White(h) && n != "" && Without(n, {'\n', '\r', ']'}) && n[0] !in {' ', '\t'}
    requires w' != "" && w'[0] in {'\n', '\r'} && White(w') && Rest(lines) && lines != [] && lines[0] != ""
    requires var j := i + |w + ("[" + h + n) + (w' + Lines(lines, b))|; Ends(t, j, b) && NoCommentAt(t, j)
    requires c + "\n" == Lines(lines, "\n")
    ensures i + |w + ("[" + h + n) + (w' + Lines(lines, b))| <= |t|
    ensures Find(t, i, Unchanged, comment, multiLine)
         == Find(t, i + |w + ("[" + h + n) + (w' + Lines(lines, b))|, Named(n + w' + c), Some(c), multiLine)
  {
    hide *;
    var front := w + ("[" + h + n);
    var p := i + |front|;
    var text := Lines(lines, b);
    NameAndBreak(t, i, w, h, n, w', text);
    UnclosedStaysPending(t, i, w, h, n, Unchanged, comment, multiLine);
    CommentIsRead(t, p, w', lines, b, c, Unclosed(p - |n|), comment, multiLine);
    ClosesWith(t, p - |n|, n, w', c);
  }

  lemma NameAndBreak(t: string, i: nat, w: string, h: string, n: string, w': string, tail: string)
    requires At(t, i, w + ("[" + h + n) + (w' + tail)) && w' != ""
    ensures var p := i + |w + ("[" + h + n)|;
            && At(t, i, w + ("[" + h + n)) && At(t, p, w' + tail) && At(t, p - |n|, n) && At(t, p, w')
            && p < |t| && t[p] == w'[0] && p + |w' + tail| <= |t|
  {
    hide At;
    var p := i + |w + ("[" + h + n)|;
    AtSplit(t, i, w + ("[" + h + n), w' + tail);
    AtSplit(t, i, w, "[" + h + n);
    AtSplit(t, i + |w|, "[" + h, n);
    AtSplit(t, p, w', tail);
    AtChar(t, p, w', 0);
    AtFits(t, p, w' + tail);
  }

  lemma ClosesWith(t: string, q: nat, n: string, w: string, c: string)
    requires At(t, q, n) && At(t, q + |n|, w)
    ensures q + |n + w| <= |t| && Close(t, Unclosed(q), q + |n + w|, c) == Named(n + w + c)
  {
    assert t[q..q+|n + w|] == t[q..q+|n|] + t[q+|n|..q+|n|+|w|];
  }

  lemma FileLineStep(t: string, i: nat, l: string, j: nat)
    requires i <= |t| && l != "" && l[0] in {';', '#'} && At(t, i, l)
    requires LineEnd(t, i) == i + |l| < |t| && SkipNewLine(t, i + |l|) == j && t[i..i+|l|] == l
    ensures CommentBlock(t, i, false) == Block([l] + CommentBlock(t, j, false).lines, CommentBlock(t, j, false).next)
  {
    hide LineEnd, SkipNewLine;
    AtChar(t, i, l, 0);
  }

  lemma NoFileLine(t: string, i: nat)
    requires i <= |t| && (i < |t| ==> t[i] !in {';', '#'})
    ensures CommentBlock(t, i, false) == Block([], i)
  {
  }

  /** The file comment is the lines that start with ';' or '#' at the start of the text, up to the first other one. */
  lemma {:induction false} FileCommentIsRead(t: string, i: nat, lines: seq<string>, b: string)
    requires b in BREAKS && At(t, i, Lines(lines, b)) && Ends(t, i + |Lines(lines, b)|, b)
    requires forall l | l in lines :: l != "" && Without(l, {'\n', '\r'}) && l[0] in {';', '#'}
    requires var j := i + |Lines(lines, b)|; j < |t| ==> t[j] !in {';', '#'}
    ensures i <= |t| && CommentBlock(t, i, false) == Block(lines, i + |Lines(lines, b)|)
    decreases |lines|
  {
    hide *;
    AtFits(t, i, Lines(lines, b));
    if lines == [] {
      NoMoreLines(b, "");
      AddNothing(t, i, Lines(lines, b));
      NoFileLine(t, i);
    } else {
      var l, rest := lines[0], lines[1..];
      assert l in lines && lines == [l] + rest && forall x | x in rest :: x in lines;
      AddNothing(t, i, Lines(lines, b));
      AddNothing(t, i + |l| + |b|, Lines(rest, b));
      EndsBefore(t, i, lines, b);
      LinesStep(t, i, lines, b, "");
      FileCommentIsRead(t, i + |l| + |b|, rest, b);
      FileLineStep(t, i, l, i + |l| + |b|);
    }
  }
}
