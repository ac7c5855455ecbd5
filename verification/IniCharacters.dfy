/**
  The text format in characters: what names, values and comments look like, and
  what Save writes for them, without the character classes of the parser.
*/
module IniCharacters {
  import opened Options
  import opened IniText
  import opened IniParse
  import opened IniView
  import opened IniShapes
  import opened IniReparse
  import opened IniValues
  import opened IniLetters

  // No NUL and no line break
  predicate OnLine(s: string) {
    '\0' !in s && '\n' !in s && '\r' !in s
  }

  // No space and no tab at either end
  predicate Tight(s: string) {
    s != "" ==> s[0] !in {' ', '\t'} && s[|s|-1] !in {' ', '\t'}
  }

  lemma OnLineIff(s: string)
    ensures OnLine(s) <==> OneLine(s)
  {
  }

  lemma TightIff(s: string)
    requires '\n' !in s && '\r' !in s
    ensures Tight(s) <==> Trimmed(s)
  {
    if s != "" {
      assert s[0] in s && s[|s|-1] in s;
    }
  }

  /** One line without equals sign that starts like neither comment nor header and has no blank at an end. */
  predicate ReadsAsKey(k: string) {
    k != "" && OnLine(k) && Tight(k) && '=' !in k && k[0] !in {';', '#', '['}
  }

  /** One line without closing bracket and without blanks at its ends. */
  predicate ReadsAsName(s: string) {
    OnLine(s) && Tight(s) && ']' !in s
  }

  lemma KeyInCharacters(k: string)
    ensures GoodKeyName(k) <==> ReadsAsKey(k)
  {
    OnLineIff(k);
    if OnLine(k) {
      TightIff(k);
    }
  }

  lemma SectionInCharacters(s: string)
    ensures GoodSectionName(s) <==> s != "" && ReadsAsName(s)
  {
    OnLineIff(s);
    if OnLine(s) {
      TightIff(s);
    }
  }

  lemma CommentLineInCharacters(l: string)
    ensures CommentLine(l) <==> l != "" && OnLine(l) && l[0] in {';', '#'}
  {
    OnLineIff(l);
  }

  // Fit for the line of its key
  predicate Inline(v: string) {
    '\n' !in v && '\r' !in v && Tight(v)
  }

  lemma LongInCharacters(v: string)
    ensures IsMultiLineData(v) <==> !Inline(v)
  {
    if '\n' !in v && '\r' !in v {
      TightIff(v);
      assert forall i | 0 <= i < |v| :: v[i] in v;
    } else {
      var c :| c in v && (c == '\n' || c == '\r');
      var i :| 0 <= i < |v| && v[i] == c;
      assert IsNewLineChar(v[i]);
    }
  }

  // ------------------------------------------------------------------
  // What Save writes

  // A text on lines of its own
  lemma LinesInCharacters(text: string)
    ensures LinesText(text) == if text == "" then "" else text + "\n"
  {
    hide SplitLines, Join, Unlines;
    if text != "" {
      JoinSplit(text);
      UnlinesIsJoin(SplitLines(text));
    }
  }

  // A value as it stands behind its key, and a pair behind its comment
  function Written(v: string, multiLine: bool): string {
    if !multiLine || Inline(v) then v else "<<<SI-END-OF-MULTILINE-TEXT\n" + v + "\nSI-END-OF-MULTILINE-TEXT"
  }

  function PairLines(key: string, v: DocValue, fmt: Format): string {
    (if v.comment == None then "" else "\n" + Above(v.comment))
    + key + (if fmt.spaces then " = " else "=") + Written(v.value, fmt.multiLine) + "\n"
  }

  // The lines of a comment in front of something
  function Above(c: Option<string>): string {
    match c
    case None => ""
    case Some(text) => if text == "" then "" else text + "\n"
  }

  /**
    A value without line breaks and without blanks at its ends is written as it
    is, and so is every value in single-line mode; every other value is written
    as a block.
  */
  lemma ValueInCharacters(v: string, fmt: Format)
    ensures ValueText(v, fmt) == Written(v, fmt.multiLine)
  {
    hide LinesText, IsMultiLineData, Inline;
    LongInCharacters(v);
    if fmt.multiLine && IsMultiLineData(v) {
      LinesInCharacters(v);
      LongIsSomething(v);
      BlockInCharacters(v);
    }
  }

  lemma LongIsSomething(v: string)
    requires IsMultiLineData(v)
    ensures v != ""
  {
  }

  lemma OpeningInCharacters()
    ensures "<<<" + END_TAG + NEWLINE == "<<<SI-END-OF-MULTILINE-TEXT\n"
  {
  }

  lemma ClosingInCharacters()
    ensures "\n" + END_TAG == "\nSI-END-OF-MULTILINE-TEXT"
  {
  }

  lemma BlockInCharacters(v: string)
    ensures "<<<" + END_TAG + NEWLINE + (v + "\n") + END_TAG == "<<<SI-END-OF-MULTILINE-TEXT\n" + v + "\nSI-END-OF-MULTILINE-TEXT"
  {
    hide END_TAG, NEWLINE;
    OpeningInCharacters();
    ClosingInCharacters();
    assert "<<<" + END_TAG + NEWLINE + (v + "\n") + END_TAG == "<<<" + END_TAG + NEWLINE + v + ("\n" + END_TAG);
  }

  lemma CommentInCharacters(c: Option<string>)
    ensures CommentText(c) == if c == None then "" else "\n" + Above(c)
  {
    hide LinesText;
    if c.Some? {
      LinesInCharacters(c.value);
    }
  }

  /** A pair is its comment on lines of its own behind an empty one, then the key, the sign and the value on a line. */
  lemma PairInCharacters(key: string, v: DocValue, fmt: Format)
    ensures PairText(key, v, fmt) == PairLines(key, v, fmt)
  {
    hide CommentText, ValueText, Written;
    CommentInCharacters(v.comment);
    ValueInCharacters(v.value, fmt);
  }

  /** The head of a section is two empty lines unless it comes first, its comment and its name in brackets. */
  lemma HeadInCharacters(s: DocSection, first: bool)
    ensures HeadText(s, first) == (if first then "" else "\n\n") + Above(s.comment) + (if s.name == "" then "" else "[" + s.name + "]\n")
  {
    hide LinesText;
    if s.comment.Some? {
      LinesInCharacters(s.comment.value);
    }
    BracketInCharacters(s.name);
    assert NEWLINE + NEWLINE == "\n\n";
  }

  lemma BracketInCharacters(name: string)
    ensures "[" + name + "]" + NEWLINE == "[" + name + "]\n"
  {
    assert "[" + name + "]" + NEWLINE == "[" + name + ("]" + NEWLINE);
  }

  // The text of single values and keys, one behind the other
  lemma {:induction false} ValuesTogether(key: string, a: seq<DocValue>, b: seq<DocValue>, fmt: Format)
    ensures PairsText(key, a + b, fmt) == PairsText(key, a, fmt) + PairsText(key, b, fmt)
    decreases |b|
  {
    hide PairText;
    if b == [] {
      assert a + b == a;
    } else {
      var n := |b| - 1;
      assert (a + b)[..|a| + n] == a + b[..n];
      ValuesTogether(key, a, b[..n], fmt);
    }
  }

  lemma {:induction false} KeysTogether(a: seq<DocKey>, b: seq<DocKey>, fmt: Format)
    ensures KeysText(a + b, fmt) == KeysText(a, fmt) + KeysText(b, fmt)
    decreases |b|
  {
    hide PairsText;
    if b == [] {
      assert a + b == a;
    } else {
      var n := |b| - 1;
      assert (a + b)[..|a| + n] == a + b[..n];
      KeysTogether(a, b[..n], fmt);
    }
  }

  lemma {:induction false} SectionsTogether(a: seq<DocSection>, b: seq<DocSection>, first: bool, fmt: Format)
    ensures SectionsText(a + b, first, fmt) == SectionsText(a, first, fmt) + SectionsText(b, first && a == [], fmt)
    decreases |b|
  {
    hide SectionText;
    if b == [] {
      assert a + b == a;
    } else {
      var n := |b| - 1;
      assert (a + b)[..|a| + n] == a + b[..n];
      SectionsTogether(a, b[..n], first, fmt);
    }
  }

  lemma OnePair(key: string, v: DocValue, fmt: Format)
    ensures KeysText([DocKey(key, [v])], fmt) == PairText(key, v, fmt)
  {
    hide PairText;
    assert [v][..0] == [] && [DocKey(key, [v])][..0] == [];
    assert "" + PairText(key, v, fmt) == PairText(key, v, fmt);
    assert "" + PairsText(key, [v], fmt) == PairsText(key, [v], fmt);
  }

  lemma OneSection(s: DocSection, first: bool, fmt: Format)
    ensures SectionsText([s], first, fmt) == HeadText(s, first) + KeysText(s.keys, fmt)
  {
    hide HeadText, KeysText;
    assert [s][..0] == [];
    assert "" + SectionText(s, first, fmt) == SectionText(s, first, fmt);
  }

  lemma FileInCharacters(f: Option<string>)
    ensures (if f.Some? then LinesText(f.value) else "") == Above(f)
  {
    hide LinesText;
    if f.Some? {
      LinesInCharacters(f.value);
    }
  }

  /** A document of two sections with a pair each, character by character; longer ones are put together of the same parts. */
  lemma DocumentInCharacters(f: Option<string>, s: DocSection, u: DocSection, k: string, v: DocValue, l: string, w: DocValue, fmt: Format)
    requires s.keys == [DocKey(k, [v])] && u.keys == [DocKey(l, [w])] && s.name != "" && u.name != ""
    ensures DocText(Doc(f, [s, u]), fmt)
         == Above(f) + ((if f == None then "" else "\n\n") + Above(s.comment) + "[" + s.name + "]\n" + PairLines(k, v, fmt))
            + ("\n\n" + Above(u.comment) + "[" + u.name + "]\n" + PairLines(l, w, fmt))
  {
    hide Above, HeadText, PairText, PairLines, LinesText, KeysText;
    assert [s, u] == [s] + [u];
    SectionsTogether([s], [u], f == None, fmt);
    OneSection(s, f == None, fmt);
    OneSection(u, false, fmt);
    OnePair(k, v, fmt);
    OnePair(l, w, fmt);
    PairInCharacters(k, v, fmt);
    PairInCharacters(l, w, fmt);
    HeadInCharacters(s, f == None);
    HeadInCharacters(u, false);
    FileInCharacters(f);
  }
  // ------------------------------------------------------------------
  // Which values come back

  // From i to j the text is one of its lines
  predicate LineIn(v: string, i: nat, j: nat) {
    i <= j <= |v| && (i == 0 || v[i-1] == '\n') && (j == |v| || v[j] == '\n') && '\n' !in v[i..j]
  }

  /** Some line of the text spells the end tag, in letters of any case. */
  ghost predicate HasTagLine(v: string) {
    exists i: nat, j: nat | LineIn(v, i, j) :: j - i == 24 && forall x | 0 <= x < 24 :: SameLetter(v[i + x], "SI-END-OF-MULTILINE-TEXT"[x])
  }

  lemma {:induction false} SplitGivesLines(v: string, l: string)
    requires l in SplitLines(v)
    ensures exists i: nat, j: nat | LineIn(v, i, j) :: v[i..j] == l
    decreases |v|
  {
    var e := FirstOf(v, 0, {'\n'});
    if l == v[..e] {
      assert LineIn(v, 0, e) && v[0..e] == l;
    } else {
      var w := v[e+1..];
      SplitGivesLines(w, l);
      var i: nat, j: nat :| LineIn(w, i, j) && w[i..j] == l;
      LineMoves(v, e + 1, i, j);
    }
  }

  lemma LineMoves(v: string, p: nat, i: nat, j: nat)
    requires 0 < p <= |v| && v[p-1] == '\n'
    ensures LineIn(v[p..], i, j) <==> LineIn(v, p + i, p + j)
    ensures i <= j <= |v| - p ==> v[p..][i..j] == v[p+i..p+j]
  {
    if i <= j <= |v| - p {
      assert v[p..][i..j] == v[p+i..p+j];
    }
  }

  lemma FirstLineIn(v: string, i: nat, j: nat)
    requires LineIn(v, i, j) && i <= FirstOf(v, 0, {'\n'})
    ensures i == 0 && j == FirstOf(v, 0, {'\n'}) && v[i..j] == v[..j]
  {
    assert forall x | i <= x < j :: v[x] == v[i..j][x - i] && v[x] in v[i..j];
  }

  lemma SplitParts(v: string)
    ensures var e := FirstOf(v, 0, {'\n'});
            v[..e] in SplitLines(v) && (e < |v| ==> forall l | l in SplitLines(v[e+1..]) :: l in SplitLines(v))
  {
    var e := FirstOf(v, 0, {'\n'});
    if e == |v| {
      assert v[..e] == v;
    }
  }

  lemma {:induction false} LinesAreSplit(v: string, i: nat, j: nat)
    requires LineIn(v, i, j)
    ensures v[i..j] in SplitLines(v)
    decreases |v|
  {
    hide SplitLines, LineIn;
    var e := FirstOf(v, 0, {'\n'});
    LineFits(v, i, j);
    SplitParts(v);
    if i <= e {
      FirstLineIn(v, i, j);
    } else {
      LineMoves(v, e + 1, i - e - 1, j - e - 1);
      LinesAreSplit(v[e+1..], i - e - 1, j - e - 1);
    }
  }

  lemma TagInCharacters(l: string)
    ensures SameName(l, END_TAG) <==> |l| == 24 && forall x | 0 <= x < 24 :: SameLetter(l[x], "SI-END-OF-MULTILINE-TEXT"[x])
  {
    hide SameName, SameLetter;
    SameNameIff(l, END_TAG);
  }

  lemma TagLineInCharacters(v: string)
    ensures (exists l | l in SplitLines(v) :: SameName(l, END_TAG)) <==> HasTagLine(v)
  {
    hide SplitLines, SameName, LineIn, SameLetter;
    forall i: nat, j: nat | LineIn(v, i, j)
      ensures i <= j <= |v| && v[i..j] in SplitLines(v)
      ensures SameName(v[i..j], END_TAG) <==> j - i == 24 && forall x | 0 <= x < 24 :: SameLetter(v[i + x], "SI-END-OF-MULTILINE-TEXT"[x])
    {
      LineFits(v, i, j);
      LinesAreSplit(v, i, j);
      TagInCharacters(v[i..j]);
      assert forall x | 0 <= x < j - i :: v[i..j][x] == v[i + x];
    }
    if l :| l in SplitLines(v) && SameName(l, END_TAG) {
      SplitGivesLines(v, l);
    }
  }

  lemma LineFits(v: string, i: nat, j: nat)
    requires LineIn(v, i, j)
    ensures i <= j <= |v|
  {
  }

  /**
    The values that a saved text gives back: those on one line without blanks at
    their ends, but in multi-line mode none that starts with "<<<"; and there also
    all others without carriage return and without a line that spells the end tag.
  */
  ghost predicate ComesBack(v: string, multiLine: bool) {
    '\0' !in v &&
    if Inline(v) then multiLine ==> !("<<<" <= v)
    else multiLine && '\r' !in v && !HasTagLine(v)
  }

  lemma ComesBackIsGood(v: string, multiLine: bool)
    ensures ComesBack(v, multiLine) <==> GoodValue(v, multiLine)
  {
    hide HasTagLine, SplitLines, SameName, IsMultiLineData, Trimmed, Tight;
    LongInCharacters(v);
    TagLineInCharacters(v);
    if '\n' !in v && '\r' !in v {
      TightIff(v);
    }
    OnLineIff(v);
  }

  /** Exactly these values come back from a printed text, in either mode. */
  lemma ValueComesBackIff(t: string, i: nat, gap: string, v: string, fmt: Format)
    requires '\0' !in t && (gap == "" || gap == " ") && At(t, i, gap + ValueText(v, fmt) + "\n")
    ensures ValueAt(t, i, fmt.multiLine) == Parsed(v, i + |gap| + |ValueText(v, fmt)| + 1) <==> ComesBack(v, fmt.multiLine)
  {
    hide ValueAt, ValueText, ComesBack, GoodValue;
    ComesBackIsGood(v, fmt.multiLine);
    ValueSurvivesIff(t, i, gap, v, fmt);
  }

  // ------------------------------------------------------------------
  // Comments

  predicate Bare(c: string) {
    '\0' !in c && '\r' !in c
  }

  /** Every line starts with ';' or '#', but for empty ones, of which none is the first or the last. */
  ghost predicate ReadsAsComment(c: string) {
    && Bare(c) && c != "" && c[0] in {';', '#'} && c[|c|-1] != '\n'
    && forall i: nat, j: nat | LineIn(c, i, j) :: i == j || c[i] in {';', '#'}
  }

  /** Every line starts with ';' or '#'. */
  ghost predicate ReadsAsFileComment(c: string) {
    Bare(c) && forall i: nat, j: nat | LineIn(c, i, j) :: i < j && c[i] in {';', '#'}
  }

  lemma BareLines(c: string)
    ensures Bare(c) <==> forall l | l in SplitLines(c) :: OnLine(l)
  {
    hide SplitLines, Join, OneLine, OnLine, Bare;
    var lines := SplitLines(c);
    forall l | l in lines
      ensures OnLine(l) <==> OneLine(l)
    {
      OnLineIff(l);
    }
    BareIs(c);
    if Bare(c) {
      SplitIsOneLine(c);
    } else if forall l | l in lines :: OneLine(l) {
      JoinedLines(lines);
      JoinSplit(c);
    }
  }

  lemma BareIs(c: string)
    ensures Bare(c) <==> NUL !in c && '\r' !in c
  {
  }

  lemma {:induction false} EndLines(c: string)
    ensures var lines := SplitLines(c);
            && (lines[0] == "" <==> c == "" || c[0] == '\n')
            && (c != "" && c[0] != '\n' ==> lines[0][0] == c[0])
            && (lines[|lines|-1] == "" <==> c == "" || c[|c|-1] == '\n')
    decreases |c|
  {
    var e := FirstOf(c, 0, {'\n'});
    if e < |c| {
      EndLines(c[e+1..]);
    }
  }

  // What holds of the split lines holds of the lines in place
  lemma EveryLine(c: string, empty: bool)
    requires Bare(c)
    ensures (forall l | l in SplitLines(c) :: (empty && l == "") || CommentLine(l))
       <==> (forall i: nat, j: nat | LineIn(c, i, j) :: (empty && i == j) || (i < j && c[i] in {';', '#'}))
  {
    hide SplitLines, CommentLine, Bare, OnLine, LineIn;
    BareLines(c);
    forall i: nat, j: nat | LineIn(c, i, j)
      ensures i <= j <= |c| && c[i..j] in SplitLines(c) && (CommentLine(c[i..j]) <==> i < j && c[i] in {';', '#'})
    {
      LineFits(c, i, j);
      LinesAreSplit(c, i, j);
      CommentLineInCharacters(c[i..j]);
    }
    forall l | l in SplitLines(c)
      ensures exists i: nat, j: nat | LineIn(c, i, j) :: i <= j <= |c| && c[i..j] == l
    {
      SplitGivesLines(c, l);
      var i: nat, j: nat :| LineIn(c, i, j) && c[i..j] == l;
      LineFits(c, i, j);
    }
  }

  lemma CommentInShape(c: string)
    ensures ReadsAsComment(c) <==> GoodComment(c)
  {
    hide SplitLines, CommentLine, Bare, LineIn;
    var lines := SplitLines(c);
    LinesNeedBare(c, true);
    if Bare(c) {
      EveryLine(c, true);
      EndLines(c);
      CommentLineInCharacters(lines[0]);
      CommentLineInCharacters(lines[|lines|-1]);
      assert lines[0] in lines && lines[|lines|-1] in lines;
      BareLines(c);
      OneLineEmpty();
      forall i: nat, j: nat | LineIn(c, i, j)
        ensures i <= j <= |c|
      {
        LineFits(c, i, j);
      }
    }
  }

  lemma OneLineEmpty()
    ensures !CommentLine("")
  {
  }

  lemma LinesNeedBare(c: string, empty: bool)
    ensures (forall l | l in SplitLines(c) :: (empty && l == "") || CommentLine(l)) ==> Bare(c)
  {
    hide SplitLines, Bare;
    if forall l | l in SplitLines(c) :: (empty && l == "") || CommentLine(l) {
      forall l | l in SplitLines(c)
        ensures OnLine(l)
      {
        OnLineIff(l);
      }
      BareLines(c);
    }
  }

  lemma FileCommentInShape(c: string)
    ensures ReadsAsFileComment(c) <==> GoodFileComment(c)
  {
    hide SplitLines, CommentLine, Bare, LineIn;
    LinesNeedBare(c, false);
    if Bare(c) {
      EveryLine(c, false);
    }
  }
}
