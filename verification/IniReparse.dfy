/**
  The parser inverts the printer: the text of a document parses to the entries of
  that document, one by one and with their comments, behind its file comment.
*/
module IniReparse {
  import opened Options
  import opened IniText
  import opened IniParse
  import opened IniView
  import opened IniShapes
  import opened IniComments

  // ------------------------------------------------------------------
  // One header, one pair

  // The positions of a section line
  lemma HeaderAt(t: string, i: nat, name: string)
    requires GoodSectionName(name) && At(t, i, "[" + name + "]\n")
    ensures var e := i + 1 + |name|;
            && e + 1 < |t| && t[i] == '[' && t[e] == ']' && IsNewLineChar(t[e + 1])
            && At(t, i + 1, name) && !IsSpace(t[i + 1])
  {
    assert "[" + name + "]\n" == "[" + (name + "]\n");
    AtSplit(t, i, "[", name + "]\n");
    AtSplit(t, i + 1, name, "]\n");
    AtChar(t, i, "[", 0);
    AtChar(t, i + 1, name, 0);
    AtChar(t, i + 1 + |name|, "]\n", 0);
    AtChar(t, i + 1 + |name|, "]\n", 1);
  }

  lemma HeaderScans(t: string, i: nat, name: string)
    requires GoodSectionName(name) && At(t, i, "[" + name + "]\n")
    ensures var e := i + 1 + |name|;
            && e < |t| && SkipSpaces(t, i) == i && SkipSpaces(t, i + 1) == i + 1
            && FirstOf(t, i + 1, HEADER_STOPS) == e && TrimEnd(t, i + 1, e) == e && LineEnd(t, e + 1) == e + 1
  {
    var e := i + 1 + |name|;
    HeaderAt(t, i, name);
    NoSpaces(t, i);
    NoSpaces(t, i + 1);
    ScanPiece(t, i + 1, name, HEADER_STOPS);
    TrimPiece(t, i + 1, name, e);
    assert At(t, e + 1, "");
    LinePiece(t, e + 1, "");
  }

  /** A section line parses to its name; the cursor stops at the end of the line. */
  lemma ParseHeader(t: string, i: nat, name: string, comment: Option<string>, multiLine: bool)
    requires GoodSectionName(name) && At(t, i, "[" + name + "]\n")
    ensures Find(t, i, Unchanged, comment, multiLine) == Header(name, comment, i + |name| + 2)
  {
    hide FirstOf, TrimEnd, KeyTurn, SkipSpaces, LineEnd;
    HeaderAt(t, i, name);
    HeaderScans(t, i, name);
    assert HeaderTurn(t, i, comment) == Yield(Header(name, comment, i + |name| + 2));
  }

  // ------------------------------------------------------------------
  // Values

  lemma {:induction false} SkipBlanksPiece(t: string, i: nat, j: nat)
    requires i <= j <= |t| && (forall k | i <= k < j :: t[k] == ' ')
    requires j < |t| ==> IsNewLineChar(t[j]) || !IsSpace(t[j])
    ensures SkipBlanks(t, i) == j
    decreases j - i
  {
    if i < j {
      SkipBlanksPiece(t, i + 1, j);
    }
  }

  // A block's text, its first line apart
  lemma BlockParts(l: string, rest: seq<string>, tag: string)
    ensures Unlines([l] + rest) + tag + "\n" == l + "\n" + (Unlines(rest) + tag + "\n")
    ensures |Unlines([l] + rest)| == |l| + 1 + |Unlines(rest)|
  {
    hide Unlines;
    UnlinesCons(l, rest);
    assert l + "\n" + Unlines(rest) + tag + "\n" == l + "\n" + (Unlines(rest) + tag + "\n");
  }

  // A line that is not the tag's is taken, and the tag's line ends the block
  lemma TagBlockStep(t: string, i: nat, line: string, tag: string)
    requires At(t, i, line) && LineEnd(t, i) == i + |line| && i + |line| < |t| && SkipNewLine(t, i + |line|) == i + |line| + 1
    ensures SameName(line, tag) ==> TagBlock(t, i, tag) == Block([], i + |line| + 1)
    ensures !SameName(line, tag) ==>
              var rest := TagBlock(t, i + |line| + 1, tag); TagBlock(t, i, tag) == Block([line] + rest.lines, rest.next)
  {
    hide LineEnd, SkipNewLine, SameName;
  }

  /** A block of lines with its end tag line parses to the lines. */
  lemma {:induction false} ParseBlock(t: string, i: nat, lines: seq<string>, tag: string)
    requires At(t, i, Unlines(lines) + tag + "\n") && OneLine(tag)
    requires forall l | l in lines :: OneLine(l) && !SameName(l, tag)
    ensures TagBlock(t, i, tag) == Block(lines, i + |Unlines(lines)| + |tag| + 1)
    decreases |lines|
  {
    hide *;
    if lines == [] {
      NoLines(tag);
      LineThere(t, i, tag, "");
      SameAsItself(tag);
      TagBlockStep(t, i, tag, tag);
    } else {
      var l, rest := lines[0], lines[1..];
      assert lines == [l] + rest && l in lines;
      BlockParts(l, rest, tag);
      LineThere(t, i, l, Unlines(rest) + tag + "\n");
      ParseBlock(t, i + |l| + 1, rest, tag);
      TagBlockStep(t, i, l, tag);
    }
  }

  lemma NoLines(tag: string)
    ensures Unlines([]) == "" && "" + tag + "\n" == tag + "\n" + ""
  {
  }

  lemma SameAsItself(a: string)
    ensures SameName(a, a)
  {
  }

  // A blank stops at a trimmed line, empty or not
  lemma BlankThere(t: string, i: nat, gap: string, line: string)
    requires At(t, i, gap) && At(t, i + |gap|, line) && Trimmed(line) && (gap == "" || gap == " ")
    requires i + |gap| + |line| < |t| && IsNewLineChar(t[i + |gap| + |line|])
    ensures SkipBlanks(t, i) == i + |gap|
  {
    if gap == " " {
      AtChar(t, i, gap, 0);
    }
    if line != "" {
      AtChar(t, i + |gap|, line, 0);
    }
    SkipBlanksPiece(t, i, i + |gap|);
  }

  lemma FourParts(a: string, b: string, c: string, d: string)
    ensures a + b + c + d == a + (b + c + d) == a + (b + (c + d))
  {
  }

  lemma LineValueIs(t: string, v: nat, line: string)
    requires At(t, v, line) && Trimmed(line) && v + |line| < |t|
    requires LineEnd(t, v) == v + |line| && SkipNewLine(t, v + |line|) == v + |line| + 1
    ensures LineValue(t, v) == line && AfterLine(t, LineEnd(t, v)) == v + |line| + 1
  {
    hide LineEnd, SkipNewLine, TrimEnd, Trimmed;
    TrimPiece(t, v, line, v + |line|);
  }

  // The rest of the line behind the equals sign and its space
  lemma LineValueThere(t: string, i: nat, gap: string, line: string, tail: string)
    requires At(t, i, gap + line + "\n" + tail) && OneLine(line) && Trimmed(line) && (gap == "" || gap == " ")
    ensures SkipBlanks(t, i) == i + |gap| && LineValue(t, i + |gap|) == line
    ensures AfterLine(t, LineEnd(t, i + |gap|)) == i + |gap| + |line| + 1 && At(t, i + |gap| + |line| + 1, tail)
  {
    hide *;
    var v := i + |gap|;
    FourParts(gap, line, "\n", tail);
    AtSplit(t, i, gap, line + "\n" + tail);
    LineThere(t, v, line, tail);
    BlankThere(t, i, gap, line);
    LineValueIs(t, v, line);
  }

  lemma ParseShort(t: string, i: nat, gap: string, v: string, multiLine: bool)
    requires OneLine(v) && Trimmed(v) && (multiLine ==> !(OPENING <= v)) && (gap == "" || gap == " ")
    requires At(t, i, gap + v + "\n")
    ensures ValueAt(t, i, multiLine) == Parsed(v, i + |gap| + |v| + 1)
  {
    hide TagBlock, SkipBlanks, LineEnd, LineValue;
    assert gap + v + "\n" == gap + v + "\n" + "";
    LineValueThere(t, i, gap, v, "");
  }

  lemma ParseLong(t: string, i: nat, gap: string, lines: seq<string>)
    requires gap == "" || gap == " "
    requires forall l | l in lines :: OneLine(l) && !SameName(l, END_TAG)
    requires lines != [] && At(t, i, gap + (OPENING + END_TAG) + "\n" + (Unlines(lines) + END_TAG + "\n"))
    ensures ValueAt(t, i, true) == Parsed(Join(lines), i + |gap| + |OPENING + END_TAG| + 1 + |Unlines(lines) + END_TAG + "\n"|)
  {
    hide TagBlock, SkipBlanks, LineEnd, LineValue, Join, Unlines, SameName;
    LineValueThere(t, i, gap, OPENING + END_TAG, Unlines(lines) + END_TAG + "\n");
    ParseBlock(t, i + |gap| + |OPENING + END_TAG| + 1, lines, END_TAG);
    assert (OPENING + END_TAG)[3..] == END_TAG;
  }

  // How a printed block is put together
  lemma LongText(gap: string, v: string, fmt: Format)
    requires fmt.multiLine && IsMultiLineData(v)
    ensures gap + ValueText(v, fmt) + "\n"
         == gap + (OPENING + END_TAG) + "\n" + (Unlines(SplitLines(v)) + END_TAG + "\n")
  {
    hide Unlines, SplitLines;
  }

  /** A printed value is read back. */
  lemma ParseValue(t: string, i: nat, gap: string, v: string, fmt: Format)
    requires GoodValue(v, fmt.multiLine) && (gap == "" || gap == " ")
    requires At(t, i, gap + ValueText(v, fmt) + "\n")
    ensures ValueAt(t, i, fmt.multiLine) == Parsed(v, i + |gap| + |ValueText(v, fmt)| + 1)
  {
    hide ValueAt, At, SplitLines, Join, Unlines, SameName;
    if fmt.multiLine && IsMultiLineData(v) {
      LongText(gap, v, fmt);
      SplitIsOneLine(v);
      ParseLong(t, i, gap, SplitLines(v));
      JoinSplit(v);
    } else {
      ParseShort(t, i, gap, v, fmt.multiLine);
    }
  }

  // ------------------------------------------------------------------
  // Pairs

  lemma KeyThere(t: string, i: nat, key: string, gap: string, rest: string)
    requires GoodKeyName(key) && (gap == "" || gap == " ") && At(t, i, key + gap + "=" + rest)
    ensures var e := i + |key| + |gap|;
            && At(t, i, key) && e < |t| && t[e] == '=' && At(t, e + 1, rest)
            && (forall k | i + |key| <= k < e :: t[k] == ' ')
  {
    hide At, GoodKeyName;
    FourParts(key, gap, "=", rest);
    AtSplit(t, i, key, gap + ("=" + rest));
    AtSplit(t, i + |key|, gap, "=" + rest);
    AtSplit(t, i + |key| + |gap|, "=", rest);
    AtChar(t, i + |key| + |gap|, "=", 0);
    if gap == " " {
      AtChar(t, i + |key|, gap, 0);
    }
  }

  lemma KeyScans(t: string, i: nat, key: string, gap: string)
    requires GoodKeyName(key) && At(t, i, key)
    requires i + |key| + |gap| < |t| && t[i + |key| + |gap|] == '='
    requires forall k | i + |key| <= k < i + |key| + |gap| :: t[k] == ' '
    ensures FirstOf(t, i, KEY_STOPS) == i + |key| + |gap| && TrimEnd(t, i, i + |key| + |gap|) == i + |key|
    ensures i < |t| && !IsSpace(t[i]) && !IsComment(t[i]) && t[i] != '[' && t[i..i+|key|] == key
  {
    var e := i + |key| + |gap|;
    AtChar(t, i, key, 0);
    forall k | i <= k < e
      ensures t[k] !in KEY_STOPS
    {
      if k < i + |key| {
        AtChar(t, i, key, k - i);
        assert key[k - i] in key;
      }
    }
    FirstOfIs(t, i, KEY_STOPS, e);
    TrimPiece(t, i, key, e);
  }

  // A pair behind its comment, cut where the parser cuts it
  lemma PairParts(key: string, v: DocValue, fmt: Format)
    ensures var gap := if fmt.spaces then " " else "";
            && PairText(key, v, fmt) == CommentText(v.comment) + (key + gap + "=" + (gap + ValueText(v.value, fmt) + "\n"))
            && |PairText(key, v, fmt)| == |CommentText(v.comment)| + |key| + |gap| + 1 + |gap| + |ValueText(v.value, fmt)| + 1
  {
    hide ValueText, CommentText;
  }

  /** A printed pair is read back; the cursor stops at the start of the next line. */
  lemma ParsePair(t: string, i: nat, sec: SectionRef, key: string, gap: string, v: string, comment: Option<string>, fmt: Format)
    requires (sec.Unclosed? ==> sec.start <= i) && GoodKeyName(key) && GoodValue(v, fmt.multiLine) && (gap == "" || gap == " ")
    requires At(t, i, key + gap + "=" + (gap + ValueText(v, fmt) + "\n"))
    ensures i + |key| < |t| && !IsSpace(t[i]) && !IsComment(t[i])
    ensures Find(t, i, sec, comment, fmt.multiLine)
         == Pair(Close(t, sec, i + |key|, ""), key, v, comment, i + |key| + |gap| + 1 + |gap| + |ValueText(v, fmt)| + 1)
  {
    hide At, FirstOf, TrimEnd, ValueAt, ValueText, OneLine, Trimmed, GoodValue, SkipSpaces, HeaderTurn, CommentTurn, Close;
    var rest := gap + ValueText(v, fmt) + "\n";
    KeyThere(t, i, key, gap, rest);
    KeyScans(t, i, key, gap);
    NoSpaces(t, i);
    ParseValue(t, i + |key| + |gap| + 1, gap, v, fmt);
    assert PairTurn(t, i, i + |key| + |gap|, sec, comment, fmt.multiLine)
        == Pair(Close(t, sec, i + |key|, ""), key, v, comment, i + |key| + |gap| + 1 + |gap| + |ValueText(v, fmt)| + 1);
  }

  // ------------------------------------------------------------------
  // Documents

  predicate PlainValue(v: DocValue, multiLine: bool) {
    GoodValue(v.value, multiLine) && (v.comment.Some? ==> GoodComment(v.comment.value))
  }

  predicate PlainKey(k: DocKey, multiLine: bool) {
    && GoodKeyName(k.name) && k.values != []
    && forall i | 0 <= i < |k.values| :: PlainValue(k.values[i], multiLine)
  }

  predicate PlainKeys(keys: seq<DocKey>, multiLine: bool) {
    forall i | 0 <= i < |keys| :: PlainKey(keys[i], multiLine)
  }

  // Without a name a section has no line of its own, so it is known by its keys only and has no comment
  predicate PlainSection(s: DocSection, multiLine: bool) {
    && (if s.name == "" then s.keys != [] && s.comment == None else GoodSectionName(s.name))
    && (s.comment.Some? ==> GoodComment(s.comment.value))
    && PlainKeys(s.keys, multiLine)
  }

  /** A document whose names, values and comments the format can carry; a nameless section comes first. */
  predicate PlainDoc(doc: Doc, multiLine: bool) {
    && (doc.fileComment.Some? ==> GoodFileComment(doc.fileComment.value))
    && forall i | 0 <= i < |doc.sections| :: PlainSection(doc.sections[i], multiLine) && (0 < i ==> doc.sections[i].name != "")
  }

  /** The text starts with the comment of the first section, for want of a file comment; it reads like one then. */
  predicate CommentLeads(doc: Doc) {
    doc.fileComment == None && doc.sections != [] && doc.sections[0].comment.Some?
  }

  function PairEntries(section: string, key: string, vs: seq<DocValue>): seq<Entry>
    decreases |vs|
  {
    if vs == [] then []
    else PairEntries(section, key, vs[..|vs|-1]) + [Entry(section, Some((key, vs[|vs|-1].value)), vs[|vs|-1].comment)]
  }

  function KeyEntries(section: string, ks: seq<DocKey>): seq<Entry>
    decreases |ks|
  {
    if ks == [] then []
    else KeyEntries(section, ks[..|ks|-1]) + PairEntries(section, ks[|ks|-1].name, ks[|ks|-1].values)
  }

  function HeaderEntries(s: DocSection): seq<Entry> {
    if s.name == "" then [] else [Entry(s.name, None, s.comment)]
  }

  function SectionEntries(s: DocSection): seq<Entry> {
    HeaderEntries(s) + KeyEntries(s.name, s.keys)
  }

  /** The entries of a document: a header for each named section, a pair for each value. */
  function DocEntries(ss: seq<DocSection>): seq<Entry>
    decreases |ss|
  {
    if ss == [] then [] else DocEntries(ss[..|ss|-1]) + SectionEntries(ss[|ss|-1])
  }

  /** From i to j the text has exactly these entries. */
  ghost predicate Reads(t: string, i: nat, name: string, multiLine: bool, es: seq<Entry>, j: nat, name': string) {
    && i <= j <= |t|
    && Entries(t, i, name, multiLine) == es + Entries(t, j, name', multiLine)
    && Clean(t, i, multiLine) == Clean(t, j, multiLine)
  }

  lemma ReadsOn(t: string, i: nat, name: string, multiLine: bool, es: seq<Entry>, j: nat, name': string, es': seq<Entry>, k: nat, name'': string)
    requires Reads(t, i, name, multiLine, es, j, name') && Reads(t, j, name', multiLine, es', k, name'')
    ensures Reads(t, i, name, multiLine, es + es', k, name'')
  {
    hide Entries, Clean;
    assert es + (es' + Entries(t, k, name'', multiLine)) == (es + es') + Entries(t, k, name'', multiLine);
  }

  lemma ReadsNothing(t: string, i: nat, name: string, multiLine: bool)
    requires i <= |t|
    ensures Reads(t, i, name, multiLine, [], i, name)
  {
    hide Entries, Clean;
    assert [] + Entries(t, i, name, multiLine) == Entries(t, i, name, multiLine);
  }

  lemma ReadsSpaces(t: string, i: nat, j: nat, name: string, multiLine: bool)
    requires i <= j <= |t| && forall k | i <= k < j :: IsSpace(t[k])
    ensures Reads(t, i, name, multiLine, [], j, name)
  {
    hide TurnAt, SkipSpaces;
    SkipPiece(t, i, j);
    assert Find(t, i, Unchanged, None, multiLine) == Find(t, j, Unchanged, None, multiLine);
    assert [] + Entries(t, j, name, multiLine) == Entries(t, j, name, multiLine);
  }

  lemma ReadsPair(t: string, i: nat, section: string, key: string, v: DocValue, fmt: Format)
    requires GoodKeyName(key) && PlainValue(v, fmt.multiLine)
    requires At(t, i, PairText(key, v, fmt))
    ensures Reads(t, i, section, fmt.multiLine, [Entry(section, Some((key, v.value)), v.comment)], i + |PairText(key, v, fmt)|, section)
  {
    hide Find, PairText, GoodKeyName, GoodValue, GoodComment, CommentText, ValueText, At;
    var gap := if fmt.spaces then " " else "";
    var pair := key + gap + "=" + (gap + ValueText(v.value, fmt) + "\n");
    var j := i + |CommentText(v.comment)|;
    PairParts(key, v, fmt);
    AtSplit(t, i, CommentText(v.comment), pair);
    ParsePair(t, j, Unchanged, key, gap, v.value, v.comment, fmt);
    CommentTextThere(t, i, v.comment, fmt.multiLine);
  }

  // The comment of a value, if it has one, on lines of its own
  lemma CommentTextThere(t: string, i: nat, comment: Option<string>, multiLine: bool)
    requires (comment.Some? ==> GoodComment(comment.value)) && At(t, i, CommentText(comment))
    requires var j := i + |CommentText(comment)|; j < |t| && !IsSpace(t[j]) && !IsComment(t[j])
    ensures Find(t, i, Unchanged, None, multiLine) == Find(t, i + |CommentText(comment)|, Unchanged, comment, multiLine)
  {
    hide *;
    CommentTextIs(comment);
    if comment.Some? {
      AtSplit(t, i, "\n", LinesText(comment.value));
      StartsLine(t, i);
      CommentThere(t, i + 1, comment.value, multiLine);
      AtNewline(t, i);
      FindPastSpaces(t, i, i + 1, multiLine);
    }
  }

  lemma CommentTextIs(comment: Option<string>)
    ensures CommentText(comment) == if comment.Some? then "\n" + LinesText(comment.value) else ""
  {
  }

  lemma StartsLine(t: string, i: nat)
    requires At(t, i, "\n")
    ensures i < |t| && IsNewLineChar(t[i])
  {
    AtChar(t, i, "\n", 0);
  }

  lemma {:induction false} ReadsPairs(t: string, i: nat, section: string, k: DocKey, n: nat, fmt: Format)
    requires PlainKey(k, fmt.multiLine) && n <= |k.values|
    requires At(t, i, PairsText(k.name, k.values[..n], fmt))
    ensures Reads(t, i, section, fmt.multiLine, PairEntries(section, k.name, k.values[..n]), i + |PairsText(k.name, k.values[..n], fmt)|, section)
    decreases n
  {
    hide PairText, GoodKeyName, GoodValue, Reads;
    if n == 0 {
      ReadsNothing(t, i, section, fmt.multiLine);
    } else {
      assert k.values[..n][..n-1] == k.values[..n-1];
      var text := PairsText(k.name, k.values[..n-1], fmt);
      AtSplit(t, i, text, PairText(k.name, k.values[n-1], fmt));
      ReadsPairs(t, i, section, k, n - 1, fmt);
      ReadsPair(t, i + |text|, section, k.name, k.values[n-1], fmt);
      ReadsOn(t, i, section, fmt.multiLine, PairEntries(section, k.name, k.values[..n-1]), i + |text|, section,
              [Entry(section, Some((k.name, k.values[n-1].value)), k.values[n-1].comment)], i + |PairsText(k.name, k.values[..n], fmt)|, section);
    }
  }

  lemma {:induction false} ReadsKeys(t: string, i: nat, section: string, keys: seq<DocKey>, n: nat, fmt: Format)
    requires PlainKeys(keys, fmt.multiLine) && n <= |keys|
    requires At(t, i, KeysText(keys[..n], fmt))
    ensures Reads(t, i, section, fmt.multiLine, KeyEntries(section, keys[..n]), i + |KeysText(keys[..n], fmt)|, section)
    decreases n
  {
    hide PairsText, PairEntries, PlainKey, Reads;
    if n == 0 {
      ReadsNothing(t, i, section, fmt.multiLine);
    } else {
      assert keys[..n][..n-1] == keys[..n-1];
      var text, k := KeysText(keys[..n-1], fmt), keys[n-1];
      AtSplit(t, i, text, PairsText(k.name, k.values, fmt));
      ReadsKeys(t, i, section, keys, n - 1, fmt);
      assert k.values[..|k.values|] == k.values;
      ReadsPairs(t, i + |text|, section, k, |k.values|, fmt);
      ReadsOn(t, i, section, fmt.multiLine, KeyEntries(section, keys[..n-1]), i + |text|, section,
              PairEntries(section, k.name, k.values), i + |KeysText(keys[..n], fmt)|, section);
    }
  }

  function HeadGap(first: bool): string {
    if first then "" else "\n\n"
  }

  function HeadComment(s: DocSection): string {
    if s.comment.Some? then LinesText(s.comment.value) else ""
  }

  function HeadLine(s: DocSection): string {
    if s.name == "" then "" else "[" + s.name + "]\n"
  }

  lemma HeadParts(s: DocSection, first: bool)
    ensures HeadText(s, first) == HeadGap(first) + (HeadComment(s) + HeadLine(s))
  {
    hide LinesText;
    assert NEWLINE + NEWLINE == "\n\n" && "[" + s.name + "]" + NEWLINE == "[" + s.name + "]\n";
  }

  lemma ReadsGap(t: string, i: nat, first: bool, name: string, multiLine: bool)
    requires At(t, i, HeadGap(first))
    ensures Reads(t, i, name, multiLine, [], i + |HeadGap(first)|, name)
  {
    hide Reads;
    if !first {
      AtChar(t, i, "\n\n", 0);
      AtChar(t, i, "\n\n", 1);
    }
    ReadsSpaces(t, i, i + |HeadGap(first)|, name, multiLine);
  }

  lemma PlainHead(s: DocSection, multiLine: bool)
    requires PlainSection(s, multiLine)
    ensures s.name != "" ==> GoodSectionName(s.name) && HeaderEntries(s) == [Entry(s.name, None, s.comment)] && HeadLine(s) == "[" + s.name + "]\n"
    ensures s.name == "" ==> HeadComment(s) + HeadLine(s) == "" && HeaderEntries(s) == []
    ensures (s.comment.Some? ==> GoodComment(s.comment.value)) && PlainKeys(s.keys, multiLine)
  {
  }

  // Line breaks before a section, then its comment and its line
  lemma ReadsHead(t: string, i: nat, s: DocSection, first: bool, name: string, multiLine: bool)
    requires PlainSection(s, multiLine) && (s.name == "" ==> name == "")
    requires At(t, i, HeadText(s, first))
    ensures Reads(t, i, name, multiLine, HeaderEntries(s), i + |HeadText(s, first)|, s.name)
  {
    hide *;
    PlainHead(s, multiLine);
    HeadParts(s, first);
    var gap := HeadGap(first);
    AtSplit(t, i, gap, HeadComment(s) + HeadLine(s));
    ReadsGap(t, i, first, name, multiLine);
    if s.name != "" {
      ReadsLine(t, i + |gap|, s, name, multiLine);
      ReadsOn(t, i, name, multiLine, [], i + |gap|, name, HeaderEntries(s), i + |HeadText(s, first)|, s.name);
      assert [] + HeaderEntries(s) == HeaderEntries(s);
    }
  }

  lemma ReadsLine(t: string, h: nat, s: DocSection, name: string, multiLine: bool)
    requires GoodSectionName(s.name) && (s.comment.Some? ==> GoodComment(s.comment.value)) && At(t, h, HeadComment(s) + HeadLine(s))
    ensures Reads(t, h, name, multiLine, HeaderEntries(s), h + |HeadComment(s)| + |HeadLine(s)|, s.name)
  {
    hide *;
    var e := h + |HeadComment(s)| + |s.name| + 2;
    NamedSection(s.name);
    HeadLineIs(s);
    FindsHead(t, h, s, multiLine);
    ReadsHeader(t, h, name, s.name, s.comment, e, multiLine);
    ReadsNewline(t, e, s.name, multiLine);
    ReadsOn(t, h, name, multiLine, HeaderEntries(s), e, s.name, [], e + 1, s.name);
    assert HeaderEntries(s) + [] == HeaderEntries(s);
  }

  lemma HeadLineIs(s: DocSection)
    requires s.name != ""
    ensures |HeadLine(s)| == |s.name| + 3 && HeaderEntries(s) == [Entry(s.name, None, s.comment)]
  {
  }

  lemma ReadsHeader(t: string, h: nat, name: string, s: string, comment: Option<string>, e: nat, multiLine: bool)
    requires h <= |t| && Find(t, h, Unchanged, None, multiLine) == Header(s, comment, e)
    ensures Reads(t, h, name, multiLine, [Entry(s, None, comment)], e, s)
  {
    hide Find;
  }

  lemma ReadsNewline(t: string, e: nat, name: string, multiLine: bool)
    requires e < |t| && IsNewLineChar(t[e])
    ensures Reads(t, e, name, multiLine, [], e + 1, name)
  {
    hide Reads;
    ReadsSpaces(t, e, e + 1, name, multiLine);
  }

  lemma FindsHead(t: string, h: nat, s: DocSection, multiLine: bool)
    requires GoodSectionName(s.name) && (s.comment.Some? ==> GoodComment(s.comment.value)) && At(t, h, HeadComment(s) + HeadLine(s))
    ensures var e := h + |HeadComment(s)| + |s.name| + 2;
            && h <= |t| && e < |t| && IsNewLineChar(t[e])
            && Find(t, h, Unchanged, None, multiLine) == Header(s.name, s.comment, e)
  {
    hide *;
    var j := h + |HeadComment(s)|;
    NamedSection(s.name);
    HeadPieces(s);
    AtSplit(t, h, HeadComment(s), HeadLine(s));
    HeaderAt(t, j, s.name);
    BracketIsVisible(t, j);
    ParseHeader(t, j, s.name, s.comment, multiLine);
    if s.comment.Some? {
      CommentThere(t, h, s.comment.value, multiLine);
    }
  }

  lemma HeadPieces(s: DocSection)
    requires s.name != ""
    ensures HeadLine(s) == "[" + s.name + "]\n"
    ensures HeadComment(s) == if s.comment.Some? then LinesText(s.comment.value) else ""
  {
  }

  lemma BracketIsVisible(t: string, i: nat)
    requires i < |t| && t[i] == '['
    ensures !IsSpace(t[i]) && !IsComment(t[i])
  {
  }

  lemma NamedSection(name: string)
    requires GoodSectionName(name)
    ensures name != ""
  {
  }

  lemma ReadsSection(t: string, i: nat, s: DocSection, first: bool, name: string, fmt: Format)
    requires PlainSection(s, fmt.multiLine) && (s.name == "" ==> name == "")
    requires At(t, i, SectionText(s, first, fmt))
    ensures Reads(t, i, name, fmt.multiLine, SectionEntries(s), i + |SectionText(s, first, fmt)|, s.name)
  {
    hide Reads, HeadText, KeysText, KeyEntries, PlainSection;
    AtSplit(t, i, HeadText(s, first), KeysText(s.keys, fmt));
    ReadsHead(t, i, s, first, name, fmt.multiLine);
    assert s.keys[..|s.keys|] == s.keys;
    PlainHead(s, fmt.multiLine);
    ReadsKeys(t, i + |HeadText(s, first)|, s.name, s.keys, |s.keys|, fmt);
    ReadsOn(t, i, name, fmt.multiLine, HeaderEntries(s), i + |HeadText(s, first)|, s.name,
            KeyEntries(s.name, s.keys), i + |SectionText(s, first, fmt)|, s.name);
  }

  lemma {:induction false} ReadsSections(t: string, i: nat, doc: Doc, n: nat, first: bool, fmt: Format)
    requires PlainDoc(doc, fmt.multiLine) && n <= |doc.sections|
    requires At(t, i, SectionsText(doc.sections[..n], first, fmt))
    ensures Reads(t, i, "", fmt.multiLine, DocEntries(doc.sections[..n]), i + |SectionsText(doc.sections[..n], first, fmt)|,
                  if n == 0 then "" else doc.sections[n-1].name)
    decreases n
  {
    hide Reads, SectionText, SectionEntries, PlainSection, GoodFileComment;
    if n == 0 {
      ReadsNothing(t, i, "", fmt.multiLine);
    } else {
      var ss := doc.sections;
      var name := if n == 1 then "" else ss[n-2].name;
      SectionsNext(ss, n - 1, first, fmt);
      assert ss[..n][..n-1] == ss[..n-1];
      var text := SectionsText(ss[..n-1], first, fmt);
      AtSplit(t, i, text, SectionText(ss[n-1], first && n == 1, fmt));
      ReadsSections(t, i, doc, n - 1, first, fmt);
      ReadsSection(t, i + |text|, ss[n-1], first && n == 1, name, fmt);
      ReadsOn(t, i, "", fmt.multiLine, DocEntries(ss[..n-1]), i + |text|, name,
              SectionEntries(ss[n-1]), i + |SectionsText(ss[..n], first, fmt)|, ss[n-1].name);
    }
  }

  // ------------------------------------------------------------------
  // The text as a whole: no NUL in it, and what it starts with

  ghost predicate Starts(s: string) {
    s != "" && !IsComment(s[0])
  }

  lemma {:induction false} NoNulLines(lines: seq<string>)
    requires forall l | l in lines :: NUL !in l
    ensures NUL !in Unlines(lines)
    decreases |lines|
  {
    if lines != [] {
      var p, z := lines[..|lines|-1], lines[|lines|-1];
      assert forall l | l in p :: l in lines;
      NoNulLines(p);
      assert z in lines;
    }
  }

  lemma {:induction false} NoNulSplit(v: string)
    requires NUL !in v
    ensures forall l | l in SplitLines(v) :: NUL !in l
    decreases |v|
  {
    var e := FirstOf(v, 0, {'\n'});
    if e < |v| {
      NoNulSplit(v[e+1..]);
    }
  }

  lemma NoNulComment(c: string)
    requires GoodComment(c) || GoodFileComment(c)
    ensures NUL !in LinesText(c)
  {
    hide SplitLines, Unlines;
    assert NUL !in "";
    NoNulLines(SplitLines(c));
  }

  lemma NoNulValue(v: string, fmt: Format)
    requires GoodValue(v, fmt.multiLine)
    ensures NUL !in ValueText(v, fmt)
  {
    hide SplitLines, Unlines;
    assert NUL !in v;
    NoNulSplit(v);
    NoNulLines(SplitLines(v));
  }

  lemma PairTextShape(key: string, v: DocValue, fmt: Format)
    requires GoodKeyName(key) && PlainValue(v, fmt.multiLine)
    ensures NUL !in PairText(key, v, fmt) && Starts(PairText(key, v, fmt))
  {
    hide ValueText, LinesText, GoodValue, GoodComment;
    assert NUL !in key;
    NoNulValue(v.value, fmt);
    if v.comment.Some? {
      NoNulComment(v.comment.value);
      assert PairText(key, v, fmt)[0] == '\n';
    } else {
      assert PairText(key, v, fmt)[0] == key[0];
    }
  }

  lemma {:induction false} PairsTextShape(k: DocKey, n: nat, fmt: Format)
    requires PlainKey(k, fmt.multiLine) && n <= |k.values|
    ensures NUL !in PairsText(k.name, k.values[..n], fmt) && (n > 0 ==> Starts(PairsText(k.name, k.values[..n], fmt)))
    decreases n
  {
    hide PairText, GoodKeyName, GoodValue, GoodComment;
    if n > 0 {
      assert k.values[..n][..n-1] == k.values[..n-1];
      PairsTextShape(k, n - 1, fmt);
      PairTextShape(k.name, k.values[n-1], fmt);
    }
  }

  lemma {:induction false} KeysTextShape(keys: seq<DocKey>, n: nat, fmt: Format)
    requires PlainKeys(keys, fmt.multiLine) && n <= |keys|
    ensures NUL !in KeysText(keys[..n], fmt) && (n > 0 ==> Starts(KeysText(keys[..n], fmt)))
    decreases n
  {
    hide PairsText, GoodKeyName, GoodValue, GoodComment;
    if n > 0 {
      assert keys[..n][..n-1] == keys[..n-1];
      KeysTextShape(keys, n - 1, fmt);
      var k := keys[n-1];
      assert k.values[..|k.values|] == k.values;
      PairsTextShape(k, |k.values|, fmt);
    }
  }

  lemma HeadTextShape(s: DocSection, first: bool, multiLine: bool)
    requires PlainSection(s, multiLine)
    ensures NUL !in HeadText(s, first)
  {
    hide LinesText, GoodComment, PlainKey;
    assert NUL !in s.name;
    if s.comment.Some? {
      NoNulComment(s.comment.value);
    }
  }

  lemma SectionTextShape(s: DocSection, first: bool, fmt: Format)
    requires PlainSection(s, fmt.multiLine)
    ensures NUL !in SectionText(s, first, fmt) && (!first || s.comment == None ==> Starts(SectionText(s, first, fmt)))
  {
    hide KeysText, PlainKey, LinesText, GoodComment;
    KeysTextShape(s.keys, |s.keys|, fmt);
    assert s.keys[..|s.keys|] == s.keys;
    HeadTextShape(s, first, fmt.multiLine);
    HeadParts(s, first);
  }

  lemma {:induction false} SectionsTextShape(doc: Doc, n: nat, first: bool, fmt: Format)
    requires PlainDoc(doc, fmt.multiLine) && n <= |doc.sections|
    ensures NUL !in SectionsText(doc.sections[..n], first, fmt)
    ensures n > 0 && (!first || doc.sections[0].comment == None) ==> Starts(SectionsText(doc.sections[..n], first, fmt))
    decreases n
  {
    hide SectionText, PlainSection, GoodFileComment;
    if n > 0 {
      SectionsNext(doc.sections, n - 1, first, fmt);
      SectionsTextShape(doc, n - 1, first, fmt);
      SectionTextShape(doc.sections[n-1], first && n == 1, fmt);
    }
  }

  function FileCommentText(doc: Doc): string {
    if doc.fileComment.Some? then LinesText(doc.fileComment.value) else ""
  }

  function FileCommentLines(doc: Doc): seq<string> {
    if doc.fileComment.Some? then SplitLines(doc.fileComment.value) else []
  }

  // The text is the file comment, then the sections
  lemma DocParts(doc: Doc, fmt: Format)
    requires PlainDoc(doc, fmt.multiLine)
    ensures var sections := SectionsText(doc.sections, doc.fileComment.None?, fmt);
            && DocText(doc, fmt) == FileCommentText(doc) + sections
            && NUL !in DocText(doc, fmt)
            && (sections != "" && !CommentLeads(doc) ==> Starts(sections))
  {
    hide SectionsText, PlainSection, LinesText, GoodFileComment;
    var n, first := |doc.sections|, doc.fileComment.None?;
    assert doc.sections[..n] == doc.sections;
    SectionsTextShape(doc, n, first, fmt);
    SectionsNone(first, fmt);
    if doc.fileComment.Some? {
      NoNulComment(doc.fileComment.value);
    }
  }

  lemma StartsWithFileComment(doc: Doc, fmt: Format)
    requires PlainDoc(doc, fmt.multiLine) && !CommentLeads(doc)
    ensures CommentBlock(DocText(doc, fmt), 0, false) == Block(FileCommentLines(doc), |FileCommentText(doc)|)
  {
    hide SectionsText, PlainSection, LinesText, SplitLines, GoodFileComment, DocText;
    var t := DocText(doc, fmt);
    var sections := SectionsText(doc.sections, doc.fileComment.None?, fmt);
    DocParts(doc, fmt);
    assert t[|FileCommentText(doc)|..] == sections && At(t, 0, FileCommentText(doc));
    if doc.fileComment.Some? {
      FileCommentThere(t, doc.fileComment.value);
    }
  }

  // The sections of a printed document, behind its file comment
  lemma ReadsDoc(doc: Doc, fmt: Format)
    requires PlainDoc(doc, fmt.multiLine)
    ensures var t, start := DocText(doc, fmt), |FileCommentText(doc)|;
            && Effective(t) == t && start <= |t| && Clean(t, start, fmt.multiLine)
            && Entries(t, start, "", fmt.multiLine) == DocEntries(doc.sections)
  {
    hide SectionsText, DocEntries, PlainSection, DocText, FileCommentText, GoodFileComment;
    var t, start, first := DocText(doc, fmt), |FileCommentText(doc)|, doc.fileComment.None?;
    var n := |doc.sections|;
    assert doc.sections[..n] == doc.sections;
    DocParts(doc, fmt);
    assert At(t, start, SectionsText(doc.sections, first, fmt));
    ReadsSections(t, start, doc, n, first, fmt);
    WithoutNul(t);
    assert Entries(t, |t|, if n == 0 then "" else doc.sections[n-1].name, fmt.multiLine) == [];
    assert DocEntries(doc.sections) + [] == DocEntries(doc.sections);
  }

  lemma WithoutNul(t: string)
    requires NUL !in t
    ensures Effective(t) == t
  {
    FirstOfIs(t, 0, {NUL}, |t|);
  }

  // ------------------------------------------------------------------
  // A section's comment at the start of the text

  // The lines before the first blank one
  function LeadingLines(lines: seq<string>): (n: nat)
    ensures n <= |lines| && (forall i | 0 <= i < n :: lines[i] != "") && (n < |lines| ==> lines[n] == "")
  {
    if lines == [] || lines[0] == "" then 0 else 1 + LeadingLines(lines[1..])
  }

  // Without the blank lines at the front
  function AfterBlanks(lines: seq<string>): (r: seq<string>)
    ensures |r| <= |lines| && r == lines[|lines|-|r|..]
  {
    if lines != [] && lines[0] == "" then AfterBlanks(lines[1..]) else lines
  }

  function RestComment(lines: seq<string>): Option<string> {
    if lines == [] then None else Some(Join(AfterBlanks(lines)))
  }

  /**
    What becomes of a document whose text starts with the comment of its first
    section: the lines up to the first blank one are taken for a file comment,
    and the section keeps the others. Other documents stay as they are.
  */
  function Reloaded(doc: Doc): Doc {
    if !CommentLeads(doc) then doc
    else
      var lines := SplitLines(doc.sections[0].comment.value);
      var n := LeadingLines(lines);
      Doc(Some(Join(lines[..n])), doc.sections[0 := doc.sections[0].(comment := RestComment(lines[n..]))])
  }

  lemma AfterBlanksStep(lines: seq<string>)
    ensures AfterBlanks(lines) == if lines != [] && lines[0] == "" then AfterBlanks(lines[1..]) else lines
  {
  }

  lemma {:induction false} BlanksThere(t: string, i: nat, lines: seq<string>) returns (j: nat)
    requires At(t, i, Unlines(lines)) && Remaining(lines)
    ensures j + |Unlines(AfterBlanks(lines))| == i + |Unlines(lines)|
    ensures i <= j <= |t| && At(t, j, Unlines(AfterBlanks(lines))) && SkipSpaces(t, i) == SkipSpaces(t, j)
    decreases |lines|
  {
    hide *;
    AfterBlanksStep(lines);
    AtFits(t, i, Unlines(lines));
    if lines != [] && lines[0] == "" {
      var l, rest := lines[0], lines[1..];
      RemainingRest(lines);
      UnlinesRest(l, rest);
      LineThere(t, i, l, Unlines(rest));
      AtNewline(t, i);
      j := BlanksThere(t, i + 1, rest);
    } else {
      j := i;
    }
  }

  lemma {:induction false} KeptLines(lines: seq<string>)
    requires Remaining(lines) && lines != []
    ensures Remaining(AfterBlanks(lines)) && CommentLines(AfterBlanks(lines))
    decreases |lines|
  {
    hide CommentLine;
    RemainingRest(lines);
    if lines[0] == "" {
      KeptLines(lines[1..]);
    }
  }

  lemma CommentRest(lines: seq<string>, n: nat)
    requires Remaining(lines) && n <= |lines|
    ensures Remaining(lines[n..]) && Unlines(lines) == Unlines(lines[..n]) + Unlines(lines[n..])
    decreases n
  {
    hide Unlines, CommentLine;
    if n == 0 {
      NoLine();
      assert lines[n..] == lines && lines[..n] == [] && "" + Unlines(lines) == Unlines(lines);
    } else {
      RemainingRest(lines);
      CommentRest(lines[1..], n - 1);
      UnlinesRest(lines[0], lines[1..]);
      UnlinesRest(lines[0], lines[1..][..n-1]);
      assert lines[..n] == [lines[0]] + lines[1..][..n-1] && lines[n..] == lines[1..][n-1..];
      assert lines[0] + "\n" + (Unlines(lines[1..][..n-1]) + Unlines(lines[n..])) == (lines[0] + "\n" + Unlines(lines[1..][..n-1])) + Unlines(lines[n..]);
    }
  }

  // The part of the comment that the section keeps, read from behind the other part
  lemma FindsRest(t: string, i: nat, lines: seq<string>, multiLine: bool)
    requires At(t, i, Unlines(lines)) && Remaining(lines)
    requires var j := i + |Unlines(lines)|; j < |t| && !IsSpace(t[j]) && !IsComment(t[j])
    ensures Find(t, i, Unchanged, None, multiLine) == Find(t, i + |Unlines(lines)|, Unchanged, RestComment(lines), multiLine)
    ensures RestComment(lines).Some? ==> GoodComment(RestComment(lines).value)
  {
    hide At, Unlines, Find, IsSpace, IsComment, Remaining, AfterBlanks, Join, CommentLines, SplitLines;
    if lines == [] {
      NoLine();
    } else {
      var kept := AfterBlanks(lines);
      var j := BlanksThere(t, i, lines);
      KeptLines(lines);
      FindPastSpaces(t, i, j, multiLine);
      KeptIsComment(kept);
      CommentThere(t, j, Join(kept), multiLine);
    }
  }

  lemma KeptIsComment(kept: seq<string>)
    requires CommentLines(kept) && Remaining(kept)
    ensures GoodComment(Join(kept)) && LinesText(Join(kept)) == Unlines(kept)
  {
    hide CommentLine, Unlines, Join, SplitLines;
    RemainingIsOneLine(kept);
    SplitJoin(kept);
    CommentIsUnlines(Join(kept));
  }

  lemma FindPastSpaces(t: string, i: nat, j: nat, multiLine: bool)
    requires i <= |t| && j <= |t| && SkipSpaces(t, i) == SkipSpaces(t, j)
    ensures Find(t, i, Unchanged, None, multiLine) == Find(t, j, Unchanged, None, multiLine)
  {
    hide TurnAt, SkipSpaces;
  }

  lemma {:induction false} FirstSectionThere(ss: seq<DocSection>, n: nat, fmt: Format)
    requires 1 <= n <= |ss|
    ensures SectionText(ss[0], true, fmt) <= SectionsText(ss[..n], true, fmt)
    decreases n
  {
    hide SectionText;
    SectionsNext(ss, n - 1, true, fmt);
    if n == 1 {
      SectionsNone(true, fmt);
      assert ss[..0] == [];
    } else {
      FirstSectionThere(ss, n - 1, fmt);
    }
  }

  // What the text of such a document starts with
  lemma LeadingHead(doc: Doc, fmt: Format)
    requires CommentLeads(doc) && doc.sections[0].name != ""
    ensures var t, s := DocText(doc, fmt), doc.sections[0];
            && At(t, 0, HeadComment(s) + HeadLine(s)) && At(t, 0, HeadComment(s)) && At(t, |HeadComment(s)|, HeadLine(s))
            && |HeadComment(s)| < |t| && t[|HeadComment(s)|] == '['
  {
    hide SectionsText, HeadText, HeadComment, KeysText;
    var t, s := DocText(doc, fmt), doc.sections[0];
    FirstSectionThere(doc.sections, |doc.sections|, fmt);
    assert doc.sections[..|doc.sections|] == doc.sections;
    HeadParts(s, true);
    assert At(t, 0, HeadComment(s) + HeadLine(s));
    AtSplit(t, 0, HeadComment(s), HeadLine(s));
    AtChar(t, |HeadComment(s)|, HeadLine(s), 0);
  }

  lemma LeadingAreComments(lines: seq<string>)
    requires CommentLines(lines)
    ensures var n := LeadingLines(lines); n > 0 && Remaining(lines) && Remaining(lines[..n]) && "" !in lines[..n]
    ensures forall l | l in lines[..LeadingLines(lines)] :: CommentLine(l)
  {
    hide IsComment, OneLine;
    var n := LeadingLines(lines);
    assert lines[0] != "" && n > 0;
    forall l | l in lines[..n]
      ensures l != "" && CommentLine(l)
    {
      assert l in lines;
    }
    assert lines[..n][n-1] in lines[..n];
  }

  // The lines that are taken for a file comment
  lemma TakesLeadingLines(t: string, lines: seq<string>)
    requires At(t, 0, Unlines(lines)) && CommentLines(lines)
    requires |Unlines(lines)| < |t| && t[|Unlines(lines)|] == '['
    ensures var n := LeadingLines(lines);
            && CommentBlock(t, 0, false) == Block(lines[..n], |Unlines(lines[..n])|)
            && At(t, |Unlines(lines[..n])|, Unlines(lines[n..])) && Remaining(lines[n..])
            && |Unlines(lines[..n])| + |Unlines(lines[n..])| == |Unlines(lines)|
  {
    hide At, Unlines, CommentBlock, CommentLines, Remaining, LeadingLines;
    var n := LeadingLines(lines);
    var j := |Unlines(lines[..n])|;
    LeadingAreComments(lines);
    CommentRest(lines, n);
    AtSplit(t, 0, Unlines(lines[..n]), Unlines(lines[n..]));
    if n < |lines| {
      var rest := lines[n..];
      assert rest == [""] + rest[1..];
      UnlinesRest("", rest[1..]);
      NewlineThere(t, j, Unlines(rest[1..]));
    } else {
      NoLine();
      assert lines[n..] == [];
    }
    ParseCommentLines(t, 0, lines[..n], false);
  }

  // Two places that lead to the same header, with different comments
  lemma SameHeader(t: string, i: nat, j: nat, s: string, c: Option<string>, c': Option<string>, e: nat, multiLine: bool)
    requires i <= |t| && j <= |t|
    requires Find(t, i, Unchanged, None, multiLine) == Header(s, c, e) && Find(t, j, Unchanged, None, multiLine) == Header(s, c', e)
    ensures Clean(t, i, multiLine) == Clean(t, j, multiLine)
    ensures var es := Entries(t, i, "", multiLine); es != [] && Entries(t, j, "", multiLine) == [Entry(s, None, c')] + es[1..]
  {
    hide Find;
  }

  lemma DocEntriesNext(ss: seq<DocSection>, n: nat)
    requires n < |ss|
    ensures DocEntries(ss[..n+1]) == DocEntries(ss[..n]) + SectionEntries(ss[n])
  {
    hide SectionEntries;
    assert ss[..n+1][..n] == ss[..n];
  }

  lemma FirstReplaced<T>(x: T, a: seq<T>, b: seq<T>)
    requires a != []
    ensures ([x] + a[1..]) + b == [x] + (a + b)[1..]
  {
  }

  lemma {:induction false} EntriesOfFirst(ss: seq<DocSection>, comment: Option<string>, n: nat)
    requires 1 <= n <= |ss| && ss[0].name != ""
    ensures var ss' := ss[0 := ss[0].(comment := comment)];
            var es := DocEntries(ss[..n]);
            es != [] && DocEntries(ss'[..n]) == [Entry(ss[0].name, None, comment)] + es[1..]
    decreases n
  {
    hide DocEntries, KeyEntries;
    var ss' := ss[0 := ss[0].(comment := comment)];
    DocEntriesNext(ss, n - 1);
    DocEntriesNext(ss', n - 1);
    if n == 1 {
      NoDocEntries(ss[..0]);
      NoDocEntries(ss'[..0]);
      assert [] + SectionEntries(ss[0]) == SectionEntries(ss[0]) && [] + SectionEntries(ss'[0]) == SectionEntries(ss'[0]);
    } else {
      EntriesOfFirst(ss, comment, n - 1);
      FirstReplaced(Entry(ss[0].name, None, comment), DocEntries(ss[..n-1]), SectionEntries(ss[n-1]));
    }
  }

  lemma NoDocEntries(ss: seq<DocSection>)
    requires ss == []
    ensures DocEntries(ss) == []
  {
  }

  // The file comment that a block of lines makes
  function BlockComment(lines: seq<string>): Option<string> {
    if lines == [] then None else Some(Join(lines))
  }

  /**
    The printed text of any plain document parses to the entries of the document
    that it becomes, behind the file comment of that document.
  */
  lemma ParseDoc(doc: Doc, fmt: Format)
    requires PlainDoc(doc, fmt.multiLine)
    ensures var t, doc' := DocText(doc, fmt), Reloaded(doc);
            var block := CommentBlock(t, 0, false);
            && Effective(t) == t && BlockComment(block.lines) == doc'.fileComment
            && Clean(t, block.next, fmt.multiLine)
            && Entries(t, block.next, "", fmt.multiLine) == DocEntries(doc'.sections)
  {
    hide Entries, Clean, DocText, CommentBlock, DocEntries, PlainSection, LinesText, SplitLines, GoodFileComment, Join, Reloaded;
    ReadsDoc(doc, fmt);
    if CommentLeads(doc) {
      ParseLeading(doc, fmt);
    } else {
      StartsWithFileComment(doc, fmt);
      NotReloaded(doc);
    }
  }

  lemma NotReloaded(doc: Doc)
    requires !CommentLeads(doc)
    ensures Reloaded(doc) == doc && BlockComment(FileCommentLines(doc)) == doc.fileComment
  {
    hide SplitLines, Join;
    if doc.fileComment.Some? {
      JoinSplit(doc.fileComment.value);
    }
  }

  lemma LeadingSection(doc: Doc, multiLine: bool)
    requires PlainDoc(doc, multiLine) && CommentLeads(doc)
    ensures var s := doc.sections[0];
            && GoodSectionName(s.name) && s.name != "" && GoodComment(s.comment.value)
            && FileCommentText(doc) == "" && HeadComment(s) == Unlines(SplitLines(s.comment.value))
            && CommentLines(SplitLines(s.comment.value))
  {
    hide SplitLines, Unlines, PlainKey, CommentLines;
    CommentIsUnlines(doc.sections[0].comment.value);
  }

  lemma ParseLeading(doc: Doc, fmt: Format)
    requires PlainDoc(doc, fmt.multiLine) && CommentLeads(doc)
    requires var t := DocText(doc, fmt); Clean(t, 0, fmt.multiLine) && Entries(t, 0, "", fmt.multiLine) == DocEntries(doc.sections)
    ensures var t, doc' := DocText(doc, fmt), Reloaded(doc);
            var block := CommentBlock(t, 0, false);
            && BlockComment(block.lines) == doc'.fileComment
            && Clean(t, block.next, fmt.multiLine)
            && Entries(t, block.next, "", fmt.multiLine) == DocEntries(doc'.sections)
  {
    hide Entries, Clean, DocText, CommentBlock, DocEntries, PlainDoc, SplitLines, Join, HeadComment, HeadLine, At, Unlines, Find,
         GoodSectionName, GoodComment, CommentLines, Remaining, LeadingLines, RestComment;
    var t, s, ml := DocText(doc, fmt), doc.sections[0], fmt.multiLine;
    var lines := SplitLines(s.comment.value);
    var n := LeadingLines(lines);
    var j, h := |Unlines(lines[..n])|, |Unlines(lines)|;
    LeadingSection(doc, ml);
    LeadingHead(doc, fmt);
    HeadLineIs(s);
    TakesLeadingLines(t, lines);
    LeadingAreComments(lines);
    FindsRest(t, j, lines[n..], ml);
    NamedHeader(t, h, s, RestComment(lines[n..]), ml);
    FindsHead(t, 0, s, ml);
    SameHeader(t, 0, j, s.name, s.comment, RestComment(lines[n..]), h + |s.name| + 2, ml);
    EntriesOfFirst(doc.sections, RestComment(lines[n..]), |doc.sections|);
    WholeSections(doc, RestComment(lines[n..]));
  }

  lemma WholeSections(doc: Doc, comment: Option<string>)
    requires doc.sections != []
    ensures doc.sections[..|doc.sections|] == doc.sections
    ensures var ss := doc.sections[0 := doc.sections[0].(comment := comment)]; ss[..|doc.sections|] == ss
  {
  }

  lemma NamedHeader(t: string, h: nat, s: DocSection, comment: Option<string>, multiLine: bool)
    requires GoodSectionName(s.name) && s.name != "" && At(t, h, HeadLine(s))
    ensures h <= |t| && Find(t, h, Unchanged, comment, multiLine) == Header(s.name, comment, h + |s.name| + 2)
  {
    hide Find, GoodSectionName;
    ParseHeader(t, h, s.name, comment, multiLine);
  }

  lemma LeadingFileComment(lines: seq<string>)
    requires CommentLines(lines)
    ensures GoodFileComment(Join(lines[..LeadingLines(lines)]))
  {
    hide CommentLines, Join, SplitLines, LeadingLines, CommentLine;
    var front := lines[..LeadingLines(lines)];
    LeadingAreComments(lines);
    RemainingIsOneLine(front);
    SplitJoin(front);
  }

  lemma LeftComment(lines: seq<string>)
    requires CommentLines(lines)
    ensures var rest := RestComment(lines[LeadingLines(lines)..]); rest.Some? ==> GoodComment(rest.value)
  {
    hide CommentLines, Join, AfterBlanks, LeadingLines, Remaining;
    var rest := lines[LeadingLines(lines)..];
    LeadingAreComments(lines);
    CommentRest(lines, LeadingLines(lines));
    if rest != [] {
      KeptLines(rest);
      KeptIsComment(AfterBlanks(rest));
    }
  }

  /** The document that a plain one becomes is plain, and becomes no other. */
  lemma ReloadedIsPlain(doc: Doc, multiLine: bool)
    requires PlainDoc(doc, multiLine)
    ensures PlainDoc(Reloaded(doc), multiLine) && !CommentLeads(Reloaded(doc))
    ensures Reloaded(doc) == doc <==> !CommentLeads(doc)
  {
    hide SplitLines, Join, GoodSectionName, PlainKeys, CommentLines, LeadingLines, RestComment, GoodFileComment, GoodComment;
    if CommentLeads(doc) {
      LeadingSection(doc, multiLine);
      LeadingFileComment(SplitLines(doc.sections[0].comment.value));
      LeftComment(SplitLines(doc.sections[0].comment.value));
    }
  }
}
