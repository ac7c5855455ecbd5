/**
  What the INI parser reads out of a text, as functions of the text alone.
  Module IniScan proves that the in-place parser computes exactly this.
*/
module IniParse {
  import opened Options
  import opened IniText

  // ------------------------------------------------------------------
  // Blocks of lines: comments and multi-line values

  // Lines, and the position where reading goes on
  datatype Block = Block(lines: seq<string>, next: nat)

  // The line breaks in a run of white space
  function Breaks(t: string, i: nat, j: nat): nat
    requires i <= j <= |t| && (forall k | i <= k < j :: IsSpace(t[k])) && (j < |t| ==> !IsSpace(t[j]))
    decreases j - i
  {
    if i == j then 0
    else if IsNewLineChar(t[i]) then 1 + Breaks(t, SkipNewLine(t, i), j)
    else Breaks(t, i + 1, j)
  }

  function BlankLines(n: nat): (lines: seq<string>)
    ensures |lines| == n
  {
    if n == 0 then [] else BlankLines(n - 1) + [""]
  }

  /** A run of comment lines; with blanks on, white space between two comment lines stays inside as blank lines. */
  function CommentBlock(t: string, i: nat, blanks: bool): (r: Block)
    requires i <= |t|
    ensures i <= r.next <= |t|
    decreases |t| - i
  {
    if i < |t| && IsComment(t[i]) then
      var e := LineEnd(t, i);
      if e == |t| then Block([t[i..e]], e)
      else
        var rest := CommentBlock(t, SkipNewLine(t, e), blanks);
        Block([t[i..e]] + rest.lines, rest.next)
    else
      var s := SkipSpaces(t, i);
      if blanks && s < |t| && IsComment(t[s]) then
        var rest := CommentBlock(t, s, blanks);
        Block(BlankLines(Breaks(t, i, s)) + rest.lines, rest.next)
      else Block([], i)
  }

  /** The lines before the first line that equals the tag (in any letter case), or all lines when there is none. */
  function TagBlock(t: string, i: nat, tag: string): (r: Block)
    requires i <= |t|
    ensures i <= r.next <= |t|
    decreases |t| - i
  {
    var e := LineEnd(t, i);
    if SameName(t[i..e], tag) then Block([], AfterLine(t, e))
    else if e == |t| then Block([t[i..e]], e)
    else
      var rest := TagBlock(t, SkipNewLine(t, e), tag);
      Block([t[i..e]] + rest.lines, rest.next)
  }

  function AfterLine(t: string, e: nat): (r: nat)
    requires e <= |t|
    ensures e <= r <= |t|
  {
    if e < |t| then SkipNewLine(t, e) else e
  }

  // ------------------------------------------------------------------
  // Entries

  // What the section pointer refers to: what it did before, a '[' line without ']' that
  // starts at a position and is still unterminated, or a name
  datatype SectionRef = Unchanged | Unclosed(start: nat) | Named(name: string)

  datatype Value = Parsed(text: string, next: nat) | NoValue | Bodyless

  datatype Found =
    | End
    | Header(name: string, comment: Option<string>, next: nat)
    | Pair(section: SectionRef, key: string, value: string, comment: Option<string>, next: nat)
    | BodylessPair

  const OPENING := "<<<"
  const HEADER_STOPS: set<char> := {']', '\n', '\r'}
  const KEY_STOPS: set<char> := {'=', '\n', '\r'}

  // White space that does not end the line
  function SkipBlanks(t: string, i: nat): (r: nat)
    requires i <= |t|
    ensures i <= r <= |t|
    ensures forall k | i <= k < r :: IsSpace(t[k]) && !IsNewLineChar(t[k])
    ensures r < |t| ==> IsNewLineChar(t[r]) || !IsSpace(t[r])
    decreases |t| - i
  {
    if i == |t| || IsNewLineChar(t[i]) || !IsSpace(t[i]) then i else SkipBlanks(t, i + 1)
  }

  // The trimmed rest of a line
  function LineValue(t: string, v: nat): string
    requires v <= |t|
  {
    t[v..TrimEnd(t, v, LineEnd(t, v))]
  }

  /** The value after an equals sign: the rest of the line, or the block that a "<<<TAG" line opens. */
  function ValueAt(t: string, i: nat, multiLine: bool): (r: Value)
    requires i <= |t|
    ensures r.Parsed? ==> i <= r.next <= |t|
  {
    var v := SkipBlanks(t, i);
    var line := LineValue(t, v);
    var n := AfterLine(t, LineEnd(t, v));
    if multiLine && OPENING <= line then
      var block := TagBlock(t, n, line[3..]);
      if block.lines != [] then Parsed(Join(block.lines), block.next)
      else if LineEnd(t, n) == n then NoValue
      else Bodyless
    else Parsed(line, n)
  }

  // Naming an unclosed header by the text that the next planted NUL ends
  function Close(t: string, s: SectionRef, end: nat, tail: string): (r: SectionRef)
    requires end <= |t| && (s.Unclosed? ==> s.start <= end)
    ensures !r.Unclosed?
  {
    if s.Unclosed? then Named(t[s.start..end] + tail) else s
  }

  // What one line or comment does: it yields an entry (or ends the parse), or reading goes on
  datatype Turn = Yield(found: Found) | Go(next: nat, section: SectionRef, comment: Option<string>)

  function CommentTurn(t: string, s: nat, sec: SectionRef): (r: Turn)
    requires s < |t| && IsComment(t[s]) && (sec.Unclosed? ==> sec.start <= s)
    ensures r.Go? && s < r.next <= |t| && !r.section.Unclosed?
  {
    var block := CommentBlock(t, s, true);
    assert s < LineEnd(t, s);
    var text := Join(block.lines);
    Go(block.next, Close(t, sec, s, text), Some(text))
  }

  function HeaderTurn(t: string, s: nat, comment: Option<string>): (r: Turn)
    requires s < |t| && t[s] == '['
    ensures r.Go? ==> s < r.next <= |t| && (r.section.Unclosed? ==> r.section.start <= r.next)
    ensures r.Yield? && r.found.Header? ==> s < r.found.next <= |t|
    ensures r.Yield? ==> r.found.Header?
  {
    var b := SkipSpaces(t, s + 1);
    var e := FirstOf(t, b, HEADER_STOPS);
    if e == |t| || t[e] != ']' then Go(e, Unclosed(b), comment)
    else Yield(Header(t[b..TrimEnd(t, b, e)], comment, LineEnd(t, e + 1)))
  }

  // What the key line with its equals sign at e yields
  function PairTurn(t: string, s: nat, e: nat, sec: SectionRef, comment: Option<string>, multiLine: bool): (r: Found)
    requires s < e < |t| && (sec.Unclosed? ==> sec.start <= s)
    ensures r.Pair? ==> s < r.next <= |t|
    ensures !r.Header?
  {
    match ValueAt(t, e + 1, multiLine)
    case Parsed(value, next) => Pair(Close(t, sec, TrimEnd(t, s, e), ""), t[s..TrimEnd(t, s, e)], value, comment, next)
    case NoValue => End
    case Bodyless => BodylessPair
  }

  function KeyTurn(t: string, s: nat, sec: SectionRef, comment: Option<string>, multiLine: bool): (r: Turn)
    requires s < |t| && !IsSpace(t[s]) && (sec.Unclosed? ==> sec.start <= s)
    ensures r.Go? ==> s < r.next <= |t| && r.section == sec
    ensures r.Yield? && r.found.Pair? ==> s < r.found.next <= |t|
    ensures r.Yield? ==> !r.found.Header?
  {
    var e := FirstOf(t, s, KEY_STOPS);
    if e == |t| || t[e] != '=' then Go(e, sec, comment)
    else if e == s then Go(LineEnd(t, e), sec, comment)
    else Yield(PairTurn(t, s, e, sec, comment, multiLine))
  }

  function TurnAt(t: string, s: nat, sec: SectionRef, comment: Option<string>, multiLine: bool): (r: Turn)
    requires s < |t| && !IsSpace(t[s]) && (sec.Unclosed? ==> sec.start <= s)
    ensures r.Go? ==> s < r.next <= |t| && (r.section.Unclosed? ==> r.section.start <= r.next)
    ensures r.Yield? && (r.found.Header? || r.found.Pair?) ==> s < r.found.next <= |t|
  {
    if IsComment(t[s]) then CommentTurn(t, s, sec)
    else if t[s] == '[' then HeaderTurn(t, s, comment)
    else KeyTurn(t, s, sec, comment, multiLine)
  }

  /** The next entry at or after i, together with the comment and the unclosed header met on the way. */
  function Find(t: string, i: nat, sec: SectionRef, comment: Option<string>, multiLine: bool): (r: Found)
    requires i <= |t| && (sec.Unclosed? ==> sec.start <= i)
    ensures r.Header? || r.Pair? ==> i < r.next <= |t|
    decreases |t| - i
  {
    var s := SkipSpaces(t, i);
    if s == |t| then End
    else
      match TurnAt(t, s, sec, comment, multiLine)
      case Yield(found) => found
      case Go(next, sec', comment') => Find(t, next, sec', comment', multiLine)
  }

  // One call of AddEntry by Load
  datatype Entry = Entry(section: string, pair: Option<(string, string)>, comment: Option<string>)

  function NameOf(sec: SectionRef, current: string): string {
    if sec.Named? then sec.name else current
  }

  /** All entries from i on, the section name carried from header to header. */
  function Entries(t: string, i: nat, section: string, multiLine: bool): seq<Entry>
    requires i <= |t|
    decreases |t| - i
  {
    match Find(t, i, Unchanged, None, multiLine)
    case End => []
    case Header(name, comment, next) =>
      [Entry(name, None, comment)] + Entries(t, next, name, multiLine)
    case Pair(sec, key, value, comment, next) =>
      var name := NameOf(sec, section);
      [Entry(name, Some((key, value)), comment)] + Entries(t, next, name, multiLine)
    case BodylessPair => []
  }

  /** No multi-line value opens with its own end tag as first line; the parser misreads exactly those. */
  predicate Clean(t: string, i: nat, multiLine: bool)
    requires i <= |t|
    decreases |t| - i
  {
    match Find(t, i, Unchanged, None, multiLine)
    case End => true
    case Header(_, _, next) => Clean(t, next, multiLine)
    case Pair(_, _, _, _, next) => Clean(t, next, multiLine)
    case BodylessPair => false
  }

  // The text that is parsed: what precedes the first NUL
  function Effective(data: string): (t: string)
    ensures NUL !in t
  {
    data[..FirstOf(data, 0, {NUL})]
  }
}
