/**
  What any text can yield, in characters: the shapes of the names, keys, values
  and comments that the parser delivers, whatever it reads.
*/
module IniAnyText {
  import opened Options
  import opened IniText
  import opened IniParse
  import opened IniShapes
  import opened IniComments
  import opened IniValues
  import opened IniNormalise
  import opened IniCharacters
  import opened IniLines
  import opened IniBlocks

  // ------------------------------------------------------------------
  // Section names

  // From k on the name is a comment, behind a line break and blanks
  ghost predicate CommentFrom(n: string, j: nat, k: nat) {
    && j < k < |n| && n[j] in {'\n', '\r'} && (forall x | j < x < k :: n[x] in {' ', '\t'})
    && n[k] in {';', '#'} && forall x | k < x < |n| :: n[x] !in {'\n', '\r'}
  }

  ghost predicate EndsInComment(n: string) {
    exists j: nat, k: nat :: CommentFrom(n, j, k)
  }

  /** No white space at the ends, but for blanks behind a comment on a last line of its own. */
  ghost predicate NameInCharacters(n: string) {
    n != "" ==>
      && n[0] !in {' ', '\t', '\n', '\r'} && n[|n|-1] !in {'\n', '\r'} && '\0' !in n
      && (n[|n|-1] in {' ', '\t'} ==> EndsInComment(n))
  }

  // A '[' line that is pending has its name's first character behind the cursor, and the cursor is at the end of a line
  ghost predicate PendingAt(t: string, i: nat, sec: SectionRef) {
    match sec
    case Unchanged => true
    case Named(n) => NameInCharacters(n)
    case Unclosed(b) => i == |t| || (b < i < |t| && !IsSpace(t[b]) && IsNewLineChar(t[i]))
  }

  lemma {:induction false} LastBreak(t: string, i: nat, s: nat) returns (j: nat)
    requires i < s <= |t| && IsNewLineChar(t[i]) && forall k | i <= k < s :: IsSpace(t[k])
    ensures i <= j < s && t[j] in {'\n', '\r'} && forall x | j < x < s :: t[x] in {' ', '\t'}
    decreases s
  {
    if IsNewLineChar(t[s-1]) {
      j := s - 1;
    } else {
      j := LastBreak(t, i, s - 1);
    }
  }

  // A name that a key line ends
  lemma ClosedByKey(t: string, b: nat, r: nat)
    requires b < r <= |t| && !IsSpace(t[b]) && !IsSpace(t[r-1]) && NUL !in t
    ensures NameInCharacters(t[b..r]) && t[b..r] + "" == t[b..r]
  {
    var n := t[b..r];
    assert n[0] == t[b] && n[|n|-1] == t[r-1];
    assert forall c | c in n :: c in t;
  }

  lemma CommentOfOneLine(t: string, b: nat, i: nat, s: nat, l: string)
    requires b < i < s <= |t| && IsNewLineChar(t[i]) && (forall k | i <= k < s :: IsSpace(t[k])) && CommentLine(l)
    ensures EndsInComment(t[b..s] + l)
  {
    var n := t[b..s] + l;
    var j := LastBreak(t, i, s);
    assert forall x | 0 <= x < s - b :: n[x] == t[b + x];
    assert forall x | s - b < x < |n| :: n[x] == l[x - (s - b)] && n[x] in l;
    assert CommentFrom(n, j - b, s - b);
  }

  lemma CommentOfMoreLines(front: string, l: string)
    requires front != "" && front[|front|-1] == '\n' && CommentLine(l)
    ensures EndsInComment(front + l)
  {
    var n := front + l;
    assert forall x | |front| < x < |n| :: n[x] == l[x - |front|] && n[x] in l;
    assert CommentFrom(n, |front| - 1, |front|);
  }

  // A name that a comment ends
  lemma ClosedByComment(t: string, b: nat, i: nat, s: nat)
    requires b < i < |t| && !IsSpace(t[b]) && IsNewLineChar(t[i]) && s == SkipSpaces(t, i) < |t| && IsComment(t[s]) && NUL !in t
    ensures NameInCharacters(t[b..s] + Join(CommentBlock(t, s, true).lines))
  {
    hide Join, CommentBlock, Unlines, CommentLine, EndsInComment, SkipSpaces, IsComment, Remaining;
    var lines := CommentBlock(t, s, true).lines;
    BlockIsComment(t, s, true);
    RemainingIsOneLine(lines);
    JoinedLines(lines);
    BreakBeforeComment(t, i);
    var front, l := lines[..|lines|-1], lines[|lines|-1];
    RemainingLast(lines);
    assert lines == front + [l];
    JoinSnoc(front, l);
    if front == [] {
      UnlinesNone();
      assert t[b..s] + ("" + l) == t[b..s] + l;
      CommentOfOneLine(t, b, i, s, l);
    } else {
      UnlinesEnd(front);
      assert t[b..s] + (Unlines(front) + l) == (t[b..s] + Unlines(front)) + l;
      CommentOfMoreLines(t[b..s] + Unlines(front), l);
    }
    NameEnds(t[b..s], Join(lines), l);
    assert forall c | c in t[b..s] :: c in t;
  }

  lemma RemainingLast(lines: seq<string>)
    requires Remaining(lines) && lines != []
    ensures CommentLine(lines[|lines|-1])
  {
  }

  lemma UnlinesNone()
    ensures Unlines([]) == ""
  {
  }

  lemma UnlinesEnd(lines: seq<string>)
    requires lines != []
    ensures Unlines(lines) != "" && Unlines(lines)[|Unlines(lines)|-1] == '\n'
  {
  }

  lemma BreakBeforeComment(t: string, i: nat)
    requires i < |t| && IsNewLineChar(t[i])
    ensures var s := SkipSpaces(t, i); i < s && forall k | i <= k < s :: IsSpace(t[k])
  {
  }

  lemma NameEnds(front: string, text: string, l: string)
    requires CommentLine(l) && |text| >= |l| && text[|text|-|l|..] == l
    ensures var n := front + text; n[|n|-1] !in {'\n', '\r'}
  {
    var n := front + text;
    assert n[|n|-1] == text[|text|-|l|..][|l|-1] && l[|l|-1] in l;
  }

  // ------------------------------------------------------------------
  // Through the parse

  lemma PendingGoes(t: string, s: nat, comment: Option<string>)
    requires s < |t| && t[s] == '['
    ensures var turn := HeaderTurn(t, s, comment); turn.Go? ==> PendingAt(t, turn.next, turn.section)
  {
    hide TrimEnd, LineEnd;
    var b := SkipSpaces(t, s + 1);
    var e := FirstOf(t, b, HEADER_STOPS);
    if e < |t| && t[e] != ']' {
      assert t[e] in HEADER_STOPS && IsNewLineChar(t[e]) && IsSpace(t[e]);
    }
  }

  lemma HeaderName(t: string, s: nat, comment: Option<string>)
    requires s < |t| && t[s] == '[' && NUL !in t
    ensures var turn := HeaderTurn(t, s, comment); turn.Yield? ==> ReadsAsName(turn.found.name)
  {
    hide TrimEnd, SkipSpaces, FirstOf, LineEnd, OnLine, Tight;
    var b := SkipSpaces(t, s + 1);
    var e := FirstOf(t, b, HEADER_STOPS);
    if e < |t| && t[e] == ']' {
      if b < e {
        SkipStops(t, s + 1);
        TrimmedStretch(t, b, e, HEADER_STOPS);
        var n := t[b..TrimEnd(t, b, e)];
        OnLineIff(n);
        NoBreaksOnLine(n);
        TightIff(n);
      } else {
        TrimNothing(t, b);
        EmptyName();
      }
    }
  }

  lemma SkipStops(t: string, i: nat)
    requires i <= |t|
    ensures var b := SkipSpaces(t, i); b < |t| ==> !IsSpace(t[b])
  {
  }

  lemma TrimNothing(t: string, b: nat)
    requires b <= |t|
    ensures TrimEnd(t, b, b) == b && t[b..b] == ""
  {
  }

  lemma EmptyName()
    ensures ReadsAsName("")
  {
  }

  lemma NoBreaksOnLine(s: string)
    requires OnLine(s)
    ensures '\n' !in s && '\r' !in s
  {
  }

  ghost predicate NameFound(found: Found) {
    match found
    case Header(name, _, _) => ReadsAsName(name)
    case Pair(sec, _, _, _, _) => sec.Unchanged? || (sec.Named? && NameInCharacters(sec.name))
    case _ => true
  }

  lemma PendingComment(t: string, i: nat, sec: SectionRef)
    requires i <= |t| && NUL !in t && PendingAt(t, i, sec)
    requires SkipSpaces(t, i) < |t| && IsComment(t[SkipSpaces(t, i)]) && (sec.Unclosed? ==> sec.start <= i)
    ensures var turn := CommentTurn(t, SkipSpaces(t, i), sec); turn.Go? && PendingAt(t, turn.next, turn.section)
  {
    hide Join, CommentBlock, SkipSpaces, NameInCharacters;
    if sec.Unclosed? {
      ClosedByComment(t, sec.start, i, SkipSpaces(t, i));
    }
  }

  lemma PendingKey(t: string, i: nat, sec: SectionRef, comment: Option<string>, multiLine: bool)
    requires i <= |t| && NUL !in t && PendingAt(t, i, sec) && (sec.Unclosed? ==> sec.start <= i)
    requires SkipSpaces(t, i) < |t| && !IsSpace(t[SkipSpaces(t, i)])
    ensures match KeyTurn(t, SkipSpaces(t, i), sec, comment, multiLine)
            case Yield(found) => NameFound(found)
            case Go(next, sec', _) => PendingAt(t, next, sec')
  {
    hide SkipSpaces, NameInCharacters, ValueAt, TrimEnd;
    var s := SkipSpaces(t, i);
    var e := FirstOf(t, s, KEY_STOPS);
    if e < |t| && t[e] == '=' && e != s && sec.Unclosed? {
      KeyEnds(t, s, e);
      ClosedByKey(t, sec.start, TrimEnd(t, s, e));
    }
  }

  lemma KeyEnds(t: string, s: nat, e: nat)
    requires s < e <= |t| && !IsSpace(t[s])
    ensures var r := TrimEnd(t, s, e); s < r && !IsSpace(t[r-1])
  {
  }

  lemma {:induction false} FindsName(t: string, i: nat, sec: SectionRef, comment: Option<string>, multiLine: bool)
    requires i <= |t| && NUL !in t && (sec.Unclosed? ==> sec.start <= i) && PendingAt(t, i, sec)
    ensures NameFound(Find(t, i, sec, comment, multiLine))
    decreases |t| - i
  {
    hide SkipSpaces, CommentTurn, HeaderTurn, KeyTurn, IsComment, NameInCharacters, ReadsAsName, PendingAt, NUL;
    var s := SkipSpaces(t, i);
    if s < |t| {
      if IsComment(t[s]) {
        PendingComment(t, i, sec);
      } else if t[s] == '[' {
        PendingGoes(t, s, comment);
        HeaderName(t, s, comment);
      } else {
        PendingKey(t, i, sec, comment, multiLine);
      }
      match TurnAt(t, s, sec, comment, multiLine) {
        case Yield(found) =>
        case Go(next, sec', comment') => FindsName(t, next, sec', comment', multiLine);
      }
    }
  }

  lemma NameIsInCharacters(n: string)
    requires ReadsAsName(n)
    ensures NameInCharacters(n)
  {
    if n != "" {
      assert n[0] in n && n[|n|-1] in n;
    }
  }

  lemma {:induction false} EntryNames(t: string, i: nat, section: string, multiLine: bool)
    requires i <= |t| && NUL !in t && NameInCharacters(section)
    ensures forall e | e in Entries(t, i, section, multiLine) :: NameInCharacters(e.section) && (e.pair == None ==> ReadsAsName(e.section))
    decreases |t| - i
  {
    hide Find, NameInCharacters, ReadsAsName, NUL;
    FindsName(t, i, Unchanged, None, multiLine);
    match Find(t, i, Unchanged, None, multiLine) {
      case End =>
      case Header(name, comment, next) =>
        NameIsInCharacters(name);
        EntryNames(t, next, name, multiLine);
      case Pair(sec, key, value, comment, next) => EntryNames(t, next, NameOf(sec, section), multiLine);
      case BodylessPair =>
    }
  }

  // ------------------------------------------------------------------
  // Keys, values and comments

  /** The characters of an entry: of its key, of its value in single-line mode, of its comment and of its section's name. */
  ghost predicate EntryInCharacters(e: Entry, multiLine: bool) {
    && NameInCharacters(e.section) && (e.pair == None ==> ReadsAsName(e.section))
    && (e.comment.Some? ==> ReadsAsComment(e.comment.value))
    && (e.pair.Some? ==> ReadsAsKey(e.pair.value.0) && (!multiLine ==> OnLine(e.pair.value.1) && Tight(e.pair.value.1)))
  }

  /** Every entry of every text is one of these. */
  lemma EntriesInCharacters(t: string, section: string, i: nat, multiLine: bool)
    requires i <= |t| && '\0' !in t && NameInCharacters(section)
    ensures forall e | e in Entries(t, i, section, multiLine) :: EntryInCharacters(e, multiLine)
  {
    hide Entries, NameInCharacters, ReadsAsName, ReadsAsKey, ReadsAsComment, GoodKeyName, GoodValue, GoodComment, OnLine, Tight;
    EntryNames(t, i, section, multiLine);
    EntriesAreGood(t, i, section, multiLine);
    forall e | e in Entries(t, i, section, multiLine)
      ensures EntryInCharacters(e, multiLine)
    {
      if e.comment.Some? {
        CommentInShape(e.comment.value);
      }
      if e.pair.Some? {
        KeyInCharacters(e.pair.value.0);
        ShortInCharacters(e.pair.value.1);
      }
    }
  }

  lemma ShortInCharacters(v: string)
    ensures GoodValue(v, false) <==> OnLine(v) && Tight(v)
  {
    OnLineIff(v);
    if '\n' !in v && '\r' !in v {
      TightIff(v);
    }
  }

  // ------------------------------------------------------------------
  // A section name with a blank at its end

  lemma OneCommentLine(c: string)
    requires c != "" && Without(c, {'\n', '\r'}) && c[0] in {';', '#'}
    ensures Rest([c]) && Lines([c], "\n") == c + "\n" && "\n" in BREAKS && White("\n") && White("") && Blank("")
  {
    assert [c][1..] == [];
    assert BREAKS[0] == "\n";
  }

  /**
    In this text the section's name ends as the comment does. So a name with a
    blank at its end comes of such a comment, and of nothing else.
  */
  lemma NameEndsLikeComment(n: string, c: string, k: string, v: string)
    requires n != "" && Without(n, {'\n', '\r', ']'}) && n[0] !in {' ', '\t'}
    requires c != "" && Without(c, {'\n', '\r'}) && c[0] in {';', '#'}
    requires ReadsAsKey(k) && OnLine(v) && Tight(v)
    ensures Entries("[" + n + "\n" + c + "\n" + k + "=" + v, 0, "", false) == [Entry(n + "\n" + c, Some((k, v)), Some(c))]
  {
    hide *;
    var t := "[" + n + "\n" + c + "\n" + k + "=" + v;
    var j := |n| + |c| + 3;
    OneCommentLine(c);
    NameTextParts(t, n, c, k, v);
    NoCommentBehind(t, j);
    UnclosedWithComment(t, 0, "", "", n, "\n", [c], "\n", c, None, false);
    PairIsRead(t, j, "", k, "", "", v, "", "", Named(n + "\n" + c), Some(c), false);
    OnlyPair(t, Named(n + "\n" + c), k, v, Some(c), false);
    NameOfNamed(n + "\n" + c);
  }

  lemma NameTextParts(t: string, n: string, c: string, k: string, v: string)
    requires t == "[" + n + "\n" + c + "\n" + k + "=" + v && ReadsAsKey(k)
    ensures var j := |n| + |c| + 3;
            && At(t, 0, "" + ("[" + "" + n) + ("\n" + (c + "\n"))) && |"" + ("[" + "" + n) + ("\n" + (c + "\n"))| == j
            && At(t, j, "" + (k + "" + "=") + ("" + v + "")) && |"" + (k + "" + "=") + ("" + v + "")| == |t| - j
            && BreakAt(t, |t|, "") && j < |t| && t[j] !in {' ', '\t', '\n', '\r', ';', '#'} && Ends(t, j, "\n")
            && |"" + (k + "" + "=") + ("" + v + "") + ""| == |t| - j
  {
    hide OnLine, Tight;
    var front, rest := "[" + n + "\n" + c + "\n", k + "=" + v;
    assert "" + ("[" + "" + n) + ("\n" + (c + "\n")) == front;
    assert "" + (k + "" + "=") + ("" + v + "") == rest && rest + "" == rest;
    assert t == front + rest;
    assert t[|front|] == k[0];
    KeyStarts(k);
  }

  lemma KeyStarts(k: string)
    requires ReadsAsKey(k)
    ensures k != "" && k[0] !in {' ', '\t', '\n', '\r', ';', '#', '['}
  {
    assert k[0] in k;
  }

  lemma NoCommentBehind(t: string, j: nat)
    requires j < |t| && t[j] !in {' ', '\t', '\n', '\r', ';', '#'}
    ensures NoCommentAt(t, j)
  {
  }

  lemma NameOfNamed(n: string)
    ensures NameOf(Named(n), "") == n
  {
  }
}
