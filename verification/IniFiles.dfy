/**
  Whole files, in characters: the UTF-8 signature, which comment becomes the file
  comment, and how far comments and section names reach.
*/
module IniFiles {
  import opened Options
  import opened IniText
  import opened IniParse
  import opened IniStore
  import opened IniMultimap
  import opened IniView
  import opened IniShapes
  import opened IniRoundTrip
  import opened IniCharacters
  import opened IniLines
  import opened IniBlocks
  import opened IniAnyText
  import Ini

  /** In a UTF-8 file the three bytes EF BB BF at the start are passed over, and nothing else ever is. */
  lemma PayloadInCharacters(text: string)
    ensures Ini.Payload("\U{EF}\U{BB}\U{BF}" + text, true) == text
    ensures Ini.Payload(text, false) == text
    ensures !("\U{EF}\U{BB}\U{BF}" <= text) ==> Ini.Payload(text, true) == text
  {
    var signed := "\U{EF}\U{BB}\U{BF}" + text;
    assert signed[3..] == text && "\U{EF}\U{BB}\U{BF}" <= signed;
  }

  /**
    The lines that start with ';' or '#' at the start of a text become the file
    comment of a store without one; a store that has one keeps it, and a text that
    starts otherwise brings none.
  */
  lemma FileCommentInCharacters(st: Store, t: string, lines: seq<string>, b: string, c: string, multiLine: bool)
    requires Sorted(st) && b in BREAKS && At(t, 0, Lines(lines, b)) && Ends(t, |Lines(lines, b)|, b)
    requires forall l | l in lines :: l != "" && Without(l, {'\n', '\r'}) && l[0] in {';', '#'}
    requires |Lines(lines, b)| < |t| ==> t[|Lines(lines, b)|] !in {';', '#'}
    requires c + "\n" == Lines(lines, "\n") || (lines == [] && c == "")
    ensures LoadText(st, t, multiLine).fileComment
         == if st.fileComment.Some? || lines == [] then st.fileComment else Some(c)
    ensures |Lines(lines, b)| <= |t| && EntriesStart(st, t) == if st.fileComment.Some? then 0 else |Lines(lines, b)|
  {
    hide AddAll, Entries, CommentBlock, Join, Lines, At, Without, Ends;
    FileCommentIsRead(t, 0, lines, b);
    AtFits(t, 0, Lines(lines, b));
    if lines != [] {
      JoinInCharacters(lines);
      assert (Join(lines) + "\n")[..|Join(lines)|] == Join(lines) && (c + "\n")[..|c|] == c;
    }
    FileCommentStays(WithFileComment(st, t), Entries(t, EntriesStart(st, t), "", multiLine));
  }

  /** A text ends at its first NUL. */
  lemma EffectiveInCharacters(a: string, b: string)
    requires '\0' !in a
    ensures Effective(a) == a && Effective(a + "\0" + b) == a
  {
    FirstOfIs(a, 0, {NUL}, |a|);
    var t := a + "\0" + b;
    assert forall k | 0 <= k < |a| :: t[k] == a[k];
    FirstOfIs(t, 0, {NUL}, |a|);
    assert t[..|a|] == a;
  }

  // ------------------------------------------------------------------
  // Sections and comments over several lines

  // A line of a pair
  function PairLine(w: string, k: string, v: string): string {
    w + (k + "=" + v) + "\n"
  }

  predicate ReadsAsPair(k: string, v: string, multiLine: bool) {
    ReadsAsKey(k) && OnLine(v) && Tight(v) && (multiLine ==> !("<<<" <= v))
  }

  lemma PairLineParts(t: string, i: nat, w: string, k: string, v: string)
    requires At(t, i, PairLine(w, k, v))
    ensures At(t, i, w + (k + "" + "=") + ("" + v + "")) && BreakAt(t, i + |w + (k + "" + "=") + ("" + v + "")|, "\n")
    ensures |w + (k + "" + "=") + ("" + v + "") + "\n"| == |PairLine(w, k, v)| && Blank("")
    ensures i + |PairLine(w, k, v)| <= |t|
  {
    hide At;
    assert w + (k + "" + "=") + ("" + v + "") == w + (k + "=" + v);
    AtSplit(t, i, w + (k + "=" + v), "\n");
    AtFits(t, i, PairLine(w, k, v));
    OneBreak(t, i + |w + (k + "=" + v)|);
  }

  lemma OneBreak(t: string, p: nat)
    requires At(t, p, "\n")
    ensures BreakAt(t, p, "\n")
  {
    assert ["\n", "\r", "\r\n"][0] == "\n";
  }

  // The entry that it gives, in front of those behind it
  lemma PairLineIsRead(t: string, i: nat, w: string, k: string, v: string, name: string, multiLine: bool)
    requires At(t, i, PairLine(w, k, v)) && White(w) && ReadsAsPair(k, v, multiLine)
    ensures var j := i + |PairLine(w, k, v)|;
            j <= |t| && Entries(t, i, name, multiLine) == [Entry(name, Some((k, v)), None)] + Entries(t, j, name, multiLine)
  {
    hide *;
    PairLineParts(t, i, w, k, v);
    IsPair(k, v, multiLine);
    PairIsRead(t, i, w, k, "", "", v, "", "\n", Unchanged, None, multiLine);
    NextPair(t, i, Unchanged, k, v, None, i + |PairLine(w, k, v)|, name, multiLine);
    NoNewName(name);
  }

  lemma IsPair(k: string, v: string, multiLine: bool)
    requires ReadsAsPair(k, v, multiLine)
    ensures ReadsAsKey(k) && OnLine(v) && Tight(v) && (multiLine ==> !("<<<" <= v))
  {
  }

  lemma NextPair(t: string, i: nat, sec: SectionRef, k: string, v: string, comment: Option<string>, j: nat, name: string, multiLine: bool)
    requires i <= |t| && j <= |t| && Find(t, i, Unchanged, None, multiLine) == Pair(sec, k, v, comment, j)
    ensures Entries(t, i, name, multiLine) == [Entry(NameOf(sec, name), Some((k, v)), comment)] + Entries(t, j, NameOf(sec, name), multiLine)
  {
    hide Find;
  }

  lemma NextHeader(t: string, i: nat, n: string, comment: Option<string>, j: nat, name: string, multiLine: bool)
    requires i <= |t| && j <= |t| && Find(t, i, Unchanged, None, multiLine) == Header(n, comment, j)
    ensures Entries(t, i, name, multiLine) == [Entry(n, None, comment)] + Entries(t, j, n, multiLine)
  {
    hide Find;
  }

  lemma NothingMore(t: string, name: string, multiLine: bool)
    ensures Entries(t, |t|, name, multiLine) == []
  {
    assert SkipSpaces(t, |t|) == |t|;
  }

  lemma TwoPairs(t: string, i: nat, w: string, k: string, v: string, k': string, v': string, name: string, multiLine: bool)
    requires i <= |t| && t[i..] == PairLine(w, k, v) + PairLine("", k', v')
    requires White(w) && ReadsAsPair(k, v, multiLine) && ReadsAsPair(k', v', multiLine)
    ensures Entries(t, i, name, multiLine) == [Entry(name, Some((k, v)), None), Entry(name, Some((k', v')), None)]
  {
    hide *;
    Behind(t, i, PairLine(w, k, v), PairLine("", k', v'));
    NoWhite();
    PairLineIsRead(t, i, w, k, v, name, multiLine);
    PairLineIsRead(t, i + |PairLine(w, k, v)|, "", k', v', name, multiLine);
    NothingMore(t, name, multiLine);
  }

  lemma NoWhite()
    ensures White("")
  {
  }

  lemma Behind(t: string, i: nat, a: string, b: string)
    requires i <= |t| && t[i..] == a + b
    ensures At(t, i, a) && At(t, i + |a|, b) && i + |a| + |b| == |t| && t[i+|a|..] == b
  {
    assert t[i..] == t[i..|t|];
    assert At(t, i, a + b);
    AtSplit(t, i, a, b);
    assert t[i+|a|..] == t[i..][|a|..];
  }

  lemma SectionParts(t: string, c: string, n: string, rest: string)
    requires t == c + "\n" + ("[" + n + "]") + rest && rest != "" && rest[0] == '\n'
    ensures var j := |c| + 1; var head := "" + ("[" + "" + n + "") + ("]" + "");
            && At(t, 0, "" + (c + "\n")) && |"" + (c + "\n")| == j && j < |t| && t[j] == '['
            && At(t, j, head) && |head| == |n| + 2 && BreakAt(t, j + |head|, "\n")
            && j + |n| + 2 <= |t| && t[j+|n|+2..] == rest
  {
    var j := |c| + 1;
    var head := "" + ("[" + "" + n + "") + ("]" + "");
    assert head == "[" + n + "]" && "" + (c + "\n") == c + "\n";
    assert t[0..j] == c + "\n" && t[j..j+|n|+2] == "[" + n + "]" && t[j+|n|+2..] == rest;
    assert t[j..j+|n|+2][0] == '[';
    assert t[j+|n|+2..j+|n|+3] == "\n";
    OneBreak(t, j + |head|);
  }

  lemma OpenBracket(t: string, j: nat)
    requires j < |t| && t[j] == '['
    ensures NoCommentAt(t, j) && Ends(t, j, "\n")
  {
  }

  lemma StartsWithBreak(k: string, v: string, rest: string)
    ensures var s := PairLine("\n", k, v) + rest; s != "" && s[0] == '\n'
  {
  }

  lemma EmptyParts()
    ensures White("") && Blank("") && Without("", {'\n', '\r'}) && White("\n")
  {
  }

  /** A comment belongs to the header behind it and to nothing further, and the header names the section of the pairs behind it. */
  lemma SectionIsRead(c: string, n: string, k: string, v: string, k': string, v': string, name: string, multiLine: bool)
    requires c != "" && Without(c, {'\n', '\r'}) && c[0] in {';', '#'} && ReadsAsName(n)
    requires ReadsAsPair(k, v, multiLine) && ReadsAsPair(k', v', multiLine)
    ensures Entries(c + "\n" + ("[" + n + "]") + (PairLine("\n", k, v) + PairLine("", k', v')), 0, name, multiLine)
         == [Entry(n, None, Some(c)), Entry(n, Some((k, v)), None), Entry(n, Some((k', v')), None)]
  {
    hide *;
    var pairs := PairLine("\n", k, v) + PairLine("", k', v');
    var t := c + "\n" + ("[" + n + "]") + pairs;
    var j := |c| + 1;
    OneCommentLine(c);
    StartsWithBreak(k, v, PairLine("", k', v'));
    SectionParts(t, c, n, pairs);
    OpenBracket(t, j);
    EmptyParts();
    CommentIsRead(t, 0, "", [c], "\n", c, Unchanged, None, multiLine);
    HeaderIsRead(t, j, "", "", n, "", "", "\n", Close(t, Unchanged, 0, c), Some(c), multiLine);
    NextHeader(t, 0, n, Some(c), j + |n| + 2, name, multiLine);
    TwoPairs(t, j + |n| + 2, "\n", k, v, k', v', n, multiLine);
  }

  /** The name of a '[' line without ']' is the section of all pairs up to the next header, not of its own key only. */
  lemma UnclosedSectionIsRead(n: string, k: string, v: string, k': string, v': string, name: string, multiLine: bool)
    requires n != "" && Without(n, {'\n', '\r', ']'}) && n[0] !in {' ', '\t'}
    requires ReadsAsPair(k, v, multiLine) && ReadsAsPair(k', v', multiLine)
    ensures Entries("[" + n + PairLine("\n", k, v) + PairLine("", k', v'), 0, name, multiLine)
         == [Entry(n + "\n" + k, Some((k, v)), None), Entry(n + "\n" + k, Some((k', v')), None)]
  {
    hide *;
    var t := "[" + n + PairLine("\n", k, v) + PairLine("", k', v');
    var j := 1 + |n| + |PairLine("\n", k, v)|;
    UnclosedParts(t, n, k, v, PairLine("", k', v'));
    EmptyParts();
    IsPair(k, v, multiLine);
    UnclosedIsRead(t, 0, "", "", n, "\n", k, "", "", v, "", "\n", None, multiLine);
    NextPair(t, 0, Named(n + "\n" + k), k, v, None, j, name, multiLine);
    NameOfNamed(n + "\n" + k, name);
    PairLineIsRead(t, j, "", k', v', n + "\n" + k, multiLine);
    NothingMore(t, n + "\n" + k, multiLine);
  }

  lemma NameOfNamed(n: string, name: string)
    ensures NameOf(Named(n), name) == n
  {
  }

  lemma UnclosedParts(t: string, n: string, k: string, v: string, rest: string)
    requires t == "[" + n + PairLine("\n", k, v) + rest
    ensures var front := "" + ("[" + "" + n) + ("\n" + (k + "" + "=") + ("" + v + "")); var j := 1 + |n| + |PairLine("\n", k, v)|;
            && At(t, 0, front) && BreakAt(t, |front|, "\n") && |front| + 1 == j <= |t| && At(t, j, rest) && j + |rest| == |t|
  {
    var front := "" + ("[" + "" + n) + ("\n" + (k + "" + "=") + ("" + v + ""));
    var j := 1 + |n| + |PairLine("\n", k, v)|;
    assert front + "\n" == "[" + n + PairLine("\n", k, v);
    assert t == front + "\n" + rest;
    assert t[0..|front|] == front && t[|front|..|front|+1] == "\n" && t[j..j+|rest|] == rest;
    OneBreak(t, |front|);
  }
}
