/**
  Reading in characters: which lines of a text yield what, for any text around
  them, with any blanks between their parts and any of the three line breaks.
*/
module IniLines {
  import opened Options
  import opened IniText
  import opened IniParse
  import opened IniShapes
  import opened IniCharacters

  // ------------------------------------------------------------------
  // Parts of lines

  predicate Blank(s: string) {
    forall c | c in s :: c in {' ', '\t'}
  }

  predicate White(s: string) {
    forall c | c in s :: c in {' ', '\t', '\n', '\r'}
  }

  predicate Without(s: string, stop: set<char>) {
    forall c | c in s :: c !in stop
  }

  /** One of the line breaks LF, CR and CRLF, whole; or no more than the end of the text. */
  ghost predicate BreakAt(t: string, p: nat, b: string) {
    if b == "" then p == |t|
    else At(t, p, b) && b in ["\n", "\r", "\r\n"] && (b == "\r" && p + 1 < |t| ==> t[p + 1] != '\n')
  }

  lemma BreakIs(t: string, p: nat, b: string)
    requires BreakAt(t, p, b)
    ensures p + |b| <= |t| && AfterLine(t, p) == p + |b|
    ensures p < |t| ==> t[p] in NEWLINES && IsNewLineChar(t[p]) && t[p] !in {']', '='}
    ensures b == "" <==> p == |t|
  {
    if b != "" {
      AtChar(t, p, b, 0);
      if b == "\r\n" {
        AtChar(t, p, b, 1);
      }
    }
  }

  lemma BlankAt(t: string, i: nat, g: string)
    requires At(t, i, g) && Blank(g)
    ensures forall k | i <= k < i + |g| :: t[k] in {' ', '\t'}
  {
    forall k | i <= k < i + |g|
      ensures t[k] in {' ', '\t'}
    {
      AtChar(t, i, g, k - i);
      assert g[k - i] in g;
    }
  }

  lemma WithoutAt(t: string, i: nat, g: string, stop: set<char>)
    requires At(t, i, g) && Without(g, stop)
    ensures forall k | i <= k < i + |g| :: t[k] !in stop
  {
    forall k | i <= k < i + |g|
      ensures t[k] !in stop
    {
      AtChar(t, i, g, k - i);
      assert g[k - i] in g;
    }
  }

  // White space before something else is skipped
  lemma WhiteSkips(t: string, i: nat, w: string)
    requires At(t, i, w) && White(w) && (i + |w| < |t| ==> t[i + |w|] !in {' ', '\t', '\n', '\r'})
    ensures SkipSpaces(t, i) == i + |w|
  {
    forall k | i <= k < i + |w|
      ensures IsSpace(t[k])
    {
      AtChar(t, i, w, k - i);
      assert w[k - i] in w;
    }
    SkipPiece(t, i, i + |w|);
  }

  // Blanks before something else on the line, or before its end
  lemma {:induction false} BlankSkips(t: string, i: nat, j: nat)
    requires i <= j <= |t| && (forall k | i <= k < j :: t[k] in {' ', '\t'})
    requires j < |t| ==> t[j] !in {' ', '\t'}
    ensures SkipBlanks(t, i) == j
    decreases j - i
  {
    if i < j {
      BlankSkips(t, i + 1, j);
    }
  }

  lemma LineEndsAt(t: string, i: nat, p: nat, b: string)
    requires i <= p && BreakAt(t, p, b)
    requires p <= |t| && forall k | i <= k < p :: t[k] !in {'\n', '\r'}
    ensures LineEnd(t, i) == p
  {
    BreakIs(t, p, b);
    FirstOfIs(t, i, NEWLINES, p);
  }

  lemma TrimsTo(t: string, i: nat, s: string, e: nat)
    requires At(t, i, s) && Tight(s) && OnLine(s) && i + |s| <= e <= |t|
    requires forall k | i + |s| <= k < e :: t[k] in {' ', '\t'}
    ensures TrimEnd(t, i, e) == i + |s| && t[i..i+|s|] == s
  {
    TightIff(s);
    TrimPiece(t, i, s, e);
  }

  lemma NoBreaks(s: string)
    ensures OnLine(s) ==> Without(s, {'\n', '\r'})
    ensures Blank(s) ==> Without(s, {'\n', '\r', '=', ']'})
    ensures OnLine(s) && '=' !in s ==> Without(s, KEY_STOPS)
    ensures OnLine(s) && ']' !in s ==> Without(s, HEADER_STOPS)
  {
  }

  // ------------------------------------------------------------------
  // Pairs

  // The rest of a key's line
  lemma RestIsValue(t: string, i: nat, h: string, v: string, z: string, b: string, multiLine: bool)
    requires At(t, i, h + v + z) && BreakAt(t, i + |h + v + z|, b)
    requires Blank(h) && OnLine(v) && Tight(v) && Blank(z) && (v == "" ==> z == "") && (multiLine ==> !("<<<" <= v))
    ensures ValueAt(t, i, multiLine) == Parsed(v, i + |h + v + z + b|)
  {
    hide At, Blank, OnLine, SkipBlanks, TrimEnd, LineEnd, AfterLine, TagBlock, BreakAt;
    var p := i + |h + v + z|;
    RestParts(t, i, h, v, z);
    BreakIs(t, p, b);
    LineEndsAt(t, i + |h|, p, b);
    BlankSkips(t, i, i + |h|);
    TrimsTo(t, i + |h|, v, p);
  }

  lemma RestParts(t: string, i: nat, h: string, v: string, z: string)
    requires At(t, i, h + v + z) && Blank(h) && OnLine(v) && Tight(v) && Blank(z) && (v == "" ==> z == "")
    ensures i + |h + v + z| <= |t| && At(t, i + |h|, v)
    ensures forall k | i <= k < i + |h| :: t[k] in {' ', '\t'}
    ensures forall k | i + |h| + |v| <= k < i + |h + v + z| :: t[k] in {' ', '\t'}
    ensures forall k | i <= k < i + |h + v + z| :: t[k] !in {'\n', '\r'}
    ensures v != "" ==> t[i + |h|] !in {' ', '\t'}
  {
    hide Blank, OnLine;
    AtSplit(t, i, h + v, z);
    AtSplit(t, i, h, v);
    BlankAt(t, i, h);
    BlankAt(t, i + |h| + |v|, z);
    NoBreaks(v);
    WithoutAt(t, i + |h|, v, {'\n', '\r'});
    if v != "" {
      AtChar(t, i + |h|, v, 0);
    }
  }

  // A key, the equals sign behind it, and the white space before it
  lemma KeyParts(t: string, i: nat, w: string, k: string, g: string)
    requires At(t, i, w + (k + g + "=")) && White(w) && ReadsAsKey(k) && Blank(g)
    ensures var s := i + |w|; var e := s + |k| + |g|;
            && e < |t| && At(t, s, k) && t[e] == '=' && t[s] !in {' ', '\t', '\n', '\r', ';', '#', '['}
            && (forall x | s <= x < e :: t[x] !in KEY_STOPS) && (forall x | s + |k| <= x < e :: t[x] in {' ', '\t'})
            && At(t, i, w)
  {
    hide Blank, White, OnLine;
    var s := i + |w|;
    AtSplit(t, i, w, k + g + "=");
    AtSplit(t, s, k + g, "=");
    AtSplit(t, s, k, g);
    AtChar(t, s + |k| + |g|, "=", 0);
    AtChar(t, s, k, 0);
    BlankAt(t, s + |k|, g);
    NoBreaks(k);
    NoBreakInFront(k);
    WithoutAt(t, s, k, KEY_STOPS);
  }

  lemma NoBreakInFront(s: string)
    requires s != "" && OnLine(s)
    ensures s[0] !in {'\n', '\r'} && s[|s|-1] !in {'\n', '\r'}
  {
    assert s[0] in s && s[|s|-1] in s;
  }

  lemma StopsAre()
    ensures KEY_STOPS == {'=', '\n', '\r'} && HEADER_STOPS == {']', '\n', '\r'} && NEWLINES == {'\n', '\r'}
  {
  }

  lemma FindYields(t: string, i: nat, s: nat, sec: SectionRef, comment: Option<string>, multiLine: bool)
    requires i <= |t| && SkipSpaces(t, i) == s < |t| && !IsSpace(t[s]) && (sec.Unclosed? ==> sec.start <= i)
    ensures match TurnAt(t, s, sec, comment, multiLine)
            case Yield(found) => Find(t, i, sec, comment, multiLine) == found
            case Go(next, sec', comment') => Find(t, i, sec, comment, multiLine) == Find(t, next, sec', comment', multiLine)
  {
    hide TurnAt, SkipSpaces;
  }

  // The turn at a key line, at a header, and at a line that yields nothing
  lemma KeyTurnIs(t: string, s: nat, k: string, e: nat, sec: SectionRef, comment: Option<string>, multiLine: bool)
    requires s < e < |t| && t[s] !in {' ', '\t', '\n', '\r', ';', '#', '['} && (sec.Unclosed? ==> sec.start <= s)
    requires FirstOf(t, s, KEY_STOPS) == e && t[e] == '=' && TrimEnd(t, s, e) == s + |k| <= |t| && t[s..s+|k|] == k
    ensures !IsSpace(t[s])
    ensures match ValueAt(t, e + 1, multiLine)
            case Parsed(v, next) => TurnAt(t, s, sec, comment, multiLine) == Yield(Pair(Close(t, sec, s + |k|, ""), k, v, comment, next))
            case NoValue => TurnAt(t, s, sec, comment, multiLine) == Yield(End)
            case Bodyless => TurnAt(t, s, sec, comment, multiLine) == Yield(BodylessPair)
  {
    hide FirstOf, TrimEnd, ValueAt, Close;
  }

  lemma HeaderTurnIs(t: string, s: nat, q: nat, n: string, e: nat, p: nat, sec: SectionRef, comment: Option<string>, multiLine: bool)
    requires s < |t| && t[s] == '[' && SkipSpaces(t, s + 1) == q <= e < |t| && FirstOf(t, q, HEADER_STOPS) == e && t[e] == ']'
    requires TrimEnd(t, q, e) == q + |n| <= |t| && t[q..q+|n|] == n && LineEnd(t, e + 1) == p && (sec.Unclosed? ==> sec.start <= s)
    ensures !IsSpace(t[s]) && TurnAt(t, s, sec, comment, multiLine) == Yield(Header(n, comment, p))
  {
    hide FirstOf, TrimEnd, SkipSpaces, LineEnd;
  }

  lemma SkippedTurnIs(t: string, s: nat, p: nat, sec: SectionRef, comment: Option<string>, multiLine: bool)
    requires s < |t| && t[s] !in {' ', '\t', '\n', '\r', ';', '#', '['} && (sec.Unclosed? ==> sec.start <= s)
    requires if t[s] == '=' then FirstOf(t, s, KEY_STOPS) == s && LineEnd(t, s) == p
             else FirstOf(t, s, KEY_STOPS) == p && (p < |t| ==> t[p] != '=')
    ensures !IsSpace(t[s]) && TurnAt(t, s, sec, comment, multiLine) == Go(p, sec, comment)
  {
    hide FirstOf, LineEnd;
  }

  /** A key line yields its key and whatever its equals sign is followed by. */
  lemma KeyLine(t: string, i: nat, w: string, k: string, g: string, sec: SectionRef, comment: Option<string>, multiLine: bool)
    requires At(t, i, w + (k + g + "=")) && White(w) && ReadsAsKey(k) && Blank(g) && (sec.Unclosed? ==> sec.start <= i)
    ensures i + |w + (k + g + "=")| <= |t|
    ensures match ValueAt(t, i + |w + (k + g + "=")|, multiLine)
            case Parsed(v, next) => Find(t, i, sec, comment, multiLine) == Pair(Close(t, sec, i + |w + k|, ""), k, v, comment, next)
            case NoValue => Find(t, i, sec, comment, multiLine) == End
            case Bodyless => Find(t, i, sec, comment, multiLine) == BodylessPair
  {
    hide *;
    StopsAre();
    var s := i + |w|;
    var e := s + |k| + |g|;
    KeyParts(t, i, w, k, g);
    WhiteSkips(t, i, w);
    FirstOfIs(t, s, KEY_STOPS, e);
    KeyIsTight(k);
    TrimsTo(t, s, k, e);
    KeyTurnIs(t, s, k, e, sec, comment, multiLine);
    FindYields(t, i, s, sec, comment, multiLine);
  }

  lemma KeyIsTight(k: string)
    requires ReadsAsKey(k)
    ensures k != "" && Tight(k) && OnLine(k)
  {
  }

  /**
    A line of a key, an equals sign and a value is read as that pair, whatever
    blanks stand between its parts and whatever line break ends it; the cursor
    stops behind the line break.
  */
  lemma PairIsRead(t: string, i: nat, w: string, k: string, g: string, h: string, v: string, z: string, b: string,
                   sec: SectionRef, comment: Option<string>, multiLine: bool)
    requires At(t, i, w + (k + g + "=") + (h + v + z)) && BreakAt(t, i + |w + (k + g + "=") + (h + v + z)|, b)
    requires White(w) && ReadsAsKey(k) && Blank(g) && Blank(h) && OnLine(v) && Tight(v) && Blank(z) && (v == "" ==> z == "")
    requires (multiLine ==> !("<<<" <= v)) && !sec.Unclosed?
    ensures Find(t, i, sec, comment, multiLine)
         == Pair(sec, k, v, comment, i + |w + (k + g + "=") + (h + v + z) + b|)
  {
    hide *;
    AtSplit(t, i, w + (k + g + "="), h + v + z);
    RestIsValue(t, i + |w + (k + g + "=")|, h, v, z, b, multiLine);
    KeyLine(t, i, w, k, g, sec, comment, multiLine);
    NotPending(t, sec, i + |w + k|);
  }

  lemma NotPending(t: string, sec: SectionRef, end: nat)
    requires end <= |t| && !sec.Unclosed?
    ensures Close(t, sec, end, "") == sec
  {
  }

  /** So every key of the shape is the key of some text, with any value of one line. */
  lemma KeyAndValue(k: string, v: string, b: string, multiLine: bool)
    requires ReadsAsKey(k) && OnLine(v) && Tight(v) && (multiLine ==> !("<<<" <= v)) && b in ["", "\n", "\r", "\r\n"]
    ensures Entries(k + "=" + v + b, 0, "", multiLine) == [Entry("", Some((k, v)), None)]
  {
    hide *;
    var t := k + "=" + v + b;
    KeyAndValueParts(t, k, v, b);
    PairIsRead(t, 0, "", k, "", "", v, "", b, Unchanged, None, multiLine);
    OnlyPair(t, Unchanged, k, v, None, multiLine);
    NoNewName("");
  }

  lemma KeyAndValueParts(t: string, k: string, v: string, b: string)
    requires t == k + "=" + v + b && b in ["", "\n", "\r", "\r\n"]
    ensures At(t, 0, "" + (k + "" + "=") + ("" + v + "")) && BreakAt(t, |"" + (k + "" + "=") + ("" + v + "")|, b)
    ensures |"" + (k + "" + "=") + ("" + v + "") + b| == |t| && White("") && Blank("")
  {
    assert "" + (k + "" + "=") + ("" + v + "") == k + "=" + v;
    assert t == (k + "=" + v) + b;
    assert t[|k + "=" + v|..] == b;
  }

  lemma NoNewName(section: string)
    ensures NameOf(Unchanged, section) == section
  {
  }

  lemma OnlyPair(t: string, sec: SectionRef, k: string, v: string, comment: Option<string>, multiLine: bool)
    requires Find(t, 0, Unchanged, None, multiLine) == Pair(sec, k, v, comment, |t|) && !sec.Unclosed?
    ensures Entries(t, 0, "", multiLine) == [Entry(NameOf(sec, ""), Some((k, v)), comment)]
  {
    assert SkipSpaces(t, |t|) == |t|;
    assert Entries(t, |t|, NameOf(sec, ""), multiLine) == [];
  }

  // ------------------------------------------------------------------
  // Headers

  lemma HeaderParts(t: string, i: nat, w: string, h: string, n: string, g: string)
    requires At(t, i, w + ("[" + h + n + g)) && White(w) && White(h) && ReadsAsName(n) && Blank(g) && (n == "" ==> g == "")
    ensures var s := i + |w|; var q := s + 1 + |h|;
            && q + |n| + |g| <= |t| && s < |t| && t[s] == '[' && At(t, i, w) && At(t, s + 1, h) && At(t, q, n)
            && (forall x | q <= x < q + |n| + |g| :: t[x] !in HEADER_STOPS)
            && (forall x | q + |n| <= x < q + |n| + |g| :: t[x] in {' ', '\t'})
            && (n != "" ==> t[q] !in {' ', '\t', '\n', '\r'})
  {
    hide Blank, White, OnLine;
    var s := i + |w|;
    var q := s + 1 + |h|;
    AtSplit(t, i, w, "[" + h + n + g);
    AtSplit(t, s, "[" + h + n, g);
    AtSplit(t, s, "[" + h, n);
    AtSplit(t, s, "[", h);
    AtChar(t, s, "[", 0);
    BlankAt(t, q + |n|, g);
    NoBreaks(n);
    WithoutAt(t, q, n, HEADER_STOPS);
    if n != "" {
      AtChar(t, q, n, 0);
      NoBreakInFront(n);
    }
  }

  lemma HeaderScan(t: string, i: nat, w: string, h: string, n: string, g: string)
    requires At(t, i, w + ("[" + h + n + g)) && White(w) && White(h) && ReadsAsName(n) && Blank(g) && (n == "" ==> g == "")
    requires var e := i + |w + ("[" + h + n + g)|; e < |t| && t[e] == ']'
    ensures var s := i + |w|; var q := s + 1 + |h|; var e := i + |w + ("[" + h + n + g)|;
            && s < q <= e < |t| && t[s] == '[' && SkipSpaces(t, i) == s && SkipSpaces(t, s + 1) == q
            && FirstOf(t, q, HEADER_STOPS) == e && TrimEnd(t, q, e) == q + |n| && t[q..q+|n|] == n
  {
    hide *;
    StopsAre();
    var s := i + |w|;
    var q := s + 1 + |h|;
    HeaderParts(t, i, w, h, n, g);
    WhiteSkips(t, i, w);
    WhiteSkips(t, s + 1, h);
    FirstOfIs(t, q, HEADER_STOPS, q + |n| + |g|);
    NameIsTight(n);
    TrimsTo(t, q, n, q + |n| + |g|);
  }

  // The bracket behind the name, and the rest of its line
  lemma BehindBracket(t: string, i: nat, front: string, x: string, b: string)
    requires At(t, i, front + ("]" + x)) && BreakAt(t, i + |front + ("]" + x)|, b) && Without(x, {'\n', '\r'})
    ensures var e := i + |front|; e < |t| && t[e] == ']' && At(t, i, front) && LineEnd(t, e + 1) == e + 1 + |x|
  {
    hide *;
    var e := i + |front|;
    AtSplit(t, i, front, "]" + x);
    AtSplit(t, e, "]", x);
    AtChar(t, e, "]", 0);
    WithoutAt(t, e + 1, x, {'\n', '\r'});
    AtFits(t, e + 1, x);
    LineEndsAt(t, e + 1, e + 1 + |x|, b);
  }

  /** A name in brackets is read as that header, whatever white space stands around it; the rest of the line does not matter. */
  lemma HeaderIsRead(t: string, i: nat, w: string, h: string, n: string, g: string, x: string, b: string,
                     sec: SectionRef, comment: Option<string>, multiLine: bool)
    requires (sec.Unclosed? ==> sec.start <= i) && At(t, i, w + ("[" + h + n + g) + ("]" + x)) && BreakAt(t, i + |w + ("[" + h + n + g) + ("]" + x)|, b)
    requires White(w) && White(h) && ReadsAsName(n) && Blank(g) && (n == "" ==> g == "") && Without(x, {'\n', '\r'})
    ensures Find(t, i, sec, comment, multiLine) == Header(n, comment, i + |w + ("[" + h + n + g) + ("]" + x)|)
  {
    hide *;
    var front := w + ("[" + h + n + g);
    var e := i + |front|;
    BehindBracket(t, i, front, x, b);
    HeaderScan(t, i, w, h, n, g);
    HeaderTurnIs(t, i + |w|, i + |w| + 1 + |h|, n, e, e + 1 + |x|, sec, comment, multiLine);
    FindYields(t, i, i + |w|, sec, comment, multiLine);
  }

  lemma NameIsTight(n: string)
    requires ReadsAsName(n)
    ensures Tight(n) && OnLine(n)
  {
  }

  // ------------------------------------------------------------------
  // Lines that yield nothing

  /** A line without equals sign, or one that starts with it, is passed over, unless it is a comment or starts with '['. */
  lemma LineIsSkipped(t: string, i: nat, w: string, l: string, b: string, sec: SectionRef, comment: Option<string>, multiLine: bool)
    requires At(t, i, w + l) && BreakAt(t, i + |w + l|, b) && (sec.Unclosed? ==> sec.start <= i)
    requires White(w) && l != "" && Without(l, {'\n', '\r'}) && l[0] !in {' ', '\t', ';', '#', '['} && ('=' in l ==> l[0] == '=')
    ensures i + |w + l| <= |t| && Find(t, i, sec, comment, multiLine) == Find(t, i + |w + l|, sec, comment, multiLine)
  {
    hide *;
    StopsAre();
    var s := i + |w|;
    var p := s + |l|;
    AtSplit(t, i, w, l);
    AtChar(t, s, l, 0);
    assert l[0] in l;
    WithoutAt(t, s, l, {'\n', '\r'});
    AtFits(t, s, l);
    FirstStays(l, {'\n', '\r'});
    WhiteSkips(t, i, w);
    LineEndsAt(t, s, p, b);
    BreakIs(t, p, b);
    if l[0] == '=' {
      FirstOfIs(t, s, KEY_STOPS, s);
    } else {
      WithoutKeyStops(l);
      WithoutAt(t, s, l, KEY_STOPS);
      FirstOfIs(t, s, KEY_STOPS, p);
    }
    SkippedTurnIs(t, s, p, sec, comment, multiLine);
    FindYields(t, i, s, sec, comment, multiLine);
  }

  lemma WithoutKeyStops(l: string)
    requires Without(l, {'\n', '\r'}) && '=' !in l
    ensures Without(l, KEY_STOPS)
  {
  }

  // ------------------------------------------------------------------
  // Headers without a closing bracket

  lemma UnclosedTurnIs(t: string, s: nat, q: nat, e: nat, sec: SectionRef, comment: Option<string>, multiLine: bool)
    requires (sec.Unclosed? ==> sec.start <= s) && s < |t| && t[s] == '[' && SkipSpaces(t, s + 1) == q <= e < |t| && FirstOf(t, q, HEADER_STOPS) == e && t[e] != ']'
    ensures !IsSpace(t[s]) && TurnAt(t, s, sec, comment, multiLine) == Go(e, Unclosed(q), comment)
  {
    hide FirstOf, TrimEnd, SkipSpaces, LineEnd;
  }

  /** A '[' line that is not closed stays pending behind its end, whatever was pending before. */
  lemma UnclosedStaysPending(t: string, i: nat, w: string, h: string, n: string, sec: SectionRef, comment: Option<string>, multiLine: bool)
    requires (sec.Unclosed? ==> sec.start <= i) && At(t, i, w + ("[" + h + n)) && White(w) && White(h)
    requires n != "" && Without(n, {'\n', '\r', ']'}) && n[0] !in {' ', '\t'}
    requires var e := i + |w + ("[" + h + n)|; e < |t| && t[e] in {'\n', '\r'}
    ensures var e := i + |w + ("[" + h + n)|;
            Find(t, i, sec, comment, multiLine) == Find(t, e, Unclosed(e - |n|), comment, multiLine)
  {
    hide *;
    StopsAre();
    var s := i + |w|;
    var q := s + 1 + |h|;
    AtSplit(t, i, w, "[" + h + n);
    AtSplit(t, s, "[" + h, n);
    AtSplit(t, s, "[", h);
    AtChar(t, s, "[", 0);
    AtChar(t, q, n, 0);
    AtFits(t, q, n);
    FirstStays(n, {'\n', '\r', ']'});
    WithoutAt(t, q, n, {'\n', '\r', ']'});
    WhiteSkips(t, i, w);
    WhiteSkips(t, s + 1, h);
    FirstOfIs(t, q, HEADER_STOPS, q + |n|);
    UnclosedTurnIs(t, s, q, q + |n|, sec, comment, multiLine);
    FindYields(t, i, s, sec, comment, multiLine);
  }

  lemma FirstStays(l: string, stop: set<char>)
    requires l != "" && Without(l, stop)
    ensures l[0] !in stop
  {
    assert l[0] in l;
  }

  // The name of a '[' line that is closed at last
  lemma ClosesTo(t: string, q: nat, n: string, w: string, k: string)
    requires At(t, q, n) && At(t, q + |n|, w + k)
    ensures q + |n + w + k| <= |t| && Close(t, Unclosed(q), q + |n + w + k|, "") == Named(n + w + k)
  {
    assert t[q..q+|n + w + k|] == t[q..q+|n|] + t[q+|n|..q+|n|+|w + k|];
    assert n + (w + k) == n + w + k;
    assert t[q..q+|n + w + k|] + "" == t[q..q+|n + w + k|];
  }

  /** A '[' line without ']' takes the text up to the end of the next key into the section's name. */
  lemma UnclosedIsRead(t: string, i: nat, w: string, h: string, n: string, w': string, k: string, g: string,
                       h': string, v: string, z: string, b: string, comment: Option<string>, multiLine: bool)
    requires At(t, i, w + ("[" + h + n) + (w' + (k + g + "=") + (h' + v + z)))
    requires BreakAt(t, i + |w + ("[" + h + n) + (w' + (k + g + "=") + (h' + v + z))|, b)
    requires White(w) && White(h) && n != "" && Without(n, {'\n', '\r', ']'}) && n[0] !in {' ', '\t'}
    requires w' != "" && w'[0] in {'\n', '\r'} && White(w') && ReadsAsKey(k) && Blank(g)
    requires Blank(h') && OnLine(v) && Tight(v) && Blank(z) && (v == "" ==> z == "") && (multiLine ==> !("<<<" <= v))
    ensures Find(t, i, Unchanged, comment, multiLine)
         == Pair(Named(n + w' + k), k, v, comment, i + |w + ("[" + h + n) + (w' + (k + g + "=") + (h' + v + z))| + |b|)
  {
    hide *;
    var p := i + |w + ("[" + h + n)|;
    AtSplit(t, i, w + ("[" + h + n), w' + (k + g + "=") + (h' + v + z));
    AtSplit(t, p, w' + (k + g + "="), h' + v + z);
    NameAndKey(t, i, w, h, n, w', k, g);
    UnclosedStaysPending(t, i, w, h, n, Unchanged, comment, multiLine);
    RestIsValue(t, p + |w' + (k + g + "=")|, h', v, z, b, multiLine);
    KeyLine(t, p, w', k, g, Unclosed(p - |n|), comment, multiLine);
    ClosesTo(t, p - |n|, n, w', k);
  }

  lemma NameAndKey(t: string, i: nat, w: string, h: string, n: string, w': string, k: string, g: string)
    requires At(t, i, w + ("[" + h + n)) && At(t, i + |w + ("[" + h + n)|, w' + (k + g + "=")) && w' != ""
    ensures var p := i + |w + ("[" + h + n)|;
            p < |t| && t[p] == w'[0] && At(t, p - |n|, n) && At(t, p, w' + k)
  {
    hide At;
    var p := i + |w + ("[" + h + n)|;
    AtSplit(t, i, w, "[" + h + n);
    AtSplit(t, i + |w|, "[" + h, n);
    assert w' + (k + g + "=") == (w' + k) + (g + "=");
    AtSplit(t, p, w' + k, g + "=");
    AtChar(t, p, w' + k, 0);
    AtFits(t, p, w' + k);
  }
}
