/**
  Which documents come back: a document without comments that can be stored at
  all is shown again by its own text, in single-line mode, only if it is plain.
  The names that the parser delivers are the clue. A '[' line without ']' gives
  a name that runs over several lines; printed as a header, such a name is read
  back longer than it was, so no document with one can come back.
*/
module IniConverse {
  import opened Options
  import opened IniText
  import opened IniParse
  import opened IniStore
  import opened IniMultimap
  import opened IniView
  import opened IniShapes
  import opened IniComments
  import opened IniReparse
  import opened IniValues
  import opened IniRoundTrip
  import opened IniNormalise
  import opened IniRuns

  // ------------------------------------------------------------------
  // Names from a '[' line that is not closed

  // From i on the lines of the name yield nothing: no comment, no '[' line and no pair; the last one has no line break
  predicate QuietFrom(n: string, i: nat)
    requires i <= |n|
    decreases |n| - i
  {
    var s := SkipSpaces(n, i);
    s < |n| && !IsComment(n[s]) && n[s] != '[' &&
    var e := FirstOf(n, s, KEY_STOPS);
    e == |n| || (if n[e] == '=' then e == s && QuietFrom(n, LineEnd(n, e)) else QuietFrom(n, e))
  }

  /** A name of several lines, the first without ']', that stays pending up to its end. */
  predicate Quiet(n: string) {
    n != "" && !IsSpace(n[0]) && NUL !in n &&
    var e := FirstOf(n, 0, HEADER_STOPS);
    e < |n| && n[e] != ']' && QuietFrom(n, e)
  }

  lemma SkipSpacesIs(t: string, i: nat, r: nat)
    requires i <= r <= |t|
    requires (forall k | i <= k < r :: IsSpace(t[k])) && (r < |t| ==> !IsSpace(t[r]))
    ensures SkipSpaces(t, i) == r
  {
  }

  // Scanning a slice of the text finds what scanning the text finds, as long as it lies in the slice
  lemma SliceSkips(t: string, b: nat, n: string, i: nat)
    requires At(t, b, n) && b <= i <= b + |n| && SkipSpaces(t, i) < b + |n|
    ensures SkipSpaces(n, i - b) == SkipSpaces(t, i) - b
  {
    forall k | 0 <= k < |n|
      ensures t[b + k] == n[k]
    {
      AtChar(t, b, n, k);
    }
    var s := SkipSpaces(t, i);
    assert forall k | i - b <= k < s - b :: n[k] == t[b + k];
    SkipSpacesIs(n, i - b, s - b);
  }

  lemma SliceScans(t: string, b: nat, n: string, i: nat, stop: set<char>)
    requires At(t, b, n) && b <= i <= b + |n|
    ensures var e := FirstOf(t, i, stop); FirstOf(n, i - b, stop) == if e < b + |n| then e - b else |n|
  {
    forall k | 0 <= k < |n|
      ensures t[b + k] == n[k]
    {
      AtChar(t, b, n, k);
    }
    var e := FirstOf(t, i, stop);
    var e' := if e < b + |n| then e - b else |n|;
    assert forall k | i - b <= k < e' :: n[k] == t[b + k];
    FirstOfIs(n, i - b, stop, e');
  }

  // The name is what the text has from b on, and scanning it from i on is quiet
  ghost predicate Pending(t: string, b: nat, i: nat, n: string) {
    At(t, b, n) && b <= i < b + |n| && QuietFrom(n, i - b)
  }

  lemma {:induction false} CommentStays(t: string, i: nat, sec: SectionRef, comment: Option<string>, multiLine: bool)
    requires i <= |t| && (sec.Unclosed? ==> sec.start <= i) && comment.Some?
    ensures var r := Find(t, i, sec, comment, multiLine); r.Pair? ==> r.comment.Some?
    decreases |t| - i
  {
    hide CommentBlock, FirstOf, Close, TrimEnd, ValueAt, SkipSpaces, IsComment;
    var s := SkipSpaces(t, i);
    if s < |t| {
      match TurnAt(t, s, sec, comment, multiLine) {
        case Yield(found) =>
        case Go(next, sec', comment') => CommentStays(t, next, sec', comment', multiLine);
      }
    }
  }

  // A name that is pending from its '[' line on
  lemma PendingIsQuiet(t: string, s: nat, n: string)
    requires s < |t| && NUL !in t
    requires var b := SkipSpaces(t, s + 1); var e := FirstOf(t, b, HEADER_STOPS); e < |t| && t[e] != ']' && Pending(t, b, e, n)
    ensures Quiet(n)
  {
    hide QuietFrom;
    var b := SkipSpaces(t, s + 1);
    AtChar(t, b, n, 0);
    SliceScans(t, b, n, b, HEADER_STOPS);
    var e := FirstOf(t, b, HEADER_STOPS);
    AtChar(t, b, n, e - b);
    SliceHasNoNul(t, b, n);
  }

  lemma SliceHasNoNul(t: string, b: nat, n: string)
    requires At(t, b, n) && NUL !in t
    ensures NUL !in n
  {
    forall k | 0 <= k < |n|
      ensures n[k] != NUL
    {
      AtChar(t, b, n, k);
      assert t[b + k] in t;
    }
  }

  lemma QuietStep(n: string, i: nat, s: nat, e: nat)
    requires i <= |n| && s == SkipSpaces(n, i) < |n| && !IsComment(n[s]) && n[s] != '['
    requires e == FirstOf(n, s, KEY_STOPS) < |n| && (n[e] == '=' ==> e == s)
    requires QuietFrom(n, if n[e] == '=' then LineEnd(n, e) else e)
    ensures QuietFrom(n, i)
  {
    hide SkipSpaces, FirstOf, IsComment;
  }

  // A line that goes on to the next one stays pending
  lemma PendingStep(t: string, b: nat, i: nat, n: string, s: nat, e: nat, next: nat)
    requires i <= |t| && b <= i <= s == SkipSpaces(t, i) < |t| && !IsComment(t[s]) && t[s] != '['
    requires e == FirstOf(t, s, KEY_STOPS) < |t| && next == (if t[e] == '=' then LineEnd(t, e) else e) && (t[e] == '=' ==> e == s)
    requires Pending(t, b, next, n)
    ensures Pending(t, b, i, n)
  {
    hide SkipSpaces, FirstOf, IsSpace, IsComment, QuietFrom, At;
    SliceSkips(t, b, n, i);
    SliceScans(t, b, n, s, KEY_STOPS);
    SliceScans(t, b, n, e, NEWLINES);
    AtChar(t, b, n, s - b);
    AtChar(t, b, n, e - b);
    QuietStep(n, i - b, s - b, e - b);
  }

  // The key line that a pending name ends at
  lemma PendingEnds(t: string, b: nat, i: nat, s: nat, e: nat)
    requires i <= |t| && b <= i <= s == SkipSpaces(t, i) < |t| && !IsSpace(t[s]) && !IsComment(t[s]) && t[s] != '['
    requires e == FirstOf(t, s, KEY_STOPS) && s < e
    ensures Pending(t, b, i, t[b..TrimEnd(t, s, e)])
  {
    hide SkipSpaces, FirstOf, IsSpace, IsComment;
    var n := t[b..TrimEnd(t, s, e)];
    KeyNotEmpty(t, s, e);
    SliceSkips(t, b, n, i);
    SliceScans(t, b, n, s, KEY_STOPS);
    AtChar(t, b, n, s - b);
  }

  lemma KeyNotEmpty(t: string, s: nat, e: nat)
    requires s < e <= |t| && !IsSpace(t[s])
    ensures s < TrimEnd(t, s, e)
  {
  }

  // A pair without comment brings no name, or a quiet one
  ghost predicate NameFits(t: string, i: nat, sec: SectionRef, r: Found) {
    r.Pair? && r.comment == None ==>
      if sec.Unchanged? && r.section.Unchanged? then true
      else r.section.Named? && (Quiet(r.section.name) || (sec.Unclosed? && Pending(t, sec.start, i, r.section.name)))
  }

  lemma {:induction false} FoundName(t: string, i: nat, sec: SectionRef, multiLine: bool)
    requires i <= |t| && NUL !in t && !sec.Named? && (sec.Unclosed? ==> sec.start <= i)
    ensures NameFits(t, i, sec, Find(t, i, sec, None, multiLine))
    decreases |t| - i
  {
    hide SkipSpaces, FirstOf, TrimEnd, ValueAt, CommentBlock, IsSpace, IsComment, Pending, Quiet, At;
    var s := SkipSpaces(t, i);
    if s < |t| {
      if IsComment(t[s]) {
        var turn := CommentTurn(t, s, sec);
        CommentStays(t, turn.next, turn.section, turn.comment, multiLine);
      } else if t[s] == '[' {
        AfterBracket(t, i, sec, multiLine);
      } else {
        AfterKey(t, i, sec, multiLine);
      }
    }
  }

  lemma AfterBracket(t: string, i: nat, sec: SectionRef, multiLine: bool)
    requires i <= |t| && NUL !in t && !sec.Named? && (sec.Unclosed? ==> sec.start <= i)
    requires SkipSpaces(t, i) < |t| && t[SkipSpaces(t, i)] == '['
    ensures NameFits(t, i, sec, Find(t, i, sec, None, multiLine))
    decreases |t| - i, 0
  {
    hide SkipSpaces, FirstOf, TrimEnd, ValueAt, KeyTurn, CommentTurn, Pending, Quiet, At;
    var s := SkipSpaces(t, i);
    var b := SkipSpaces(t, s + 1);
    var e := FirstOf(t, b, HEADER_STOPS);
    if e == |t| || t[e] != ']' {
      FoundName(t, e, Unclosed(b), multiLine);
      var r := Find(t, e, Unclosed(b), None, multiLine);
      if r.Pair? && r.comment == None && Pending(t, b, e, r.section.name) {
        PendingFits(t, b, e, r.section.name);
        PendingIsQuiet(t, s, r.section.name);
      }
    }
  }

  lemma PendingFits(t: string, b: nat, i: nat, n: string)
    requires Pending(t, b, i, n)
    ensures i < |t|
  {
    hide QuietFrom;
  }

  lemma AfterKey(t: string, i: nat, sec: SectionRef, multiLine: bool)
    requires i <= |t| && NUL !in t && !sec.Named? && (sec.Unclosed? ==> sec.start <= i)
    requires var s := SkipSpaces(t, i); s < |t| && !IsComment(t[s]) && t[s] != '['
    ensures NameFits(t, i, sec, Find(t, i, sec, None, multiLine))
    decreases |t| - i, 0
  {
    hide SkipSpaces, FirstOf, TrimEnd, ValueAt, HeaderTurn, CommentTurn, Pending, Quiet, At, IsSpace, IsComment;
    var s := SkipSpaces(t, i);
    var e := FirstOf(t, s, KEY_STOPS);
    if e < |t| && t[e] == '=' && s < e {
      if sec.Unclosed? {
        PendingEnds(t, sec.start, i, s, e);
        assert t[sec.start..TrimEnd(t, s, e)] + "" == t[sec.start..TrimEnd(t, s, e)];
      }
    } else {
      var next := KeyTurn(t, s, sec, None, multiLine).next;
      FoundName(t, next, sec, multiLine);
      var r := Find(t, next, sec, None, multiLine);
      if r.Pair? && r.comment == None && sec.Unclosed? && Pending(t, sec.start, next, r.section.name) {
        PendingFits(t, sec.start, next, r.section.name);
        assert e < |t|;
        PendingStep(t, sec.start, i, r.section.name, s, e, next);
      }
    }
  }

  // ------------------------------------------------------------------
  // A quiet name as a header

  // Where the scan of a printed name stays inside it, it is the scan of the name
  lemma NameSkips(t: string, p: nat, n: string, k: nat)
    requires At(t, p, n) && k <= |n| && SkipSpaces(n, k) < |n|
    ensures SkipSpaces(t, p + k) == p + SkipSpaces(n, k)
  {
    forall j | 0 <= j < |n|
      ensures t[p + j] == n[j]
    {
      AtChar(t, p, n, j);
    }
    var s := SkipSpaces(n, k);
    assert forall j | p + k <= j < p + s :: t[j] == n[j - p];
    SkipSpacesIs(t, p + k, p + s);
  }

  lemma NameScans(t: string, p: nat, n: string, k: nat, stop: set<char>)
    requires At(t, p, n) && k <= |n|
    ensures FirstOf(n, k, stop) < |n| ==> FirstOf(t, p + k, stop) == p + FirstOf(n, k, stop)
    ensures FirstOf(n, k, stop) == |n| ==> FirstOf(t, p + k, stop) == FirstOf(t, p + |n|, stop)
    decreases |n| - k
  {
    if k < |n| {
      AtChar(t, p, n, k);
      if n[k] !in stop {
        NameScans(t, p, n, k + 1, stop);
      }
    }
  }

  lemma FindSkips(t: string, i: nat, j: nat, sec: SectionRef, comment: Option<string>, multiLine: bool)
    requires i <= j <= |t| && SkipSpaces(t, i) == SkipSpaces(t, j) && (sec.Unclosed? ==> sec.start <= i)
    ensures Find(t, i, sec, comment, multiLine) == Find(t, j, sec, comment, multiLine)
  {
    hide TurnAt, SkipSpaces;
  }

  // A line that yields nothing
  lemma FindGoes(t: string, i: nat, sec: SectionRef, multiLine: bool)
    requires i <= |t| && (sec.Unclosed? ==> sec.start <= i)
    requires var s := SkipSpaces(t, i); s < |t| && !IsComment(t[s]) && t[s] != '['
    requires var s := SkipSpaces(t, i); var e := FirstOf(t, s, KEY_STOPS); e < |t| && (t[e] == '=' ==> e == s)
    ensures var e := FirstOf(t, SkipSpaces(t, i), KEY_STOPS);
            Find(t, i, sec, None, multiLine) == Find(t, if t[e] == '=' then LineEnd(t, e) else e, sec, None, multiLine)
  {
    hide FirstOf, SkipSpaces, HeaderTurn, CommentTurn, PairTurn, IsComment, IsSpace;
    NoSpaceThere(t, i);
  }

  lemma NoSpaceThere(t: string, i: nat)
    requires i <= |t| && SkipSpaces(t, i) < |t|
    ensures !IsSpace(t[SkipSpaces(t, i)])
  {
  }

  // Behind the last line of the name come the bracket and the line break
  lemma BracketEnds(t: string, p: nat, n: string)
    requires At(t, p, n + "]\n")
    ensures At(t, p, n) && p + |n| + 2 <= |t| && FirstOf(t, p + |n|, KEY_STOPS) == p + |n| + 1 && t[p + |n| + 1] == '\n'
  {
    hide FirstOf;
    AtSplit(t, p, n, "]\n");
    AtChar(t, p + |n|, "]\n", 0);
    AtChar(t, p + |n|, "]\n", 1);
    FirstOfIs(t, p + |n|, KEY_STOPS, p + |n| + 1);
  }

  lemma {:induction false} QuietLines(t: string, p: nat, n: string, k: nat, multiLine: bool)
    requires At(t, p, n + "]\n") && k <= |n| && QuietFrom(n, k)
    ensures p + |n| + 2 <= |t| && Find(t, p + k, Unclosed(p), None, multiLine) == Find(t, p + |n| + 2, Unclosed(p), None, multiLine)
    decreases |n| - k
  {
    hide FirstOf, SkipSpaces, IsComment, At, Find;
    var s := SkipSpaces(n, k);
    var e := FirstOf(n, s, KEY_STOPS);
    BracketEnds(t, p, n);
    NameSkips(t, p, n, k);
    AtChar(t, p, n, s);
    NameScans(t, p, n, s, KEY_STOPS);
    if e == |n| {
      FindGoes(t, p + k, Unclosed(p), multiLine);
      AtNewline(t, p + |n| + 1);
      FindSkips(t, p + |n| + 1, p + |n| + 2, Unclosed(p), None, multiLine);
    } else {
      AtChar(t, p, n, e);
      FindGoes(t, p + k, Unclosed(p), multiLine);
      if n[e] == '=' {
        NameScans(t, p, n, e, NEWLINES);
        QuietInside(n, LineEnd(n, e));
        EqualsIsNoBreak(n, e);
        QuietLines(t, p, n, LineEnd(n, e), multiLine);
      } else {
        QuietLines(t, p, n, e, multiLine);
      }
    }
  }

  lemma QuietInside(n: string, i: nat)
    requires i <= |n| && QuietFrom(n, i)
    ensures i < |n|
  {
  }

  lemma EqualsIsNoBreak(n: string, e: nat)
    requires e < |n| && n[e] == '='
    ensures e < LineEnd(n, e)
  {
  }

  lemma BracketThere(t: string, h: nat, n: string)
    requires At(t, h, "[" + n + "]\n") && n != ""
    ensures h + |n| + 3 <= |t| && At(t, h + 1, n + "]\n") && At(t, h + 1, n) && t[h] == '[' && t[h + 1] == n[0]
  {
    assert "[" + n + "]\n" == "[" + (n + "]\n");
    AtSplit(t, h, "[", n + "]\n");
    AtSplit(t, h + 1, n, "]\n");
    AtChar(t, h, "[", 0);
    AtChar(t, h + 1, n, 0);
  }

  lemma QuietParts(n: string)
    requires Quiet(n)
    ensures n != "" && !IsSpace(n[0])
    ensures var e := FirstOf(n, 0, HEADER_STOPS); 0 < e < |n| && n[e] != ']' && QuietFrom(n, e)
  {
    hide QuietFrom;
  }

  /** The header of a quiet name stays pending up to the line behind it. */
  lemma QuietHead(t: string, h: nat, n: string, multiLine: bool)
    requires At(t, h, "[" + n + "]\n") && Quiet(n)
    ensures h + |n| + 3 <= |t|
    ensures Find(t, h, Unchanged, None, multiLine) == Find(t, h + |n| + 3, Unclosed(h + 1), None, multiLine)
  {
    hide *;
    QuietParts(n);
    BracketThere(t, h, n);
    NoSpaces(t, h + 1);
    BracketIsNoSpace(t, h);
    var e := FirstOf(n, 0, HEADER_STOPS);
    NameScans(t, h + 1, n, 0, HEADER_STOPS);
    AtChar(t, h + 1, n, e);
    QuietLines(t, h + 1, n, e, multiLine);
    HeaderPends(t, h, h + 1 + e, multiLine);
  }

  lemma BracketIsNoSpace(t: string, h: nat)
    requires h < |t| && t[h] == '['
    ensures SkipSpaces(t, h) == h
  {
  }

  lemma HeaderPends(t: string, h: nat, e: nat, multiLine: bool)
    requires h < e < |t| && t[h] == '[' && SkipSpaces(t, h) == h && SkipSpaces(t, h + 1) == h + 1
    requires FirstOf(t, h + 1, HEADER_STOPS) == e && t[e] != ']'
    ensures Find(t, h, Unchanged, None, multiLine) == Find(t, e, Unclosed(h + 1), None, multiLine)
  {
    hide FirstOf, SkipSpaces, KeyTurn, CommentTurn;
  }

  // ------------------------------------------------------------------
  // The section names of all entries of a text

  lemma HeaderNameIsGood(t: string, s: nat, comment: Option<string>)
    requires s < |t| && t[s] == '[' && NUL !in t
    ensures var turn := HeaderTurn(t, s, comment); turn.Yield? ==> turn.found.name == "" || GoodSectionName(turn.found.name)
  {
    hide FirstOf, TrimEnd, SkipSpaces;
    var b := SkipSpaces(t, s + 1);
    var e := FirstOf(t, b, HEADER_STOPS);
    if e < |t| && t[e] == ']' && b < e {
      TrimmedStretch(t, b, e, HEADER_STOPS);
    }
  }

  lemma {:induction false} FoundHeaderIsGood(t: string, i: nat, sec: SectionRef, comment: Option<string>, multiLine: bool)
    requires i <= |t| && (sec.Unclosed? ==> sec.start <= i) && NUL !in t
    ensures var r := Find(t, i, sec, comment, multiLine); r.Header? ==> r.name == "" || GoodSectionName(r.name)
    decreases |t| - i
  {
    hide CommentTurn, HeaderTurn, KeyTurn, GoodSectionName, SkipSpaces, IsSpace, IsComment;
    var s := SkipSpaces(t, i);
    if s < |t| {
      if t[s] == '[' {
        HeaderNameIsGood(t, s, comment);
      }
      match TurnAt(t, s, sec, comment, multiLine) {
        case Yield(found) =>
        case Go(next, sec', comment') => FoundHeaderIsGood(t, next, sec', comment', multiLine);
      }
    }
  }

  /** A header has a proper name or none; a pair without comment has the name in force, or brings a quiet one. */
  ghost predicate Traced(e: Entry, before: string) {
    if e.pair.None? then e.section == "" || GoodSectionName(e.section)
    else e.section == before || e.comment.Some? || Quiet(e.section)
  }

  function Before(es: seq<Entry>, i: nat, section: string): string
    requires i < |es|
  {
    if i == 0 then section else es[i-1].section
  }

  ghost predicate AllTraced(es: seq<Entry>, section: string) {
    es != [] ==> Traced(es[0], section) && AllTraced(es[1..], es[0].section)
  }

  lemma {:induction false} TracedAt(es: seq<Entry>, section: string, i: nat)
    requires AllTraced(es, section) && i < |es|
    ensures Traced(es[i], Before(es, i, section))
    decreases i
  {
    hide Traced;
    if i > 0 {
      TracedAt(es[1..], es[0].section, i - 1);
    }
  }

  lemma TracedCons(e: Entry, es: seq<Entry>, section: string)
    requires Traced(e, section) && AllTraced(es, e.section)
    ensures AllTraced([e] + es, section)
  {
    hide Traced;
    assert ([e] + es)[1..] == es;
  }

  /** All entries of a text are such. */
  lemma {:induction false} EntriesAreTraced(t: string, i: nat, section: string, multiLine: bool)
    requires i <= |t| && NUL !in t
    ensures AllTraced(Entries(t, i, section, multiLine), section)
    decreases |t| - i
  {
    hide Find, Traced, AllTraced, Quiet, GoodSectionName;
    FoundHeaderIsGood(t, i, Unchanged, None, multiLine);
    FoundName(t, i, Unchanged, multiLine);
    match Find(t, i, Unchanged, None, multiLine) {
      case End => NothingTraced(section);
      case Header(name, comment, next) =>
        EntriesAreTraced(t, next, name, multiLine);
        HeaderIsTraced(name, comment, section);
        TracedCons(Entry(name, None, comment), Entries(t, next, name, multiLine), section);
      case Pair(sec, key, value, comment, next) =>
        var name := NameOf(sec, section);
        EntriesAreTraced(t, next, name, multiLine);
        PairIsTraced(sec, (key, value), comment, section);
        TracedCons(Entry(name, Some((key, value)), comment), Entries(t, next, name, multiLine), section);
      case BodylessPair => NothingTraced(section);
    }
  }

  lemma NothingTraced(section: string)
    ensures AllTraced([], section)
  {
  }

  lemma HeaderIsTraced(name: string, comment: Option<string>, section: string)
    requires name == "" || GoodSectionName(name)
    ensures Traced(Entry(name, None, comment), section)
  {
  }

  lemma PairIsTraced(sec: SectionRef, pair: (string, string), comment: Option<string>, section: string)
    requires comment == None ==> sec.Unchanged? || (sec.Named? && Quiet(sec.name))
    ensures Traced(Entry(NameOf(sec, section), Some(pair), comment), section)
  {
    hide Quiet;
  }

  // ------------------------------------------------------------------
  // Which entry a section of the store was created by

  ghost predicate HasComment(keys: seq<Key<string>>, comment: Option<string>) {
    exists k :: k in keys && k.comment == comment
  }

  // Keys are not lost, and they keep their comments
  ghost predicate KeysGrow(keys: seq<Key<string>>, keys': seq<Key<string>>) {
    forall k | k in keys :: HasComment(keys', k.comment)
  }

  lemma SetKeyGrows(keys: seq<Key<string>>, k: string, v: string, comment: Option<string>, order: int, multiKey: bool)
    requires Ascending(KeyNames(keys))
    ensures var keys' := SetKey(keys, k, v, comment, order, multiKey, false);
            KeysGrow(keys, keys') && (keys == [] ==> HasComment(keys', comment))
  {
    hide Lower, Upper, NameLess, Ascending;
    var keys' := SetKey(keys, k, v, comment, order, multiKey, false);
    if CreatesKey(keys, k, multiKey) {
      var u := Upper(KeyNames(keys), k);
      assert keys' == keys[..u] + [Key(k, comment, order, v)] + keys[u..];
      assert keys'[u].comment == comment;
      forall x | x in keys
        ensures HasComment(keys', x.comment)
      {
        assert x in keys';
      }
    } else {
      var i := Lower(KeyNames(keys), k);
      forall x | x in keys
        ensures HasComment(keys', x.comment)
      {
        var j :| 0 <= j < |keys| && keys[j] == x;
        assert keys'[j].comment == x.comment && keys'[j] in keys';
      }
    }
  }

  ghost predicate SectionGrows(w: Section<string>, u: Section<string>) {
    w.name == u.name && KeysGrow(w.keys, u.keys)
  }

  // A section after an entry was there before, with fewer keys, or the entry created it
  ghost predicate FromEntry(st: Store, e: Entry, u: Section<string>) {
    || (exists w :: w in st.sections && SectionGrows(w, u))
    || (u.name == e.section && !HasSection(st, e.section) && (e.pair.Some? ==> HasComment(u.keys, e.comment)))
  }

  lemma SectionStays(u: Section<string>)
    ensures SectionGrows(u, u)
  {
    forall k | k in u.keys
      ensures HasComment(u.keys, k.comment)
    {
    }
  }

  lemma AddEntryCreates(st: Store, e: Entry)
    requires Sorted(st)
    ensures forall u | u in AddEntry(st, e.section, e.pair, e.comment, false).0.sections :: FromEntry(st, e, u)
  {
    hide Sorted, SetKey, Lower, NameLess, WithSection, SectionGrows, HasSection, HasComment;
    var st' := AddEntry(st, e.section, e.pair, e.comment, false).0;
    forall u | u in st'.sections
      ensures FromEntry(st, e, u)
    {
      SectionStays(u);
      if e.pair.None? {
        WithSectionIsNew(st, e.section, e.comment);
      } else {
        WithSectionSorted(st, e.section, None);
        var j :| 0 <= j < |st'.sections| && st'.sections[j] == u;
        PairCreates(st, WithSection(st, e.section, None), e, u, j);
      }
    }
  }

  // Among the sections is the one that the pair goes to
  lemma PairCreates(st: Store, st1: Store, e: Entry, u: Section<string>, j: nat)
    requires Sorted(st) && e.pair.Some? && st1 == WithSection(st, e.section, None)
    requires var st' := AddEntry(st, e.section, e.pair, e.comment, false).0; j < |st'.sections| && st'.sections[j] == u
    ensures FromEntry(st, e, u)
  {
    hide Sorted, SetKey, Lower, NameLess, WithSection, HasSection, HasComment, KeysGrow, SameName, Has;
    WithSectionSorted(st, e.section, None);
    WithSectionIsNew(st, e.section, None);
    WithSectionKeepsMode(st, e.section);
    HasIsFound(st1, e.section);
    PlaceOfSection(st1, e.section);
    var i := Lower(SectionNames(st1.sections), e.section);
    var w := st1.sections[i];
    var (k, v) := e.pair.value;
    if j == i {
      KeysSorted(st1, i);
      SetKeyGrows(w.keys, k, v, e.comment, st1.order + 1, st.multiKey);
      assert w in st1.sections;
      if w in st.sections {
        assert SectionGrows(w, u);
      }
    } else {
      assert u == st1.sections[j] && u in st1.sections;
      SectionStays(u);
      if u !in st.sections {
        SameNameSymmetric(w.name, e.section);
        OnePerName(st1, i, j);
      }
    }
  }

  lemma WithSectionKeepsMode(st: Store, s: string)
    ensures WithSection(st, s, None).multiKey == st.multiKey
  {
  }

  lemma WithSectionIsNew(st: Store, s: string, comment: Option<string>)
    requires Sorted(st)
    ensures forall u | u in WithSection(st, s, comment).sections :: u in st.sections || (u.name == s && u.keys == [] && !HasSection(st, s))
  {
    hide HasSection, Lower, SectionNames;
    WithSectionElements(st, s, comment);
    HasIsFound(st, s);
  }

  // The entry at i is the first of its name in a row, and the section still has the comment that came with it
  ghost predicate Creator(es: seq<Entry>, i: nat, u: Section<string>)
    requires i < |es|
  {
    && es[i].section == u.name && (i > 0 ==> es[i-1].section != u.name)
    && (es[i].pair.Some? ==> HasComment(u.keys, es[i].comment))
  }

  ghost predicate Created(es: seq<Entry>, u: Section<string>) {
    exists i :: 0 <= i < |es| && Creator(es, i, u)
  }

  lemma CreatedStays(es: seq<Entry>, e: Entry, w: Section<string>, u: Section<string>)
    requires Created(es, w) && SectionGrows(w, u)
    ensures Created(es + [e], u)
  {
    var i :| 0 <= i < |es| && Creator(es, i, w);
    var all := es + [e];
    assert all[i] == es[i] && (i > 0 ==> all[i-1] == es[i-1]);
    if es[i].pair.Some? {
      var k :| k in w.keys && k.comment == es[i].comment;
      assert HasComment(u.keys, k.comment);
    }
    assert Creator(all, i, u);
  }

  lemma {:induction false} EntryIsKnown(st: Store, es: seq<Entry>, i: nat)
    requires Sorted(st) && i < |es|
    ensures HasSection(AddAll(st, es), es[i].section)
    decreases |es|
  {
    hide Sorted, AddEntry, AddAll, HasSection, Values, SameName;
    var n := |es| - 1;
    var p, e := es[..n], es[n];
    assert es == p + [e];
    AddOne(st, p, e);
    AddEntryIsMultimapWrite(AddAll(st, p), e.section, e.pair, e.comment, false, es[i].section, "");
    if i < n {
      EntryIsKnown(st, p, i);
    } else {
      SameNameSymmetric(e.section, e.section);
    }
  }

  /** Every section of a loaded store was created by an entry of the text. */
  lemma {:induction false} AllCreated(st: Store, es: seq<Entry>)
    requires Sorted(st) && st.sections == []
    ensures forall u | u in AddAll(st, es).sections :: Created(es, u)
    decreases |es|
  {
    hide Sorted, AddEntry, AddAll, HasSection, SectionGrows, HasComment;
    if es == [] {
      AddNothing(st);
    } else {
      var n := |es| - 1;
      var p, e := es[..n], es[n];
      assert es == p + [e];
      AddOne(st, p, e);
      AllCreated(st, p);
      var before := AddAll(st, p);
      AddEntryCreates(before, e);
      if n > 0 {
        EntryIsKnown(st, p, n - 1);
      }
      forall u | u in AddAll(st, es).sections
        ensures Created(es, u)
      {
        assert FromEntry(before, e, u);
        if w :| w in before.sections && SectionGrows(w, u) {
          CreatedStays(p, e, w, u);
        } else {
          assert Creator(es, n, u);
        }
      }
    }
  }

  // ------------------------------------------------------------------
  // What the document of a loaded store is made of

  ghost predicate AllKeysGood(sections: seq<Section<string>>) {
    forall u | u in sections :: GoodKeys(u.keys, false)
  }

  lemma AddEntryKeysGood(st: Store, e: Entry)
    requires Sorted(st) && AllKeysGood(st.sections) && GoodEntry(e, false)
    ensures AllKeysGood(AddEntry(st, e.section, e.pair, e.comment, false).0.sections)
  {
    hide Sorted, SetKey, Lower, NameLess, WithSection, GoodKeys, GoodKeyName, GoodValue, GoodComment;
    var c := if e.pair.Some? then None else e.comment;
    var st1 := WithSection(st, e.section, c);
    WithSectionSorted(st, e.section, c);
    WithSectionElements(st, e.section, c);
    NoKeysGood();
    assert AllKeysGood(st1.sections);
    if e.pair.Some? {
      var i := Lower(SectionNames(st1.sections), e.section);
      var (k, v) := e.pair.value;
      KeysSorted(st1, i);
      WithSectionKeepsMode(st, e.section);
      assert st1.sections[i] in st1.sections;
      SetKeyGood(st1.sections[i].keys, k, v, e.comment, st1.order + 1, st.multiKey, false, false);
    }
  }

  lemma NoKeysGood()
    ensures GoodKeys([], false)
  {
  }

  lemma {:induction false} AddAllKeysGood(st: Store, es: seq<Entry>)
    requires Sorted(st) && AllKeysGood(st.sections) && forall e | e in es :: GoodEntry(e, false)
    ensures AllKeysGood(AddAll(st, es).sections)
    decreases |es|
  {
    hide Sorted, AddEntry, AllKeysGood, GoodEntry;
    if es != [] {
      var e := es[0];
      AddEntrySorted(st, e.section, e.pair, e.comment, false);
      AddEntryKeysGood(st, e);
      AddAllKeysGood(AddEntry(st, e.section, e.pair, e.comment, false).0, es[1..]);
    }
  }

  lemma {:induction false} MatchingKeeps(keys: seq<Key<string>>, x: Key<string>)
    requires x in keys
    ensures x in Matching(keys, x.name)
    decreases |keys|
  {
    hide SameName;
    var n := |keys| - 1;
    SameNameSymmetric(x.name, x.name);
    if keys[n] != x {
      assert keys == keys[..n] + [keys[n]];
      MatchingKeeps(keys[..n], x);
    }
  }

  // Every key of a table shows its comment, as long as no key repeats where keys are taken to be single
  lemma CommentIsShown(keys: seq<Key<string>>, x: Key<string>, multiKey: bool) returns (i: nat, j: nat)
    requires Ascending(KeyNames(keys)) && x in keys && (multiKey || |Matching(keys, x.name)| <= 1)
    ensures i < |DocKeys(keys, multiKey)| && j < |DocKeys(keys, multiKey)[i].values| && DocKeys(keys, multiKey)[i].values[j].comment == x.comment
  {
    hide Matching, Heads, SortByOrder, SameName, Ascending;
    MatchingKeeps(keys, x);
    i := KeyIsListed(keys, x.name, multiKey);
    var name := DocKeys(keys, multiKey)[i].name;
    SameNameSymmetric(name, x.name);
    MatchingSame(keys, x.name, name);
    j :| 0 <= j < |Matching(keys, name)| && Matching(keys, name)[j] == x;
  }

  ghost predicate CommentFreeKeys(keys: seq<DocKey>) {
    forall i, j | 0 <= i < |keys| && 0 <= j < |keys[i].values| :: keys[i].values[j].comment == None
  }

  /** No comment anywhere. */
  ghost predicate CommentFree(doc: Doc) {
    && doc.fileComment == None
    && forall i | 0 <= i < |doc.sections| :: doc.sections[i].comment == None && CommentFreeKeys(doc.sections[i].keys)
  }

  // The names that can be delivered without a comment
  predicate DeliveredName(name: string, hasKeys: bool) {
    name == "" || GoodSectionName(name) || (Quiet(name) && hasKeys)
  }

  lemma CreatedName(es: seq<Entry>, u: Section<string>)
    requires AllTraced(es, "") && Created(es, u) && forall k | k in u.keys :: k.comment == None
    ensures DeliveredName(u.name, u.keys != [])
  {
    hide Quiet, GoodSectionName, AllTraced;
    var i :| 0 <= i < |es| && Creator(es, i, u);
    TracedAt(es, "", i);
  }

  // ------------------------------------------------------------------
  // The entries of a printed document with such names

  // The name that the keys of a section are read under, when another is in force before
  function NameRead(s: DocSection, current: string): string {
    if s.name == "" then current
    else if GoodSectionName(s.name) || s.keys == [] then s.name
    else s.name + "]\n" + s.keys[0].name
  }

  function HeaderRead(s: DocSection): seq<Entry> {
    if GoodSectionName(s.name) then [Entry(s.name, None, None)] else []
  }

  function NamesRead(ss: seq<DocSection>): string
    decreases |ss|
  {
    if ss == [] then "" else NameRead(ss[|ss|-1], NamesRead(ss[..|ss|-1]))
  }

  function EntriesRead(ss: seq<DocSection>): seq<Entry>
    decreases |ss|
  {
    if ss == [] then []
    else
      var s := ss[|ss|-1];
      EntriesRead(ss[..|ss|-1]) + (HeaderRead(s) + KeyEntries(NamesRead(ss), s.keys))
  }

  // A section that a loaded store without comments can show
  predicate Deliverable(s: DocSection, multiLine: bool) {
    && DeliveredName(s.name, s.keys != []) && s.comment == None && PlainKeys(s.keys, multiLine)
    && (s.keys != [] ==> s.keys[0].values != [] && s.keys[0].values[0].comment == None)
  }

  lemma {:induction false} FirstPairThere(k: DocKey, n: nat, fmt: Format)
    requires 1 <= n <= |k.values|
    ensures PairText(k.name, k.values[0], fmt) <= PairsText(k.name, k.values[..n], fmt)
    decreases n
  {
    hide PairText;
    assert k.values[..n][..n-1] == k.values[..n-1];
    if n > 1 {
      FirstPairThere(k, n - 1, fmt);
    }
  }

  lemma {:induction false} FirstKeyThere(keys: seq<DocKey>, n: nat, fmt: Format)
    requires 1 <= n <= |keys| && keys[0].values != []
    ensures PairText(keys[0].name, keys[0].values[0], fmt) <= KeysText(keys[..n], fmt)
    decreases n
  {
    hide PairText, PairsText;
    assert keys[..n][..n-1] == keys[..n-1];
    if n > 1 {
      FirstKeyThere(keys, n - 1, fmt);
    } else {
      var k := keys[0];
      assert k.values[..|k.values|] == k.values;
      FirstPairThere(k, |k.values|, fmt);
    }
  }

  lemma AtPrefix(t: string, i: nat, piece: string, part: string)
    requires At(t, i, piece) && part <= piece
    ensures At(t, i, part)
  {
    assert piece == part + piece[|part|..];
    AtSplit(t, i, part, piece[|part|..]);
  }

  // Two places that lead to the same pair, one of them naming its section
  lemma SamePair(t: string, i: nat, j: nat, current: string, name: string, k: string, v: string, next: nat, multiLine: bool)
    requires i <= j <= |t|
    requires Find(t, i, Unchanged, None, multiLine) == Pair(Named(name), k, v, None, next)
    requires Find(t, j, Unchanged, None, multiLine) == Pair(Unchanged, k, v, None, next)
    ensures Reads(t, i, current, multiLine, [], j, name)
  {
    hide Find;
    assert [] + Entries(t, j, name, multiLine) == Entries(t, j, name, multiLine);
  }

  lemma NameUpTo(t: string, h: nat, n: string, key: string)
    requires At(t, h, n + "]\n") && At(t, h + |n| + 2, key)
    ensures h + |n| + 2 + |key| <= |t| && Close(t, Unclosed(h), h + |n| + 2 + |key|, "") == Named(n + "]\n" + key)
  {
    var q := h + |n| + 2;
    assert t[h..q + |key|] == t[h..q] + t[q..q + |key|];
    assert t[h..q + |key|] + "" == t[h..q + |key|];
  }

  /** A quiet name is read back longer: up to the first key of its section. */
  lemma QuietReads(t: string, h: nat, n: string, keys: seq<DocKey>, current: string, fmt: Format)
    requires Quiet(n) && keys != [] && PlainKey(keys[0], fmt.multiLine) && keys[0].values[0].comment == None
    requires At(t, h, "[" + n + "]\n") && At(t, h + |n| + 3, KeysText(keys, fmt))
    ensures Reads(t, h, current, fmt.multiLine, [], h + |n| + 3, n + "]\n" + keys[0].name)
  {
    hide *;
    PlainFirst(keys[0], fmt.multiLine);
    var k, v, q := keys[0].name, keys[0].values[0], h + |n| + 3;
    var gap := if fmt.spaces then " " else "";
    FirstKeyThere(keys, |keys|, fmt);
    assert keys[..|keys|] == keys;
    FirstParts(keys[0], fmt);
    AtPrefix(t, q, KeysText(keys, fmt), PairText(k, v, fmt));
    QuietParts(n);
    BracketThere(t, h, n);
    AtFits(t, q, k + gap + "=" + (gap + ValueText(v.value, fmt) + "\n"));
    FourParts(k, gap, "=", gap + ValueText(v.value, fmt) + "\n");
    AtSplit(t, q, k, gap + ("=" + (gap + ValueText(v.value, fmt) + "\n")));
    ParsePair(t, q, Unclosed(h + 1), k, gap, v.value, None, fmt);
    ParsePair(t, q, Unchanged, k, gap, v.value, None, fmt);
    CloseUnchanged(t, q + |k|);
    NameUpTo(t, h + 1, n, k);
    QuietHead(t, h, n, fmt.multiLine);
    SamePair(t, h, q, current, n + "]\n" + k, k, v.value, q + |k| + |gap| + 1 + |gap| + |ValueText(v.value, fmt)| + 1, fmt.multiLine);
  }

  lemma CloseUnchanged(t: string, end: nat)
    requires end <= |t|
    ensures Close(t, Unchanged, end, "") == Unchanged
  {
  }

  lemma PlainFirst(k: DocKey, multiLine: bool)
    requires PlainKey(k, multiLine)
    ensures GoodKeyName(k.name) && k.values != [] && GoodValue(k.values[0].value, multiLine)
  {
    assert PlainValue(k.values[0], multiLine);
  }

  lemma FirstParts(k: DocKey, fmt: Format)
    requires k.values != [] && k.values[0].comment == None
    ensures var gap := if fmt.spaces then " " else "";
            PairText(k.name, k.values[0], fmt) == k.name + gap + "=" + (gap + ValueText(k.values[0].value, fmt) + "\n")
  {
    hide ValueText;
    PairParts(k.name, k.values[0], fmt);
  }

  // Up to the keys of a section
  lemma ReadsAnyHead(t: string, i: nat, s: DocSection, first: bool, current: string, fmt: Format)
    requires Deliverable(s, fmt.multiLine) && At(t, i, SectionText(s, first, fmt))
    ensures Reads(t, i, current, fmt.multiLine, HeaderRead(s), i + |HeadText(s, first)|, NameRead(s, current))
    ensures At(t, i + |HeadText(s, first)|, KeysText(s.keys, fmt))
  {
    hide Reads, KeysText, HeadText, Quiet, GoodSectionName, PlainKeys, At;
    AtSplit(t, i, HeadText(s, first), KeysText(s.keys, fmt));
    HeadParts(s, first);
    BareHead(s);
    var gap := HeadGap(first);
    AtSplit(t, i, gap, HeadLine(s));
    ReadsGap(t, i, first, current, fmt.multiLine);
    if s.name != "" {
      if GoodSectionName(s.name) {
        ReadsHead(t, i, s, first, current, fmt.multiLine);
      } else {
        FirstPlain(s.keys, fmt.multiLine);
        QuietReads(t, i + |gap|, s.name, s.keys, current, fmt);
        ReadsOn(t, i, current, fmt.multiLine, [], i + |gap|, current, [], i + |gap| + |s.name| + 3, NameRead(s, current));
        assert HeaderRead(s) + [] == HeaderRead(s) == [];
      }
    }
  }

  lemma FirstPlain(keys: seq<DocKey>, multiLine: bool)
    requires PlainKeys(keys, multiLine) && keys != []
    ensures PlainKey(keys[0], multiLine)
  {
  }

  lemma BareHead(s: DocSection)
    requires s.comment == None
    ensures HeadComment(s) + HeadLine(s) == HeadLine(s) && (s.name == "" ==> HeadLine(s) == "")
    ensures GoodSectionName(s.name) ==> s.name != "" && HeaderEntries(s) == HeaderRead(s)
  {
  }

  lemma ReadsAnySection(t: string, i: nat, s: DocSection, first: bool, current: string, fmt: Format)
    requires Deliverable(s, fmt.multiLine) && At(t, i, SectionText(s, first, fmt))
    ensures Reads(t, i, current, fmt.multiLine, HeaderRead(s) + KeyEntries(NameRead(s, current), s.keys),
                  i + |SectionText(s, first, fmt)|, NameRead(s, current))
  {
    hide Reads, HeadText, KeysText, KeyEntries, NameRead, HeaderRead, DeliveredName, At;
    ReadsAnyHead(t, i, s, first, current, fmt);
    assert s.keys[..|s.keys|] == s.keys;
    var name := NameRead(s, current);
    ReadsKeys(t, i + |HeadText(s, first)|, name, s.keys, |s.keys|, fmt);
    ReadsOn(t, i, current, fmt.multiLine, HeaderRead(s), i + |HeadText(s, first)|, name,
            KeyEntries(name, s.keys), i + |SectionText(s, first, fmt)|, name);
  }

  /** The printed text of such a document parses to the entries that its names are read as. */
  lemma {:induction false} ReadsAnySections(t: string, ss: seq<DocSection>, n: nat, fmt: Format)
    requires n <= |ss| && At(t, 0, SectionsText(ss[..n], true, fmt))
    requires forall i | 0 <= i < |ss| :: Deliverable(ss[i], fmt.multiLine)
    ensures Reads(t, 0, "", fmt.multiLine, EntriesRead(ss[..n]), |SectionsText(ss[..n], true, fmt)|, NamesRead(ss[..n]))
    decreases n
  {
    hide Reads, SectionText, NameRead, HeaderRead, KeyEntries, Deliverable, At;
    if n == 0 {
      ReadsNothing(t, 0, "", fmt.multiLine);
    } else {
      SectionsNext(ss, n - 1, true, fmt);
      assert ss[..n][..n-1] == ss[..n-1] && ss[..n][n-1] == ss[n-1];
      var text, s, before := SectionsText(ss[..n-1], true, fmt), ss[n-1], NamesRead(ss[..n-1]);
      AtSplit(t, 0, text, SectionText(s, n == 1, fmt));
      ReadsAnySections(t, ss, n - 1, fmt);
      ReadsAnySection(t, |text|, s, n == 1, before, fmt);
      ReadsOn(t, 0, "", fmt.multiLine, EntriesRead(ss[..n-1]), |text|, before,
              HeaderRead(s) + KeyEntries(NameRead(s, before), s.keys), |SectionsText(ss[..n], true, fmt)|, NamesRead(ss[..n]));
    }
  }

  lemma {:induction false} AnyTextHasNoNul(ss: seq<DocSection>, n: nat, fmt: Format)
    requires n <= |ss| && forall i | 0 <= i < |ss| :: Deliverable(ss[i], fmt.multiLine)
    ensures NUL !in SectionsText(ss[..n], true, fmt)
    decreases n
  {
    hide SectionText, Deliverable;
    if n > 0 {
      SectionsNext(ss, n - 1, true, fmt);
      AnyTextHasNoNul(ss, n - 1, fmt);
      SectionHasNoNul(ss[n-1], n == 1, fmt);
    }
  }

  lemma SectionHasNoNul(s: DocSection, first: bool, fmt: Format)
    requires Deliverable(s, fmt.multiLine)
    ensures NUL !in SectionText(s, first, fmt)
  {
    hide KeysText, PlainKeys;
    KeysTextShape(s.keys, |s.keys|, fmt);
    assert s.keys[..|s.keys|] == s.keys;
    assert NUL !in s.name;
    HeadParts(s, first);
  }

  // ------------------------------------------------------------------
  // A document that is shown by its own text

  // The keys of a section that is shown without comments have none
  lemma ShownWithoutComment(st: Store, a: nat, k: Key<string>)
    requires Sorted(st) && a < |st.sections| && k in st.sections[a].keys && (st.multiKey || SingleKeys(st))
    requires CommentFreeKeys(DocKeys(st.sections[a].keys, st.multiKey))
    ensures k.comment == None
  {
    hide Matching, DocKeys, SameName, FindSection;
    var u := st.sections[a];
    SectionIsFound(st, a);
    KeysSorted(st, a);
    assert Values(st, u.name, k.name) == Matching(u.keys, k.name);
    var i, j := CommentIsShown(u.keys, k, st.multiKey);
  }

  lemma SectionIsDeliverable(st: Store, es: seq<Entry>, i: nat)
    requires Sorted(st) && (st.multiKey || SingleKeys(st)) && AllKeysGood(st.sections) && AllTraced(es, "")
    requires forall u | u in st.sections :: Created(es, u)
    requires CommentFree(DocOf(st)) && i < |DocSections(st)|
    ensures Deliverable(DocSections(st)[i], false)
  {
    hide DocSections, DocKeys, SingleKeys, Sorted, AllTraced, Created, PlainKey, GoodKeys, Quiet, GoodSectionName, SortByOrder;
    var j := SectionListed(st, i);
    var u := st.sections[j];
    assert DocOf(st).sections[i] == DocSections(st)[i];
    forall k | k in u.keys
      ensures k.comment == None
    {
      ShownWithoutComment(st, j, k);
    }
    assert u in st.sections;
    CreatedName(es, u);
    KeysSorted(st, j);
    var keys := DocKeys(u.keys, st.multiKey);
    forall x | 0 <= x < |keys|
      ensures PlainKey(keys[x], false)
    {
      DocKeyIsPlain(u.keys, x, st.multiKey, false);
    }
    if u.keys != [] {
      MatchingHasFirst(u.keys);
      var x := KeyIsListed(u.keys, u.keys[0].name, st.multiKey);
    }
    if keys != [] {
      PlainFirst(keys[0], false);
    }
  }

  lemma MatchingHasFirst(keys: seq<Key<string>>)
    requires keys != []
    ensures Matching(keys, keys[0].name) != []
  {
    SameNameSymmetric(keys[0].name, keys[0].name);
    MatchingHas(keys, 0, keys[0].name);
  }

  /** A document without comments that a text shows has names that can be delivered, and keys and values that can be printed. */
  lemma ShownIsDeliverable(t: string, order: int, multiKey: bool)
    requires NUL !in t
    ensures Sorted(Store([], None, order, multiKey))
    ensures var st := LoadText(Store([], None, order, multiKey), t, false);
            CommentFree(DocOf(st)) ==>
              && CommentBlock(t, 0, false).lines == []
              && EntriesStart(Store([], None, order, multiKey), t) == 0
              && Sorted(st) && st == AddAll(Store([], None, order, multiKey), Entries(t, 0, "", false))
              && (forall u | u in st.sections :: Created(Entries(t, 0, "", false), u))
              && (forall i | 0 <= i < |DocSections(st)| :: Deliverable(DocSections(st)[i], false))
  {
    hide DocSections, Sorted, AddAll, Entries, CommentBlock, Created, Deliverable, AllKeysGood, GoodEntry, AllTraced, SingleKeys, Join, CommentFreeKeys;
    var blank := Store([], None, order, multiKey);
    BlankIsSorted(order, multiKey);
    var st := LoadText(blank, t, false);
    LoadedIsSorted(blank, t, false);
    if CommentFree(DocOf(st)) {
      if CommentBlock(t, 0, false).lines != [] {
        EmptyShows(WithFileComment(blank, t).fileComment, order, multiKey);
        FileCommentStays(WithFileComment(blank, t), Entries(t, EntriesStart(blank, t), "", false));
      }
      NoBlockAtStart(t);
      var es := Entries(t, 0, "", false);
      AllCreated(blank, es);
      EntriesAreTraced(t, 0, "", false);
      EntriesAreGood(t, 0, "", false);
      NothingIsGood();
      AddAllKeysGood(blank, es);
      if !multiKey {
        EmptyIsSingle(order, multiKey);
        AddAllKeepsSingle(blank, es);
      }
      forall i | 0 <= i < |DocSections(st)|
        ensures Deliverable(DocSections(st)[i], false)
      {
        SectionIsDeliverable(st, es, i);
      }
    }
  }

  lemma NothingIsGood()
    ensures AllKeysGood([])
  {
  }

  lemma NoBlockAtStart(t: string)
    ensures CommentBlock(t, 0, false).lines == [] ==> CommentBlock(t, 0, false).next == 0
  {
    hide LineEnd, SkipSpaces;
  }

  // ------------------------------------------------------------------
  // No quiet name

  lemma BrokenIsNotGood(n: string)
    requires '\n' in n || '\r' in n
    ensures !GoodSectionName(n) && n != ""
  {
  }

  lemma QuietHasBreak(n: string)
    requires Quiet(n)
    ensures '\n' in n || '\r' in n
  {
    hide QuietFrom;
    assert n[FirstOf(n, 0, HEADER_STOPS)] in n;
  }

  // Names that differ in letter case only have their line breaks in the same places
  lemma SameBreaks(a: string, b: string)
    requires SameName(a, b) && '\n' in b
    ensures |a| == |b| && '\n' in a
  {
    var k :| 0 <= k < |b| && b[k] == '\n';
    assert |Fold(a)| == |a| && Fold(a)[k] == LoCase(a[k]) && Fold(b)[k] == LoCase(b[k]);
    assert a[k] == '\n';
  }

  // The first key of a section is read under the section's name
  lemma {:induction false} KeyIsRead(ss: seq<DocSection>, n: nat, j: nat) returns (x: nat)
    requires j < n <= |ss| && ss[j].keys != [] && ss[j].keys[0].values != []
    ensures x < |EntriesRead(ss[..n])| && EntriesRead(ss[..n])[x].section == NamesRead(ss[..j+1])
    decreases n
  {
    hide KeyEntries, NameRead, HeaderRead;
    var s := ss[n-1];
    assert ss[..n][..n-1] == ss[..n-1] && ss[..n][n-1] == s;
    if j == n - 1 {
      KeysStart(NamesRead(ss[..n]), s.keys);
      x := |EntriesRead(ss[..n-1])| + |HeaderRead(s)|;
    } else {
      x := KeyIsRead(ss, n - 1, j);
    }
  }

  function LongestName(ss: seq<DocSection>): (r: nat)
    ensures forall i | 0 <= i < |ss| :: |ss[i].name| <= r
  {
    if ss == [] then 0
    else
      var r := LongestName(ss[1..]);
      assert forall i | 1 <= i < |ss| :: ss[i] == ss[1..][i-1];
      if |ss[0].name| > r then |ss[0].name| else r
  }

  /** The document shown after its own text was loaded. */
  ghost predicate Returns(st: Store, es: seq<Entry>, ss: seq<DocSection>, order: int, multiKey: bool) {
    && Sorted(Store([], None, order, multiKey)) && Sorted(st) && st == AddAll(Store([], None, order, multiKey), es)
    && es == EntriesRead(ss) && DocSections(st) == ss
    && (forall u | u in st.sections :: Created(es, u))
    && forall i | 0 <= i < |ss| :: Deliverable(ss[i], false)
  }

  // A quiet name brings a longer one
  lemma LongerName(st: Store, es: seq<Entry>, ss: seq<DocSection>, order: int, multiKey: bool, j: nat) returns (i: nat)
    requires Returns(st, es, ss, order, multiKey) && j < |ss| && Quiet(ss[j].name)
    ensures i < |ss| && Quiet(ss[i].name) && |ss[i].name| > |ss[j].name|
  {
    hide Sorted, AddAll, EntriesRead, DocSections, Created, PlainKeys, Quiet, GoodSectionName, SameName, HasSection;
    var s := ss[j];
    QuietHasBreak(s.name);
    BrokenIsNotGood(s.name);
    var x := KeyIsRead(ss, |ss|, j);
    assert ss[..|ss|] == ss;
    NameOfLast(ss, j);
    var name := s.name + "]\n" + s.keys[0].name;
    EntryIsKnown(Store([], None, order, multiKey), es, x);
    i := SectionIsListed(st, name);
    assert name[|s.name| + 1] == '\n' && '\n' in name;
    SameBreaks(ss[i].name, name);
    BrokenIsNotGood(ss[i].name);
  }

  lemma NameOfLast(ss: seq<DocSection>, j: nat)
    requires j < |ss|
    ensures NamesRead(ss[..j+1]) == NameRead(ss[j], NamesRead(ss[..j]))
  {
    hide NameRead;
    assert ss[..j+1][..j] == ss[..j];
  }

  lemma {:induction false} NoQuiet(st: Store, es: seq<Entry>, ss: seq<DocSection>, order: int, multiKey: bool, j: nat)
    requires Returns(st, es, ss, order, multiKey) && j < |ss|
    ensures !Quiet(ss[j].name)
    decreases LongestName(ss) - |ss[j].name|
  {
    hide Returns, Quiet;
    if Quiet(ss[j].name) {
      var i := LongerName(st, es, ss, order, multiKey, j);
      NoQuiet(st, es, ss, order, multiKey, i);
    }
  }

  // ------------------------------------------------------------------
  // No nameless section but one with keys in front

  lemma {:induction false} PairEntriesSection(section: string, k: string, vs: seq<DocValue>)
    ensures forall e | e in PairEntries(section, k, vs) :: e.section == section
    decreases |vs|
  {
    if vs != [] {
      PairEntriesSection(section, k, vs[..|vs|-1]);
    }
  }

  lemma {:induction false} KeyEntriesSection(section: string, ks: seq<DocKey>)
    ensures forall e | e in KeyEntries(section, ks) :: e.section == section
    decreases |ks|
  {
    hide PairEntries;
    if ks != [] {
      KeyEntriesSection(section, ks[..|ks|-1]);
      PairEntriesSection(section, ks[|ks|-1].name, ks[|ks|-1].values);
    }
  }

  // Proper names, but for one nameless section which is not the first or has no keys
  ghost predicate BadNameless(ss: seq<DocSection>, z: nat) {
    && z < |ss| && ss[z].name == "" && (z > 0 || ss[z].keys == [])
    && forall i | 0 <= i < |ss| && i != z :: GoodSectionName(ss[i].name)
  }

  ghost predicate EntriesNamed(es: seq<Entry>) {
    forall e | e in es :: e.section != ""
  }

  lemma NamedAppend(a: seq<Entry>, b: seq<Entry>)
    requires EntriesNamed(a) && EntriesNamed(b)
    ensures EntriesNamed(a + b)
  {
  }

  // What one section adds
  lemma SectionNamed(s: DocSection, name: string)
    requires name == "" ==> s.keys == []
    requires s.name == "" || GoodSectionName(s.name)
    ensures EntriesNamed(HeaderRead(s) + KeyEntries(name, s.keys))
  {
    hide GoodSectionName;
    EmptyIsNotGood();
    KeyEntriesSection(name, s.keys);
    if name == "" {
      NothingKeyed(name, s.keys);
    }
  }

  lemma {:induction false} NothingUnnamed(ss: seq<DocSection>, z: nat, n: nat)
    requires BadNameless(ss, z) && n <= |ss|
    ensures EntriesNamed(EntriesRead(ss[..n]))
    ensures NamesRead(ss[..n]) == "" ==> n == 0 || (n == 1 && z == 0)
    decreases n
  {
    hide KeyEntries, GoodSectionName, EntriesNamed, HeaderRead;
    if n == 0 {
      NoneUnnamed();
    } else {
      var s := ss[n-1];
      assert ss[..n][..n-1] == ss[..n-1] && ss[..n][n-1] == s;
      NothingUnnamed(ss, z, n - 1);
      EmptyIsNotGood();
      SectionNamed(s, NamesRead(ss[..n]));
      NamedAppend(EntriesRead(ss[..n-1]), HeaderRead(s) + KeyEntries(NamesRead(ss[..n]), s.keys));
    }
  }

  lemma NoneUnnamed()
    ensures EntriesNamed([])
  {
  }

  lemma EmptyIsNotGood()
    ensures !GoodSectionName("")
  {
  }

  lemma NothingKeyed(section: string, ks: seq<DocKey>)
    requires ks == []
    ensures KeyEntries(section, ks) == []
  {
  }

  // Every section that is shown has the name of an entry
  lemma NameOfEntry(st: Store, es: seq<Entry>, ss: seq<DocSection>, order: int, multiKey: bool, z: nat) returns (i: nat)
    requires Returns(st, es, ss, order, multiKey) && z < |ss|
    ensures i < |es| && es[i].section == ss[z].name
  {
    hide Sorted, AddAll, EntriesRead, DocSections, Deliverable, SortByOrder, DocKeys;
    var j := SectionListed(st, z);
    assert st.sections[j] in st.sections;
    i :| 0 <= i < |es| && Creator(es, i, st.sections[j]);
  }

  lemma NoBadNameless(st: Store, es: seq<Entry>, ss: seq<DocSection>, order: int, multiKey: bool, z: nat)
    requires Returns(st, es, ss, order, multiKey)
    ensures !BadNameless(ss, z)
  {
    hide Sorted, AddAll, EntriesRead, NamesRead, DocSections, Deliverable, BadNameless, Created;
    if BadNameless(ss, z) {
      BadIsThere(ss, z);
      var i := NameOfEntry(st, es, ss, order, multiKey, z);
      assert ss[..|ss|] == ss && es[i] in es;
      NothingUnnamed(ss, z, |ss|);
    }
  }

  lemma BadIsThere(ss: seq<DocSection>, z: nat)
    requires BadNameless(ss, z)
    ensures z < |ss| && ss[z].name == ""
  {
  }

  // ------------------------------------------------------------------
  // The converse

  // Names that return are proper; only the first section may do without
  lemma ReturnsIsPlain(st: Store, es: seq<Entry>, doc: Doc, order: int, multiKey: bool)
    requires Returns(st, es, doc.sections, order, multiKey) && ProperDoc(doc, multiKey) && CommentFree(doc)
    ensures PlainDoc(doc, false)
  {
    hide Returns, Quiet, GoodSectionName, PlainKeys, SameName, ProperSection, CommentFreeKeys, BadNameless;
    var ss := doc.sections;
    forall i | 0 <= i < |ss|
      ensures ss[i].name == "" || GoodSectionName(ss[i].name)
      ensures PlainKeys(ss[i].keys, false)
    {
      NoQuiet(st, es, ss, order, multiKey, i);
      ReturnsAt(st, es, ss, order, multiKey, i);
    }
    forall z | 0 <= z < |ss| && ss[z].name == ""
      ensures z == 0 && ss[z].keys != []
    {
      NoBadNameless(st, es, ss, order, multiKey, z);
      if z > 0 || ss[z].keys == [] {
        OnlyOneNameless(doc, multiKey, z);
      }
    }
  }

  lemma ReturnsAt(st: Store, es: seq<Entry>, ss: seq<DocSection>, order: int, multiKey: bool, i: nat)
    requires Returns(st, es, ss, order, multiKey) && i < |ss|
    ensures Deliverable(ss[i], false)
  {
    hide Deliverable, Created, EntriesRead, AddAll, Sorted, DocSections;
  }

  lemma OnlyOneNameless(doc: Doc, multiKey: bool, z: nat)
    requires ProperDoc(doc, multiKey) && z < |doc.sections| && doc.sections[z].name == ""
    requires z > 0 || doc.sections[z].keys == []
    requires forall i | 0 <= i < |doc.sections| :: doc.sections[i].name == "" || GoodSectionName(doc.sections[i].name)
    ensures BadNameless(doc.sections, z)
  {
    hide GoodSectionName, ProperSection, SameName;
    forall i | 0 <= i < |doc.sections| && i != z
      ensures doc.sections[i].name != ""
    {
      SameNameSymmetric("", "");
    }
  }

  lemma ReturnsSetUp(doc: Doc, fmt: Format, order: int, multiKey: bool) returns (st: Store, es: seq<Entry>)
    requires !fmt.multiLine && CommentFree(doc)
    requires DocOf(LoadText(Store([], None, order, multiKey), Effective(DocText(doc, fmt)), false)) == doc
    ensures Returns(st, es, doc.sections, order, multiKey)
  {
    hide Sorted, DocSections, AddAll, Entries, DocText, Effective, CommentBlock, LoadText, Created, Deliverable, CommentFreeKeys, EntriesRead, SectionsText;
    var blank := Store([], None, order, multiKey);
    var t := Effective(DocText(doc, fmt));
    ShownIsDeliverable(t, order, multiKey);
    st, es := LoadText(blank, t, false), Entries(t, 0, "", false);
    EntriesOfText(doc, fmt);
  }

  lemma EntriesOfText(doc: Doc, fmt: Format)
    requires !fmt.multiLine && doc.fileComment == None && forall i | 0 <= i < |doc.sections| :: Deliverable(doc.sections[i], false)
    ensures Effective(DocText(doc, fmt)) == DocText(doc, fmt)
    ensures Entries(DocText(doc, fmt), 0, "", false) == EntriesRead(doc.sections)
  {
    hide SectionsText, Deliverable, EntriesRead, NamesRead;
    var t, ss := DocText(doc, fmt), doc.sections;
    assert ss[..|ss|] == ss && t == SectionsText(ss, true, fmt);
    AnyTextHasNoNul(ss, |ss|, fmt);
    WithoutNul(t);
    ReadsAnySections(t, ss, |ss|, fmt);
    assert Entries(t, |t|, NamesRead(ss), false) == [];
    assert EntriesRead(ss) + [] == EntriesRead(ss);
  }

  /**
    In single-line mode a document without comments, of any names, keys and
    values that a store of the mode can hold, is shown again by its own text
    exactly when it is plain.
  */
  lemma ReturnsIff(doc: Doc, fmt: Format, order: int, multiKey: bool)
    requires !fmt.multiLine && ProperDoc(doc, multiKey) && CommentFree(doc)
    ensures Sorted(Store([], None, order, multiKey))
    ensures DocOf(LoadText(Store([], None, order, multiKey), Effective(DocText(doc, fmt)), false)) == doc <==> PlainDoc(doc, false)
  {
    hide DocOf, LoadText, DocText, Effective, PlainDoc, ProperDoc, Sorted, Returns;
    BlankIsSorted(order, multiKey);
    if PlainDoc(doc, false) {
      NoCommentLeads(doc);
      LoadInvertsSave(doc, fmt, order, multiKey);
    }
    if DocOf(LoadText(Store([], None, order, multiKey), Effective(DocText(doc, fmt)), false)) == doc {
      var st, es := ReturnsSetUp(doc, fmt, order, multiKey);
      ReturnsIsPlain(st, es, doc, order, multiKey);
    }
  }

  lemma NoCommentLeads(doc: Doc)
    requires CommentFree(doc)
    ensures !CommentLeads(doc)
  {
  }

  /** What any store without comments shows comes back from its saved text exactly when it is plain. */
  lemma SaveLoadIff(st: Store, fmt: Format, order: int)
    requires Sorted(st) && !fmt.multiLine && CommentFree(DocOf(st))
    ensures var blank := Store([], None, order, st.multiKey);
            Sorted(blank) && (DocOf(LoadText(blank, Effective(DocText(DocOf(st), fmt)), false)) == DocOf(st) <==> PlainDoc(DocOf(st), false))
  {
    hide DocOf, LoadText, DocText, Effective, PlainDoc, ProperDoc, Sorted, CommentFree;
    StoreDocIsProper(st);
    ReturnsIff(DocOf(st), fmt, order, st.multiKey);
  }
}
