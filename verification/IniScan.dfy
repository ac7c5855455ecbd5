/**
  The in-place parser: it moves a cursor through the buffer it was given, plants
  a NUL behind every string it returns and compacts multi-line text onto itself.
  Every method is proved to read exactly what module IniParse reads out of the
  original text t, and to write only behind the cursor.
*/
module IniScan {
  import opened Options
  import opened IniText
  import opened IniParse

  /** The text from the cursor on is still untouched and ends in a NUL. */
  ghost predicate Ahead(buf: array<char>, t: string, cur: nat)
    reads buf
  {
    && cur <= |t| < buf.Length
    && (forall k | cur <= k < |t| :: buf[k] == t[k])
    && buf[|t|] == NUL
    && NUL !in t
  }

  /** The string s is stored at p and lies behind the cursor. */
  ghost predicate Stored(buf: array<char>, p: nat, s: string, cur: nat)
    reads buf
  {
    && p + |s| <= cur && p + |s| < buf.Length
    && (forall k | 0 <= k < |s| :: buf[p + k] == s[k])
    && NUL !in s
    && buf[p + |s|] == NUL
  }

  lemma StoredReads(buf: array<char>, p: nat, s: string, cur: nat)
    requires Stored(buf, p, s, cur)
    ensures p <= buf.Length && CStr(buf[..], p) == s
  {
    HoldsIsCStr(buf[..], p, s);
  }

  twostate predicate Unchanged(buf: array<char>, lo: int, hi: int)
    reads buf
  {
    forall k | 0 <= lo <= k < hi && k < buf.Length :: buf[k] == old(buf[k])
  }

  // ------------------------------------------------------------------
  // Cursor loops

  method ScanTo(buf: array<char>, cur: nat, stop: set<char>, ghost t: string) returns (r: nat)
    requires Ahead(buf, t, cur)
    ensures r == FirstOf(t, cur, stop)
  {
    r := cur;
    while buf[r] != NUL && buf[r] !in stop
      invariant cur <= r <= |t|
      invariant forall k | cur <= k < r :: t[k] !in stop
      decreases |t| - r
    {
      assert buf[r] == t[r] by {
        assert r != |t|;
      }
      r := r + 1;
    }
    assert r < |t| ==> t[r] in t;
    FirstOfIs(t, cur, stop, r);
  }

  method ScanSpaces(buf: array<char>, cur: nat, ghost t: string) returns (r: nat)
    requires Ahead(buf, t, cur)
    ensures r == SkipSpaces(t, cur)
  {
    r := cur;
    while buf[r] != NUL && IsSpace(buf[r])
      invariant cur <= r <= |t|
      invariant SkipSpaces(t, cur) == SkipSpaces(t, r)
      decreases |t| - r
    {
      assert r != |t|;
      r := r + 1;
    }
    assert r < |t| ==> t[r] in t;
  }

  method ScanBlanks(buf: array<char>, cur: nat, ghost t: string) returns (r: nat)
    requires Ahead(buf, t, cur)
    ensures r == SkipBlanks(t, cur)
  {
    r := cur;
    while buf[r] != NUL && !IsNewLineChar(buf[r]) && IsSpace(buf[r])
      invariant cur <= r <= |t|
      invariant SkipBlanks(t, cur) == SkipBlanks(t, r)
      decreases |t| - r
    {
      assert r != |t|;
      r := r + 1;
    }
    assert r < |t| ==> t[r] in t;
  }

  method SkipBreak(buf: array<char>, cur: nat, ghost t: string) returns (r: nat)
    requires Ahead(buf, t, cur) && cur < |t|
    ensures r == SkipNewLine(t, cur)
  {
    r := if buf[cur] == '\r' && buf[cur + 1] == '\n' then cur + 2 else cur + 1;
  }

  /** Reads ahead over white space, counting the line breaks in it. */
  method LookAhead(buf: array<char>, cur: nat, ghost t: string) returns (r: nat, newLines: nat)
    requires Ahead(buf, t, cur)
    ensures r == SkipSpaces(t, cur)
    ensures newLines == Breaks(t, cur, r)
  {
    r, newLines := cur, 0;
    ghost var s := SkipSpaces(t, cur);
    while IsSpace(buf[r])
      invariant cur <= r <= s
      invariant newLines + Breaks(t, r, s) == Breaks(t, cur, s)
      decreases |t| - r
    {
      assert r != |t|;
      if IsNewLineChar(buf[r]) {
        newLines := newLines + 1;
        r := SkipBreak(buf, r, t);
      } else {
        r := r + 1;
      }
    }
    assert r < |t| ==> buf[r] == t[r];
  }

  /** Walks back over trailing white space of buf[lo..hi] and ends the string there. */
  method TrimInPlace(buf: array<char>, lo: nat, hi: nat, ghost t: string)
    requires lo <= hi <= |t| < buf.Length
    requires forall k | lo <= k < hi :: buf[k] == t[k]
    requires NUL !in t
    modifies buf
    ensures var e := TrimEnd(t, lo, hi);
            && Stored(buf, lo, t[lo..e], hi)
            && Unchanged(buf, 0, e) && Unchanged(buf, e + 1, buf.Length)
  {
    var trail := hi - 1;
    while trail >= lo && IsSpace(buf[trail])
      invariant lo - 1 <= trail < hi
      invariant TrimEnd(t, lo, hi) == TrimEnd(t, lo, trail + 1)
    {
      trail := trail - 1;
    }
    trail := trail + 1;
    buf[trail] := NUL;
  }

  // The characters of w stand from p on
  ghost predicate Written(buf: array<char>, p: nat, w: string)
    reads buf
  {
    p + |w| <= buf.Length && forall k | 0 <= k < |w| :: buf[p + k] == w[k]
  }

  /** memmove of the line w to a lower address, and the NUL that ends it there. */
  method MoveDown(buf: array<char>, dst: nat, src: nat, len: nat, ghost w: string)
    requires dst < src && src + len < buf.Length
    requires len == |w| && Written(buf, src, w)
    modifies buf
    ensures Written(buf, dst, w) && buf[dst + len] == NUL
    ensures Unchanged(buf, 0, dst) && Unchanged(buf, src + len, buf.Length)
  {
    var i := 0;
    while i < len
      invariant 0 <= i <= len
      invariant forall k | 0 <= k < i :: buf[dst + k] == w[k]
      invariant forall k | i <= k < len :: buf[src + k] == w[k]
      invariant Unchanged(buf, 0, dst) && Unchanged(buf, src + len, buf.Length)
    {
      buf[dst + i] := buf[src + i];
      i := i + 1;
    }
    buf[dst + len] := NUL;
  }

  /** Reads the line at the cursor, moves it down to dst if it is not there already, and ends it with a NUL. */
  method TakeLine(buf: array<char>, dst: nat, cur: nat, ghost t: string) returns (e: nat, endOfLine: char)
    requires Ahead(buf, t, cur) && dst <= cur
    modifies buf
    ensures e == LineEnd(t, cur)
    ensures endOfLine == (if e < |t| then t[e] else NUL)
    ensures Stored(buf, dst, t[cur..e], e)
    ensures buf[e] == NUL
    ensures Unchanged(buf, 0, dst) && Unchanged(buf, e + 1, buf.Length)
  {
    e := ScanTo(buf, cur, NEWLINES, t);
    ghost var line := t[cur..e];
    assert Written(buf, cur, line);
    assert NUL !in line;
    if dst < cur {
      MoveDown(buf, dst, cur, e - cur, line);
    }
    endOfLine := buf[e];
    buf[e] := NUL;
  }

  // ------------------------------------------------------------------
  // Multi-line text

  /** What LoadMultiLineText is to read: a comment when it is given no tag, else the lines before the tag. */
  ghost function BlockAt(t: string, i: nat, tag: Option<string>, blanks: bool): (b: Block)
    requires i <= |t|
    ensures i <= b.next <= |t|
  {
    if tag.Some? then TagBlock(t, i, tag.value) else CommentBlock(t, i, blanks)
  }

  /** The block is the lines done so far and what is still to be read from cur on. */
  ghost predicate Left(t: string, cur: nat, tag: Option<string>, blanks: bool, done: seq<string>, block: Block)
    requires cur <= |t|
  {
    block == Block(done + BlockAt(t, cur, tag, blanks).lines, BlockAt(t, cur, tag, blanks).next)
  }

  lemma LeftAll(t: string, start: nat, tag: Option<string>, blanks: bool)
    requires start <= |t|
    ensures Left(t, start, tag, blanks, [], BlockAt(t, start, tag, blanks))
  {
  }

  // The tag line is reached
  lemma LeftTag(t: string, cur: nat, tag: string, blanks: bool, done: seq<string>, block: Block)
    requires cur <= |t| && Left(t, cur, Some(tag), blanks, done, block)
    requires SameName(t[cur..LineEnd(t, cur)], tag)
    ensures block == Block(done, AfterLine(t, LineEnd(t, cur)))
  {
  }

  // No comment line follows
  lemma LeftNothing(t: string, cur: nat, blanks: bool, done: seq<string>, block: Block)
    requires cur <= |t| && Left(t, cur, None, blanks, done, block)
    requires !(cur < |t| && IsComment(t[cur]))
    requires blanks ==> var s := SkipSpaces(t, cur); !(s < |t| && IsComment(t[s]))
    ensures block == Block(done, cur)
  {
  }

  // One more line is done, with or without a line break behind it
  lemma LeftStep(t: string, cur: nat, tag: Option<string>, blanks: bool, done: seq<string>, block: Block)
    requires cur <= |t| && Left(t, cur, tag, blanks, done, block)
    requires tag.None? ==> cur < |t| && IsComment(t[cur])
    requires tag.Some? ==> !SameName(t[cur..LineEnd(t, cur)], tag.value)
    ensures var e := LineEnd(t, cur);
            && (e == |t| ==> block == Block(done + [t[cur..e]], e))
            && (e < |t| ==> Left(t, SkipNewLine(t, e), tag, blanks, done + [t[cur..e]], block))
  {
    var e := LineEnd(t, cur);
    var line := t[cur..e];
    if e < |t| {
      var rest := BlockAt(t, SkipNewLine(t, e), tag, blanks);
      assert BlockAt(t, cur, tag, blanks) == Block([line] + rest.lines, rest.next);
      assert done + ([line] + rest.lines) == done + [line] + rest.lines;
    }
  }

  // A comment goes on behind white space: its line breaks become blank lines
  lemma LeftBlanks(t: string, cur: nat, done: seq<string>, block: Block)
    requires cur <= |t| && Left(t, cur, None, true, done, block)
    requires !(cur < |t| && IsComment(t[cur]))
    ensures var s := SkipSpaces(t, cur);
            s < |t| && IsComment(t[s]) ==> Left(t, s, None, true, done + BlankLines(Breaks(t, cur, s)), block)
  {
    var s := SkipSpaces(t, cur);
    if s < |t| && IsComment(t[s]) {
      var blank := BlankLines(Breaks(t, cur, s));
      assert done + (blank + CommentBlock(t, s, true).lines) == done + blank + CommentBlock(t, s, true).lines;
    }
  }

  lemma UnlinesSnoc(done: seq<string>, line: string)
    ensures Unlines(done + [line]) == Unlines(done) + line + "\n"
  {
    assert (done + [line])[..|done|] == done;
  }

  lemma {:induction false} UnlinesBlanks(done: seq<string>, n: nat)
    ensures |Unlines(done + BlankLines(n))| == |Unlines(done)| + n
    ensures forall k | 0 <= k < |Unlines(done)| + n ::
              Unlines(done + BlankLines(n))[k] == if k < |Unlines(done)| then Unlines(done)[k] else '\n'
  {
    if n == 0 {
      assert done + BlankLines(0) == done;
    } else {
      UnlinesBlanks(done, n - 1);
      UnlinesSnoc(done + BlankLines(n - 1), "");
      assert done + BlankLines(n) == (done + BlankLines(n - 1)) + [""];
    }
  }

  lemma {:induction false} BreaksFit(t: string, i: nat, j: nat)
    requires i <= j <= |t| && (forall k | i <= k < j :: IsSpace(t[k])) && (j < |t| ==> !IsSpace(t[j]))
    ensures Breaks(t, i, j) <= j - i
    decreases j - i
  {
    if i < j {
      if IsNewLineChar(t[i]) {
        BreaksFit(t, SkipNewLine(t, i), j);
      } else {
        BreaksFit(t, i + 1, j);
      }
    }
  }

  // The lines done so far stand at start, each ended by a newline
  ghost predicate Collected(buf: array<char>, start: nat, dl: nat, cur: nat, done: seq<string>)
    reads buf
  {
    && dl == start + |Unlines(done)| <= cur
    && Written(buf, start, Unlines(done))
    && NUL !in Unlines(done)
    && (done == [] <==> start == cur)
  }

  lemma WrittenAppend(buf: array<char>, p: nat, w: string, v: string)
    requires Written(buf, p, w) && Written(buf, p + |w|, v)
    ensures Written(buf, p, w + v)
  {
    forall k | 0 <= k < |w + v|
      ensures buf[p + k] == (w + v)[k]
    {
      if |w| <= k {
        assert buf[(p + |w|) + (k - |w|)] == v[k - |w|];
      }
    }
  }

  /** Puts the line break back behind the line that TakeLine read, moves on, and ends the line with one newline. */
  method EndLine(buf: array<char>, ghost start: nat, dl: nat, ghost cur: nat, e: nat, endOfLine: char, len: nat,
                 ghost t: string, ghost w: string) returns (next: nat)
    requires start <= cur <= |t| && e == LineEnd(t, cur) && e < |t| && endOfLine == t[e] && len == e - cur
    requires dl == start + |w| <= cur && Written(buf, start, w)
    requires Stored(buf, dl, t[cur..e], e)
    requires |t| < buf.Length && (forall k | e < k < |t| :: buf[k] == t[k]) && buf[|t|] == NUL && NUL !in t
    modifies buf
    ensures next == SkipNewLine(t, e) && Ahead(buf, t, next)
    ensures Written(buf, start, w + t[cur..e] + "\n")
    ensures Unchanged(buf, 0, start)
  {
    buf[e] := endOfLine;
    next := SkipBreak(buf, e, t);
    buf[dl + len] := '\n';
    assert Written(buf, dl, t[cur..e]);
    WrittenAppend(buf, start, w, t[cur..e]);
    assert Written(buf, dl + len, "\n");
    WrittenAppend(buf, start, w + t[cur..e], "\n");
  }

  /** Appends n empty lines at dl. */
  method PutBlankLines(buf: array<char>, ghost start: nat, dl: nat, n: nat, ghost done: seq<string>)
    returns (dl': nat)
    requires dl == start + |Unlines(done)| && dl + n <= buf.Length
    requires Written(buf, start, Unlines(done))
    modifies buf
    ensures dl' == dl + n == start + |Unlines(done + BlankLines(n))|
    ensures Written(buf, start, Unlines(done + BlankLines(n)))
    ensures Unchanged(buf, 0, start) && Unchanged(buf, dl', buf.Length)
  {
    dl' := dl;
    var left := n;
    while left > 0
      invariant 0 <= left <= n && dl' == dl + (n - left)
      invariant Written(buf, start, Unlines(done))
      invariant forall k | dl <= k < dl' :: buf[k] == '\n'
      invariant Unchanged(buf, 0, start) && Unchanged(buf, dl', buf.Length)
    {
      buf[dl'] := '\n';
      dl' := dl' + 1;
      left := left - 1;
    }
    UnlinesBlanks(done, n);
  }

  // The finished block without its last newline is the joined text
  lemma BlockText(buf: array<char>, start: nat, cur: nat, done: seq<string>)
    requires done != [] && start + |Unlines(done)| <= cur
    requires NUL !in Unlines(done) && Unlines(done) != ""
    requires start + |Unlines(done)| <= buf.Length && buf[start + |Unlines(done)| - 1] == NUL
    requires forall k | 0 <= k < |Unlines(done)| - 1 :: buf[start + k] == Unlines(done)[k]
    ensures Stored(buf, start, Join(done), cur)
  {
    UnlinesIsJoin(done);
    assert forall k | 0 <= k < |Join(done)| :: Join(done)[k] == Unlines(done)[k];
  }

  /** Neither string is below the other: the line is the tag, in whatever letter case. */
  method IsTagLine(buf: array<char>, line: nat, tag: nat, ghost lineText: string, ghost tagText: string, ghost cur: nat)
    returns (same: bool)
    requires Stored(buf, line, lineText, cur) && Stored(buf, tag, tagText, cur)
    ensures same == SameName(lineText, tagText)
  {
    StoredReads(buf, line, lineText, cur);
    StoredReads(buf, tag, tagText, cur);
    var l, r := CStr(buf[..], line), CStr(buf[..], tag);
    var above := false;
    var below := NoCaseLess(l, r);
    if !below {
      above := NoCaseLess(r, l);
    }
    NameTrichotomy(l, r);
    same := !below && !above;
  }

  /** Looks whether the comment goes on behind white space; if so its blank lines are kept. */
  method ResumeComment(buf: array<char>, ghost start: nat, dl: nat, cur: nat, ghost t: string, ghost done: seq<string>, ghost block: Block)
    returns (more: bool, dl': nat, cur': nat, ghost done': seq<string>)
    requires Ahead(buf, t, cur) && start < cur && !IsComment(buf[cur])
    requires Collected(buf, start, dl, cur, done) && Left(t, cur, None, true, done, block)
    modifies buf
    ensures more ==> cur < cur' && cur' < |t| && IsComment(t[cur'])
    ensures !more ==> cur' == cur && done' == done && dl' == dl && block == Block(done, cur)
    ensures Ahead(buf, t, cur') && Unchanged(buf, 0, start)
    ensures Collected(buf, start, dl', cur', done') && Left(t, cur', None, true, done', block)
  {
    hide Left;
    more, dl', cur', done' := false, dl, cur, done;
    var next, newLines := LookAhead(buf, cur, t);
    assert cur < |t| ==> buf[cur] == t[cur];
    assert next < |t| ==> buf[next] == t[next];
    if IsComment(buf[next]) {
      LeftBlanks(t, cur, done, block);
      BreaksFit(t, cur, next);
      dl' := PutBlankLines(buf, start, dl, newLines, done);
      UnlinesBlanks(done, newLines);
      done' := done + BlankLines(newLines);
      cur' := next;
      more := true;
    } else {
      LeftNothing(t, cur, true, done, block);
    }
  }

  /** Ends the collected block: its last newline gives way to a NUL. */
  method CloseBlock(buf: array<char>, start: nat, dl: nat, ghost cur: nat, ghost done: seq<string>)
    requires done != [] && dl == start + |Unlines(done)| <= cur && dl <= buf.Length
    requires Written(buf, start, Unlines(done)) && NUL !in Unlines(done)
    modifies buf
    ensures Stored(buf, start, Join(done), cur) && start + |Join(done)| == dl - 1
    ensures Unchanged(buf, 0, start) && Unchanged(buf, dl, buf.Length)
  {
    UnlinesIsJoin(done);
    buf[dl - 1] := NUL;
    BlockText(buf, start, cur, done);
  }

  /** The tag line ends at cur: closes the block before it and steps over it. */
  method CloseAtTag(buf: array<char>, start: nat, dl: nat, cur: nat, endOfLine: char, ghost t: string, ghost done: seq<string>)
    returns (cur': nat)
    requires start <= cur <= |t| && 1 <= start
    requires |t| < buf.Length && (forall k | cur < k < |t| :: buf[k] == t[k]) && buf[|t|] == NUL && NUL !in t
    requires endOfLine == if cur < |t| then t[cur] else NUL
    requires endOfLine != NUL ==> IsNewLineChar(endOfLine)
    requires dl == start + |Unlines(done)| <= cur
    requires Written(buf, start, Unlines(done)) && NUL !in Unlines(done)
    requires done == [] ==> forall k | start <= k < cur :: buf[k] == t[k]
    modifies buf
    ensures cur' == AfterLine(t, cur)
    ensures done != [] ==> Ahead(buf, t, cur') && Stored(buf, start, Join(done), cur') && Unchanged(buf, 0, start)
    ensures done == [] ==> Ahead(buf, t, start) && Unchanged(buf, 0, start - 1)
  {
    assert cur < |t| ==> endOfLine in t;
    cur' := cur;
    if dl == start {
      if done != [] {
        UnlinesIsJoin(done);
      }
      buf[dl - 1] := NUL;
    } else {
      CloseBlock(buf, start, dl, cur, done);
    }
    if endOfLine != NUL {
      buf[cur] := endOfLine;
      cur' := SkipBreak(buf, cur, t);
    }
  }

  // The text ends with the line just read: it closes the block
  lemma LastLine(buf: array<char>, start: nat, dl: nat, done: seq<string>, line: string, cur: nat)
    requires dl == start + |Unlines(done)|
    requires Written(buf, start, Unlines(done)) && NUL !in Unlines(done)
    requires Stored(buf, dl, line, cur)
    ensures Stored(buf, start, Join(done + [line]), cur)
  {
    hide Join, Unlines;
    JoinSnoc(done, line);
    assert Written(buf, dl, line);
    WrittenAppend(buf, start, Unlines(done), line);
  }

  /** What the caller is given: the block's text, or the failure that an empty block makes of it. */
  ghost predicate Delivered(buf: array<char>, t: string, start: nat, block: Block, isComment: bool, ok: bool, cur: nat)
    requires start <= |t|
    reads buf
  {
    if block.lines != [] then
      ok && cur == block.next && Ahead(buf, t, cur) && Stored(buf, start, Join(block.lines), cur)
    else if isComment then
      !ok && cur == start == block.next && Ahead(buf, t, cur)
    else if LineEnd(t, start) == start then
      !ok
    else
      ok && cur == block.next && Ahead(buf, t, start)
  }

  // A pointer to the tag, whose string ends before the block starts
  ghost predicate TagBehind(buf: array<char>, t: string, start: nat, tagName: Option<nat>, tag: Option<string>)
    reads buf
  {
    && (tag.Some? <==> tagName.Some?)
    && (tag.Some? ==> Stored(buf, tagName.value, tag.value, start))
    && (tag.Some? && start < |t| ==> tagName.value + |tag.value| < start)
  }

  datatype Progress = More | Failed | Complete

  /** One line of the block: it is the tag line, or the last one, or one of several. */
  method ReadLine(buf: array<char>, start: nat, dl: nat, from: nat, tagName: Option<nat>,
                  ghost t: string, ghost done: seq<string>, ghost tag: Option<string>, ghost blanks: bool, ghost block: Block)
    returns (progress: Progress, dl': nat, cur: nat, ghost done': seq<string>)
    requires Ahead(buf, t, from) && start <= from
    requires Collected(buf, start, dl, from, done) && Left(t, from, tag, blanks, done, block)
    requires TagBehind(buf, t, start, tagName, tag)
    requires tag.None? ==> from < |t| && IsComment(t[from])
    modifies buf
    ensures progress == More ==>
      && from < cur && Ahead(buf, t, cur) && TagBehind(buf, t, start, tagName, tag)
      && Collected(buf, start, dl', cur, done') && Left(t, cur, tag, blanks, done', block)
    ensures progress != More ==> Delivered(buf, t, start, block, tag.None?, progress == Complete, cur)
    ensures progress == More || block.lines != [] || tag.None? ==> Unchanged(buf, 0, start)
    ensures Unchanged(buf, 0, start - 1)
  {
    hide Left, SameName, Join, Unlines, FirstOf, SkipNewLine, AfterLine;
    dl', done' := dl, done;
    var endOfLine;
    cur, endOfLine := TakeLine(buf, dl, from, t);
    ghost var line := t[from..cur];
    if tagName.Some? {
      var same := IsTagLine(buf, dl, tagName.value, line, tag.value, cur);
      if same {
        LeftTag(t, from, tag.value, blanks, done, block);
        if start == cur {
          return Failed, dl', cur, done';
        }
        cur := CloseAtTag(buf, start, dl, cur, endOfLine, t, done);
        return Complete, dl', cur, done';
      }
    }
    LeftStep(t, from, tag, blanks, done, block);
    assert cur < |t| ==> endOfLine in t;
    if endOfLine == NUL {
      LastLine(buf, start, dl, done, line, cur);
      return Complete, dl', cur, done';
    }
    UnlinesSnoc(done, line);
    var len := cur - from;
    cur := EndLine(buf, start, dl, from, cur, endOfLine, len, t, Unlines(done));
    dl' := dl + len + 1;
    done' := done + [line];
    progress := More;
  }

  /**
    Reads a comment (no tag) or the lines up to a tag line, in place.

    The write position never passes the read position, so the text ahead of the
    cursor stays intact. With a tag, the result is the lines before it unless
    the tag line comes first: then the returned pointer reads on through the
    rest of the buffer, tag line included.
  */
  method LoadMultiLineText(buf: array<char>, start: nat, tagName: Option<nat>, blanks: bool, ghost t: string, ghost tag: Option<string>)
    returns (ok: bool, cur: nat)
    requires Ahead(buf, t, start) && TagBehind(buf, t, start, tagName, tag)
    requires tag.None? && blanks ==> start < |t| && IsComment(t[start])
    modifies buf
    ensures Delivered(buf, t, start, BlockAt(t, start, tag, blanks), tag.None?, ok, cur)
    ensures BlockAt(t, start, tag, blanks).lines != [] || tag.None? ==> Unchanged(buf, 0, start)
    ensures Unchanged(buf, 0, start - 1)
  {
    hide Left, BlockAt;
    ghost var block := BlockAt(t, start, tag, blanks);
    LeftAll(t, start, tag, blanks);
    var dl := start;
    ghost var done: seq<string> := [];
    cur := start;
    while true
      invariant Ahead(buf, t, cur) && start <= cur
      invariant Collected(buf, start, dl, cur, done) && Left(t, cur, tag, blanks, done, block)
      invariant TagBehind(buf, t, start, tagName, tag)
      invariant Unchanged(buf, 0, start)
      decreases |t| - cur
    {
      assert cur < |t| ==> buf[cur] == t[cur];
      if tagName.None? && !IsComment(buf[cur]) {
        if !blanks {
          LeftNothing(t, cur, blanks, done, block);
          break;
        }
        var more;
        more, dl, cur, done := ResumeComment(buf, start, dl, cur, t, done, block);
        if !more {
          break;
        }
        continue;
      }
      var progress;
      progress, dl, cur, done := ReadLine(buf, start, dl, cur, tagName, t, done, tag, blanks, block);
      if progress != More {
        return progress == Complete, cur;
      }
    }
    if start == cur {
      return false, cur;
    }
    CloseBlock(buf, start, dl, cur, done);
    return true, cur;
  }

  /** The misread block: the pointer that is returned as value reads on to the end of the text. */
  lemma BodylessReadsOn(buf: array<char>, t: string, start: nat)
    requires Ahead(buf, t, start) && LineEnd(t, start) != start
    ensures CStr(buf[..], start) == t[start..] != Join([])
  {
    assert forall k | 0 <= k < |t[start..]| :: t[start..][k] in t;
    HoldsIsCStr(buf[..], start, t[start..]);
  }

  // ------------------------------------------------------------------
  // Entries

  // What the section pointer points to
  ghost predicate SectionAt(buf: array<char>, t: string, pSection: Option<nat>, sec: SectionRef, cur: nat)
    requires cur <= |t|
    reads buf
  {
    match sec
    case Unchanged => pSection == None
    case Unclosed(p) => pSection == Some(p) && p <= cur && |t| < buf.Length && forall k | p <= k < cur :: buf[k] == t[k]
    case Named(s) => pSection.Some? && Stored(buf, pSection.value, s, cur)
  }

  ghost predicate CommentAt(buf: array<char>, pComment: Option<nat>, comment: Option<string>, cur: nat)
    reads buf
  {
    match comment
    case None => pComment == None
    case Some(c) => pComment.Some? && Stored(buf, pComment.value, c, cur)
  }

  /** A '[' line: the name is trimmed and ended in place, unless the line has no ']'. */
  method ReadHeader(buf: array<char>, s: nat, ghost t: string) returns (closed: bool, b: nat, cur: nat)
    requires Ahead(buf, t, s) && s < |t| && t[s] == '['
    modifies buf
    ensures b == SkipSpaces(t, s + 1)
    ensures var e := FirstOf(t, b, HEADER_STOPS);
            && closed == (e < |t| && t[e] == ']')
            && (closed ==> cur == LineEnd(t, e + 1) && Stored(buf, b, t[b..TrimEnd(t, b, e)], cur))
            && (!closed ==> cur == e && Unchanged(buf, 0, buf.Length))
    ensures Ahead(buf, t, cur) && Unchanged(buf, 0, s)
  {
    b := ScanSpaces(buf, s + 1, t);
    cur := ScanTo(buf, b, HEADER_STOPS, t);
    closed := buf[cur] == ']';
    if closed {
      TrimInPlace(buf, b, cur, t);
      cur := ScanTo(buf, cur + 1, NEWLINES, t);
    }
  }

  /** The rest of the line at i, trimmed and ended in place; the cursor moves to the next line. */
  method ReadLineValue(buf: array<char>, i: nat, ghost t: string) returns (val: nat, cur: nat)
    requires Ahead(buf, t, i)
    modifies buf
    ensures val == SkipBlanks(t, i) && cur == AfterLine(t, LineEnd(t, val)) && Ahead(buf, t, cur)
    ensures Stored(buf, val, LineValue(t, val), cur)
    ensures cur < |t| ==> val + |LineValue(t, val)| < cur
    ensures Unchanged(buf, 0, i)
  {
    val := ScanBlanks(buf, i, t);
    var end := ScanTo(buf, val, NEWLINES, t);
    cur := end;
    if buf[cur] != NUL {
      cur := SkipBreak(buf, cur, t);
    }
    TrimInPlace(buf, val, end, t);
  }

  /** The value behind an equals sign at i - 1: the trimmed rest of the line, or the block that it opens. */
  method ReadValue(buf: array<char>, i: nat, multiLine: bool, ghost t: string) returns (ok: bool, val: nat, cur: nat)
    requires Ahead(buf, t, i) && 1 <= i
    modifies buf
    ensures match ValueAt(t, i, multiLine)
            case Parsed(value, next) => ok && cur == next && Ahead(buf, t, cur) && Stored(buf, val, value, cur)
            case NoValue => !ok
            case Bodyless => ok && i <= cur && Ahead(buf, t, cur) && val <= |t| && Ahead(buf, t, val) && LineEnd(t, val) != val
    ensures Unchanged(buf, 0, if ok then i else i - 1)
  {
    hide TagBlock, FirstOf, TrimEnd, SkipBlanks, Join;
    val, cur := ReadLineValue(buf, i, t);
    ghost var line := LineValue(t, val);
    StoredReads(buf, val, line, cur);
    ok := true;
    if multiLine && IsMultiLineTag(CStr(buf[..], val)) {
      var tagName := val + 3;
      assert Stored(buf, tagName, line[3..], cur);
      val := cur;
      ok, cur := LoadMultiLineText(buf, cur, Some(tagName), false, t, Some(line[3..]));
    }
  }

  predicate IsMultiLineTag(value: string) {
    |value| >= 3 && value[0] == '<' && value[1] == '<' && value[2] == '<'
  }

  lemma StoredSlice(buf: array<char>, t: string, p: nat, e: nat, cur: nat)
    requires p <= e <= cur && e <= |t| < buf.Length && NUL !in t
    requires (forall k | p <= k < e :: buf[k] == t[k]) && buf[e] == NUL
    ensures Stored(buf, p, t[p..e], cur)
  {
  }

  // An unterminated string runs on into the string behind it
  lemma StoredJoin(buf: array<char>, t: string, p: nat, s: nat, tail: string, cur: nat)
    requires p <= s <= |t| && NUL !in t
    requires (forall k | p <= k < s && k < buf.Length :: buf[k] == t[k]) && Stored(buf, s, tail, cur)
    ensures Stored(buf, p, t[p..s] + tail, cur)
  {
    var w := t[p..s] + tail;
    forall k | 0 <= k < |w|
      ensures buf[p + k] == w[k]
    {
      if k < s - p {
        assert buf[p + k] == t[p + k];
      } else {
        assert buf[s + (k - (s - p))] == tail[k - (s - p)];
      }
    }
  }

  /** A comment: it is compacted in place, and ends an unclosed header before it. */
  method ReadComment(buf: array<char>, s: nat, ghost t: string, pSection: Option<nat>, ghost sec: SectionRef)
    returns (cur: nat)
    requires Ahead(buf, t, s) && s < |t| && IsComment(t[s]) && SectionAt(buf, t, pSection, sec, s)
    modifies buf
    ensures var block := CommentBlock(t, s, true);
            && s < cur == block.next && Ahead(buf, t, cur)
            && Stored(buf, s, Join(block.lines), cur)
            && SectionAt(buf, t, pSection, Close(t, sec, s, Join(block.lines)), cur)
    ensures Unchanged(buf, 0, s)
  {
    hide Join, FirstOf, SkipSpaces;
    ghost var block := CommentBlock(t, s, true);
    assert block.lines != [] && s < block.next by {
      assert s < LineEnd(t, s);
    }
    var ok;
    ok, cur := LoadMultiLineText(buf, s, None, true, t, None);
    if sec.Unclosed? {
      StoredJoin(buf, t, sec.start, s, Join(block.lines), cur);
    }
  }

  // The pointers of an entry: the section if it changed, key and value unless it is a header, the comment
  datatype Pointers = Pointers(section: Option<nat>, pair: Option<(nat, nat)>, comment: Option<nat>)

  /** The pointers that FindEntry returns point to the strings of the entry found. */
  ghost predicate EntryAt(buf: array<char>, t: string, r: Pointers, found: Found, cur: nat)
    requires cur <= |t|
    reads buf
  {
    match found
    case Header(name, comment, next) =>
      && cur == next && r.pair == None && CommentAt(buf, r.comment, comment, cur)
      && r.section.Some? && Stored(buf, r.section.value, name, cur)
    case Pair(sec, key, value, comment, next) =>
      && cur == next && r.pair.Some? && CommentAt(buf, r.comment, comment, cur)
      && !sec.Unclosed? && SectionAt(buf, t, r.section, sec, cur)
      && Stored(buf, r.pair.value.0, key, cur) && Stored(buf, r.pair.value.1, value, cur)
    case BodylessPair =>
      r.pair.Some? && var p := r.pair.value.1; p <= |t| && Ahead(buf, t, p) && LineEnd(t, p) != p
    case End => false
  }

  // The section and comment pointers stay good while the cursor moves over untouched text
  lemma PointersMove(buf: array<char>, t: string, pSection: Option<nat>, sec: SectionRef, pComment: Option<nat>, comment: Option<string>, s: nat, cur: nat)
    requires s <= cur <= |t| && Ahead(buf, t, s) && SectionAt(buf, t, pSection, sec, s) && CommentAt(buf, pComment, comment, s)
    ensures SectionAt(buf, t, pSection, sec, cur) && CommentAt(buf, pComment, comment, cur)
  {
  }

  /** Trims and ends the key in place; an unclosed header before it ends there too. */
  method EndKey(buf: array<char>, s: nat, e: nat, ghost t: string, ghost pSection: Option<nat>, ghost sec: SectionRef)
    requires Ahead(buf, t, s) && s < e < |t| && SectionAt(buf, t, pSection, sec, s)
    modifies buf
    ensures Ahead(buf, t, e + 1) && Stored(buf, s, t[s..TrimEnd(t, s, e)], e)
    ensures SectionAt(buf, t, pSection, Close(t, sec, TrimEnd(t, s, e), ""), e)
    ensures Unchanged(buf, 0, s)
  {
    TrimInPlace(buf, s, e, t);
    ghost var k := TrimEnd(t, s, e);
    if sec.Unclosed? {
      StoredSlice(buf, t, sec.start, k, e);
      assert t[sec.start..k] + "" == t[sec.start..k];
    }
  }

  lemma VisibleAhead(buf: array<char>, t: string, s: nat)
    requires Ahead(buf, t, s) && s < |t|
    ensures s < buf.Length && buf[s] == t[s] != NUL
  {
    assert t[s] in t;
  }

  /** A key line whose equals sign is at e: key and value are trimmed and ended in place. */
  method ReadPair(buf: array<char>, s: nat, e: nat, multiLine: bool, pSection: Option<nat>, pComment: Option<nat>,
                  ghost t: string, ghost sec: SectionRef, ghost comment: Option<string>)
    returns (ok: bool, val: nat, cur: nat)
    requires Ahead(buf, t, s) && s < e == FirstOf(t, s, KEY_STOPS) && e < |t| && t[e] == '='
    requires SectionAt(buf, t, pSection, sec, s) && CommentAt(buf, pComment, comment, s)
    modifies buf
    ensures ok <==> PairTurn(t, s, e, sec, comment, multiLine) != End
    ensures ok ==>
      && s < cur && Ahead(buf, t, cur)
      && EntryAt(buf, t, Pointers(pSection, Some((s, val)), pComment), PairTurn(t, s, e, sec, comment, multiLine), cur)
    ensures Unchanged(buf, 0, s)
  {
    hide ValueAt, TrimEnd, FirstOf, Close, Ahead, LineEnd;
    VisibleAhead(buf, t, s);
    EndKey(buf, s, e, t, pSection, sec);
    ok, val, cur := ReadValue(buf, e + 1, multiLine, t);
  }

  datatype Outcome = GoOn | Hit(r: Pointers) | NoHit

  /** What the turn says was done: the cursor moved on with what is pending, or an entry was found. */
  ghost predicate TurnDone(buf: array<char>, t: string, s: nat, turn: Turn, outcome: Outcome, cur: nat, pSection: Option<nat>, pComment: Option<nat>)
    reads buf
  {
    match turn
    case Go(next, sec, comment) =>
      && outcome == GoOn && cur == next && Ahead(buf, t, cur)
      && SectionAt(buf, t, pSection, sec, cur) && CommentAt(buf, pComment, comment, cur)
    case Yield(found) =>
      && (outcome.Hit? <==> found != End) && !outcome.GoOn?
      && (outcome.Hit? ==> s < cur && Ahead(buf, t, cur) && EntryAt(buf, t, outcome.r, found, cur))
  }

  /** A '[' line: an entry, or an unclosed header that is kept for the entries to come. */
  method TakeHeader(buf: array<char>, s: nat, pComment: Option<nat>, ghost t: string, ghost comment: Option<string>)
    returns (outcome: Outcome, cur: nat, pSection: Option<nat>)
    requires Ahead(buf, t, s) && s < |t| && t[s] == '[' && CommentAt(buf, pComment, comment, s)
    modifies buf
    ensures TurnDone(buf, t, s, HeaderTurn(t, s, comment), outcome, cur, pSection, pComment)
    ensures Unchanged(buf, 0, s)
  {
    hide TrimEnd, FirstOf, SkipSpaces, LineEnd;
    var closed, b;
    closed, b, cur := ReadHeader(buf, s, t);
    pSection := Some(b);
    outcome := if closed then Hit(Pointers(pSection, None, pComment)) else GoOn;
  }

  /** A key line: skipped when it has no key or no equals sign. */
  method ReadKey(buf: array<char>, s: nat, multiLine: bool, pSection: Option<nat>, pComment: Option<nat>,
                 ghost t: string, ghost sec: SectionRef, ghost comment: Option<string>)
    returns (outcome: Outcome, cur: nat)
    requires Ahead(buf, t, s) && s < |t| && !IsSpace(t[s])
    requires SectionAt(buf, t, pSection, sec, s) && CommentAt(buf, pComment, comment, s)
    modifies buf
    ensures TurnDone(buf, t, s, KeyTurn(t, s, sec, comment, multiLine), outcome, cur, pSection, pComment)
    ensures Unchanged(buf, 0, s)
  {
    hide PairTurn, FirstOf, SectionAt, CommentAt, EntryAt;
    cur := ScanTo(buf, s, KEY_STOPS, t);
    if buf[cur] != '=' {
      PointersMove(buf, t, pSection, sec, pComment, comment, s, cur);
      return GoOn, cur;
    }
    if s == cur {
      cur := ScanTo(buf, cur, NEWLINES, t);
      PointersMove(buf, t, pSection, sec, pComment, comment, s, cur);
      return GoOn, cur;
    }
    var ok, val;
    ok, val, cur := ReadPair(buf, s, cur, multiLine, pSection, pComment, t, sec, comment);
    outcome := if ok then Hit(Pointers(pSection, Some((s, val)), pComment)) else NoHit;
  }

  /** What one line or comment does, in place. */
  method TakeTurn(buf: array<char>, s: nat, multiLine: bool, pSection: Option<nat>, pComment: Option<nat>,
                  ghost t: string, ghost sec: SectionRef, ghost comment: Option<string>)
    returns (outcome: Outcome, cur: nat, pSection': Option<nat>, pComment': Option<nat>)
    requires Ahead(buf, t, s) && s < |t| && !IsSpace(t[s])
    requires SectionAt(buf, t, pSection, sec, s) && CommentAt(buf, pComment, comment, s)
    modifies buf
    ensures TurnDone(buf, t, s, TurnAt(t, s, sec, comment, multiLine), outcome, cur, pSection', pComment')
    ensures Unchanged(buf, 0, s)
  {
    hide KeyTurn, HeaderTurn, CommentBlock, TrimEnd, FirstOf, SkipSpaces, Join, Close, Find, LineEnd;
    pSection', pComment' := pSection, pComment;
    if IsComment(buf[s]) {
      pComment' := Some(s);
      cur := ReadComment(buf, s, t, pSection, sec);
      outcome := GoOn;
    } else if buf[s] == '[' {
      outcome, cur, pSection' := TakeHeader(buf, s, pComment, t, comment);
    } else {
      outcome, cur := ReadKey(buf, s, multiLine, pSection, pComment, t, sec, comment);
    }
  }

  /**
    Finds the next entry. Each call moves the cursor strictly forward, writes
    only behind its new position and not before its old one, and finds what the
    original text has from the old position on.
  */
  method FindEntry(buf: array<char>, start: nat, multiLine: bool, ghost t: string)
    returns (ok: bool, cur: nat, r: Pointers)
    requires Ahead(buf, t, start)
    modifies buf
    ensures ok <==> Find(t, start, SectionRef.Unchanged, None, multiLine) != End
    ensures ok ==> start < cur && Ahead(buf, t, cur)
    ensures ok ==> EntryAt(buf, t, r, Find(t, start, SectionRef.Unchanged, None, multiLine), cur)
    ensures Unchanged(buf, 0, start)
    ensures start == |t| ==> Unchanged(buf, 0, buf.Length)
  {
    hide TurnAt, SkipSpaces;
    ghost var found := Find(t, start, SectionRef.Unchanged, None, multiLine);
    ghost var sec: SectionRef := SectionRef.Unchanged;
    ghost var comment: Option<string> := None;
    var pSection: Option<nat>, pComment: Option<nat> := None, None;
    cur := start;
    while buf[cur] != NUL
      invariant start <= cur && Ahead(buf, t, cur)
      invariant SectionAt(buf, t, pSection, sec, cur) && CommentAt(buf, pComment, comment, cur)
      invariant Find(t, cur, sec, comment, multiLine) == found
      invariant Unchanged(buf, 0, start)
      invariant start == |t| ==> Unchanged(buf, 0, buf.Length)
      decreases |t| - cur
    {
      var s := ScanSpaces(buf, cur, t);
      if buf[s] == NUL {
        break;
      }
      ghost var turn := TurnAt(t, s, sec, comment, multiLine);
      var outcome;
      outcome, cur, pSection, pComment := TakeTurn(buf, s, multiLine, pSection, pComment, t, sec, comment);
      match outcome {
        case GoOn =>
          sec, comment := turn.section, turn.comment;
        case Hit(entry) =>
          return true, cur, entry;
        case NoHit =>
          return false, cur, Pointers(None, None, None);
      }
    }
    return false, cur, Pointers(None, None, None);
  }
}
