/**
  Characters, names and NUL-terminated strings of the INI engine: the char
  instantiation with the ASCII case-insensitive comparator SI_GenericNoCase.
*/
module IniText {
  import opened Lexicographic

  const NUL := '\0'

  predicate IsSpace(c: char) {
    c == ' ' || c == '\t' || c == '\r' || c == '\n'
  }

  predicate IsComment(c: char) {
    c == ';' || c == '#'
  }

  predicate IsNewLineChar(c: char) {
    c == '\n' || c == '\r'
  }

  // ------------------------------------------------------------------
  // Names compare with ASCII letters folded to lower case

  function LoCase(c: char): char {
    if c < 'A' || c > 'Z' then c else c - 'A' + 'a'
  }

  function Fold(s: string): (f: string)
    ensures |f| == |s|
    ensures forall i | 0 <= i < |s| :: f[i] == LoCase(s[i])
  {
    if s == [] then [] else [LoCase(s[0])] + Fold(s[1..])
  }

  predicate NameLess(a: string, b: string) {
    Less(Fold(a), Fold(b))
  }

  predicate SameName(a: string, b: string) {
    Fold(a) == Fold(b)
  }

  /** Neither name is below the other exactly when they differ in letter case at most. */
  lemma NameTrichotomy(a: string, b: string)
    ensures NameLess(a, b) || NameLess(b, a) || SameName(a, b)
    ensures !(NameLess(a, b) && NameLess(b, a))
    ensures SameName(a, b) <==> !NameLess(a, b) && !NameLess(b, a)
  {
    Trichotomy(Fold(a), Fold(b));
  }

  /** The comparator is a strict weak order on all strings. */
  lemma NameLessIsStrictWeakOrder(a: string, b: string, c: string)
    ensures !NameLess(a, a)
    ensures NameLess(a, b) && NameLess(b, c) ==> NameLess(a, c)
    ensures !NameLess(a, b) && !NameLess(b, a) && !NameLess(b, c) && !NameLess(c, b) ==> !NameLess(a, c) && !NameLess(c, a)
  {
    Irreflexive(Fold(a));
    if NameLess(a, b) && NameLess(b, c) {
      Transitive(Fold(a), Fold(b), Fold(c));
    }
    NameTrichotomy(a, b);
    NameTrichotomy(b, c);
    NameTrichotomy(a, c);
  }

  /** SI_GenericNoCase: walks both strings to the first difference. */
  method NoCaseLess(left: string, right: string) returns (less: bool)
    ensures less == NameLess(left, right)
  {
    var l, r := left, right;
    while l != [] && r != []
      invariant NameLess(left, right) == NameLess(l, r)
      decreases |l|
    {
      var cl, cr := LoCase(l[0]), LoCase(r[0]);
      assert Fold(l)[1..] == Fold(l[1..]) && Fold(r)[1..] == Fold(r[1..]);
      if cl != cr {
        return cl < cr;
      }
      l, r := l[1..], r[1..];
    }
    return r != [];
  }

  // ------------------------------------------------------------------
  // Scanning a text

  /** The first position from i on that holds one of the stop characters, or the end of the text. */
  function FirstOf(t: string, i: nat, stop: set<char>): (r: nat)
    requires i <= |t|
    ensures i <= r <= |t|
    ensures forall k | i <= k < r :: t[k] !in stop
    ensures r < |t| ==> t[r] in stop
    decreases |t| - i
  {
    if i == |t| || t[i] in stop then i else FirstOf(t, i + 1, stop)
  }

  lemma FirstOfIs(t: string, i: nat, stop: set<char>, r: nat)
    requires i <= r <= |t|
    requires forall k | i <= k < r :: t[k] !in stop
    requires r < |t| ==> t[r] in stop
    ensures FirstOf(t, i, stop) == r
  {
  }

  const NEWLINES: set<char> := {'\n', '\r'}

  function LineEnd(t: string, i: nat): (r: nat)
    requires i <= |t|
    ensures i <= r <= |t|
  {
    FirstOf(t, i, NEWLINES)
  }

  function SkipSpaces(t: string, i: nat): (r: nat)
    requires i <= |t|
    ensures i <= r <= |t|
    ensures forall k | i <= k < r :: IsSpace(t[k])
    ensures r < |t| ==> !IsSpace(t[r])
    decreases |t| - i
  {
    if i == |t| || !IsSpace(t[i]) then i else SkipSpaces(t, i + 1)
  }

  // One line break: CRLF counts as one
  function SkipNewLine(t: string, i: nat): (r: nat)
    requires i < |t|
    ensures i < r <= |t|
  {
    if t[i] == '\r' && i + 1 < |t| && t[i + 1] == '\n' then i + 2 else i + 1
  }

  // The end of t[lo..hi] without its trailing white space
  function TrimEnd(t: string, lo: nat, hi: nat): (r: nat)
    requires lo <= hi <= |t|
    ensures lo <= r <= hi
    ensures forall k | r <= k < hi :: IsSpace(t[k])
    ensures lo < r ==> !IsSpace(t[r - 1])
  {
    if lo < hi && IsSpace(t[hi - 1]) then TrimEnd(t, lo, hi - 1) else hi
  }

  // ------------------------------------------------------------------
  // Lines

  /** Lines joined by single newlines, the form in which multi-line text is stored. */
  function Join(lines: seq<string>): string {
    if lines == [] then ""
    else if |lines| == 1 then lines[0]
    else lines[0] + "\n" + Join(lines[1..])
  }

  /** Lines each ended by a newline, the form in which multi-line text is collected. */
  function Unlines(lines: seq<string>): string {
    if lines == [] then "" else Unlines(lines[..|lines|-1]) + lines[|lines|-1] + "\n"
  }

  lemma {:induction false} UnlinesCons(l: string, lines: seq<string>)
    ensures Unlines([l] + lines) == l + "\n" + Unlines(lines)
    decreases |lines|
  {
    if lines == [] {
      assert [l] + lines == [l] && [l][..0] == [];
    } else {
      var p, z := lines[..|lines|-1], lines[|lines|-1];
      UnlinesCons(l, p);
      assert ([l] + lines)[..|lines|] == [l] + p;
      assert Unlines([l] + lines) == Unlines([l] + p) + z + "\n";
    }
  }

  lemma {:induction false} UnlinesIsJoin(lines: seq<string>)
    requires lines != []
    ensures Unlines(lines) == Join(lines) + "\n"
  {
    if |lines| == 1 {
      assert lines[..0] == [];
    } else {
      UnlinesIsJoin(lines[1..]);
      UnlinesCons(lines[0], lines[1..]);
      assert lines == [lines[0]] + lines[1..];
    }
  }

  lemma {:induction false} JoinSnoc(lines: seq<string>, l: string)
    ensures Join(lines + [l]) == Unlines(lines) + l
  {
    if lines == [] {
      assert lines + [l] == [l];
    } else {
      UnlinesIsJoin(lines + [l]);
      assert (lines + [l])[..|lines|] == lines;
      assert Unlines(lines + [l]) == (Unlines(lines) + l) + "\n";
      assert (Join(lines + [l]) + "\n")[..|Join(lines + [l])|] == Join(lines + [l]);
      assert ((Unlines(lines) + l) + "\n")[..|Unlines(lines) + l|] == Unlines(lines) + l;
    }
  }

  // ------------------------------------------------------------------
  // NUL-terminated strings in a buffer

  /** The string s is stored at p: its characters, then a NUL. */
  ghost predicate Holds(b: seq<char>, p: nat, s: string) {
    && p + |s| < |b|
    && (forall k | 0 <= k < |s| :: b[p + k] == s[k])
    && NUL !in s
    && b[p + |s|] == NUL
  }

  /** What a reader of the pointer sees. */
  function CStr(b: seq<char>, p: nat): string
    requires p <= |b|
  {
    b[p..FirstOf(b, p, {NUL})]
  }

  lemma HoldsIsCStr(b: seq<char>, p: nat, s: string)
    requires Holds(b, p, s)
    ensures CStr(b, p) == s
  {
    assert forall k | p <= k < p + |s| :: b[k] == s[k - p];
    assert forall k | 0 <= k < |s| :: s[k] in s;
    FirstOfIs(b, p, {NUL}, p + |s|);
  }
}
