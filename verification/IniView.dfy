/**
  What a reader of the store sees: the names of a table in load order, and the
  text that Save writes.
*/
module IniView {
  import opened Options
  import Lexicographic
  import opened IniText
  import opened IniStore
  import opened IniMultimap

  // An element of TNamesDepend: a section name, a key name or a value
  datatype Item = Item(item: string, comment: Option<string>, order: int)

  // ------------------------------------------------------------------
  // Key names

  /** The first entry of each key, in table order. */
  function Heads(keys: seq<Key<string>>): seq<Item>
    decreases |keys|
  {
    if keys == [] then []
    else
      var n := |keys| - 1;
      Heads(keys[..n]) +
      (if n == 0 || NameLess(keys[n-1].name, keys[n].name) then [Item(keys[n].name, keys[n].comment, keys[n].order)] else [])
  }

  ghost function FoldedNames(keys: seq<Key<string>>): set<string> {
    set k | k in keys :: Fold(k.name)
  }

  ghost function FoldedItems(items: seq<Item>): set<string> {
    set i | i in items :: Fold(i.item)
  }

  lemma FoldedNamesSnoc(p: seq<Key<string>>, k: Key<string>)
    ensures FoldedNames(p + [k]) == FoldedNames(p) + {Fold(k.name)}
  {
  }

  lemma FoldedItemsSnoc(p: seq<Item>, i: Item)
    ensures FoldedItems(p + [i]) == FoldedItems(p) + {Fold(i.item)}
  {
  }

  /** The heads name every key of the table exactly once, in any spelling. */
  lemma {:induction false} HeadsNameEachKeyOnce(keys: seq<Key<string>>)
    requires Ascending(KeyNames(keys))
    ensures |Heads(keys)| == |FoldedNames(keys)|
    ensures FoldedItems(Heads(keys)) == FoldedNames(keys)
    decreases |keys|
  {
    hide *;
    if keys == [] {
      NoNames();
    } else {
      var n := |keys| - 1;
      var p, k := keys[..n], keys[n];
      AscendingFront(keys);
      HeadsNameEachKeyOnce(p);
      assert keys == p + [k];
      FoldedNamesSnoc(p, k);
      HeadsFront(keys);
      if n == 0 || NameLess(keys[n-1].name, k.name) {
        NewName(keys);
        FoldedItemsSnoc(Heads(p), Item(k.name, k.comment, k.order));
        OneMore(FoldedNames(p), Fold(k.name));
      } else {
        OldName(keys);
        OneMore(FoldedNames(p), Fold(k.name));
      }
    }
  }

  lemma OneMore(names: set<string>, name: string)
    ensures |names + {name}| == |names| + if name in names then 0 else 1
    ensures name in names ==> names + {name} == names
  {
    if name in names {
      assert names + {name} == names;
    }
  }

  lemma HeadsFront(keys: seq<Key<string>>)
    requires keys != []
    ensures var n := |keys| - 1;
            Heads(keys) == if n == 0 || NameLess(keys[n-1].name, keys[n].name)
                           then Heads(keys[..n]) + [Item(keys[n].name, keys[n].comment, keys[n].order)]
                           else Heads(keys[..n])
  {
    hide NameLess;
    assert Heads(keys[..|keys|-1]) + [] == Heads(keys[..|keys|-1]);
  }

  lemma AscendingFront(keys: seq<Key<string>>)
    requires keys != [] && Ascending(KeyNames(keys))
    ensures Ascending(KeyNames(keys[..|keys|-1]))
  {
    hide NameLess;
    assert KeyNames(keys[..|keys|-1]) == KeyNames(keys)[..|keys|-1];
  }

  lemma NoNames()
    ensures Heads([]) == [] && FoldedNames([]) == {} && FoldedItems([]) == {}
  {
  }

  lemma OldName(keys: seq<Key<string>>)
    requires |keys| > 1 && Ascending(KeyNames(keys)) && !NameLess(keys[|keys|-2].name, keys[|keys|-1].name)
    ensures Fold(keys[|keys|-1].name) in FoldedNames(keys[..|keys|-1])
  {
    var n := |keys| - 1;
    assert !NameLess(KeyNames(keys)[n], KeyNames(keys)[n-1]);
    NameTrichotomy(keys[n-1].name, keys[n].name);
    assert keys[..n][n-1] in keys[..n];
  }

  // A last name above its predecessor is above all
  lemma NewName(keys: seq<Key<string>>)
    requires keys != [] && Ascending(KeyNames(keys))
    requires |keys| == 1 || NameLess(keys[|keys|-2].name, keys[|keys|-1].name)
    ensures Fold(keys[|keys|-1].name) !in FoldedNames(keys[..|keys|-1])
  {
    var n := |keys| - 1;
    var ns := KeyNames(keys);
    forall k | k in keys[..n]
      ensures Fold(k.name) != Fold(keys[n].name)
    {
      var i :| 0 <= i < n && keys[..n][i] == k;
      NameTrichotomy(ns[i], ns[n]);
      if i < n - 1 {
        assert !NameLess(ns[n-1], ns[i]);
        BelowStays(ns[i], ns[n-1], ns[n]);
      }
    }
  }

  lemma BelowStays(a: string, b: string, c: string)
    requires !NameLess(b, a) && NameLess(b, c)
    ensures NameLess(a, c)
  {
    Lexicographic.LessOrEqualThenLess(Fold(a), Fold(b), Fold(c));
  }

  lemma {:induction false} MatchingHas(keys: seq<Key<string>>, i: nat, k: string)
    requires i < |keys| && SameName(keys[i].name, k)
    ensures Matching(keys, k) != []
    decreases |keys|
  {
    if i < |keys| - 1 {
      MatchingHas(keys[..|keys|-1], i, k);
    }
  }

  lemma {:induction false} HeadIsMatched(keys: seq<Key<string>>, h: nat)
    requires h < |Heads(keys)|
    ensures Matching(keys, Heads(keys)[h].item) != []
    decreases |keys|
  {
    var n := |keys| - 1;
    if h < |Heads(keys[..n])| {
      HeadIsMatched(keys[..n], h);
    } else {
      MatchingHas(keys, n, keys[n].name);
    }
  }

  lemma SectionIsFound(st: Store, a: nat)
    requires Sorted(st) && a < |st.sections|
    ensures FindSection(st.sections, st.sections[a].name) == Some(st.sections[a])
  {
    var ns := SectionNames(st.sections);
    var s := st.sections[a].name;
    NameTrichotomy(s, s);
    CutAtSection(st.sections, s);
  }

  // ------------------------------------------------------------------
  // Load order

  function InsertByOrder(x: Item, s: seq<Item>): seq<Item> {
    if s == [] || x.order < s[0].order then [x] + s else [s[0]] + InsertByOrder(x, s[1..])
  }

  /** std::list::sort by load order: stable, so equal numbers would keep their places. */
  function SortByOrder(s: seq<Item>): seq<Item>
    decreases |s|
  {
    if s == [] then [] else InsertByOrder(s[|s|-1], SortByOrder(s[..|s|-1]))
  }

  ghost predicate OrderedByOrder(s: seq<Item>) {
    forall i, j | 0 <= i < j < |s| :: s[i].order <= s[j].order
  }

  lemma {:induction false} InsertByOrderIsOrdered(x: Item, s: seq<Item>)
    requires OrderedByOrder(s)
    ensures OrderedByOrder(InsertByOrder(x, s)) && multiset(InsertByOrder(x, s)) == multiset(s) + multiset{x}
    ensures InsertByOrder(x, s) != [] && (InsertByOrder(x, s)[0] == x || (s != [] && InsertByOrder(x, s)[0] == s[0] && s[0].order <= x.order))
  {
    if s == [] || x.order < s[0].order {
    } else {
      InsertByOrderIsOrdered(x, s[1..]);
      assert s == [s[0]] + s[1..];
    }
  }

  lemma MultisetSnoc(p: seq<Item>, x: Item)
    ensures multiset(p + [x]) == multiset(p) + multiset{x}
  {
  }

  /** The sort orders its input and loses nothing. */
  lemma {:induction false} SortByOrderSorts(s: seq<Item>)
    ensures OrderedByOrder(SortByOrder(s)) && multiset(SortByOrder(s)) == multiset(s)
    decreases |s|
  {
    hide OrderedByOrder, InsertByOrder;
    if s == [] {
      NothingToSort();
    } else {
      var p, x := s[..|s|-1], s[|s|-1];
      SortByOrderSorts(p);
      InsertByOrderIsOrdered(x, SortByOrder(p));
      assert s == p + [x];
      MultisetSnoc(p, x);
    }
  }

  lemma NothingToSort()
    ensures OrderedByOrder([])
  {
  }

  // ------------------------------------------------------------------
  // The document: everything that Save writes, in the order it writes it

  datatype DocValue = DocValue(value: string, comment: Option<string>)
  datatype DocKey = DocKey(name: string, values: seq<DocValue>)
  datatype DocSection = DocSection(name: string, comment: Option<string>, keys: seq<DocKey>)
  datatype Doc = Doc(fileComment: Option<string>, sections: seq<DocSection>)

  function ToItem(k: Key<string>): Item {
    Item(k.value, k.comment, k.order)
  }

  function ToItems(g: seq<Key<string>>): (r: seq<Item>)
    ensures |r| == |g| && forall i | 0 <= i < |g| :: r[i] == ToItem(g[i])
  {
    seq(|g|, i requires 0 <= i < |g| => ToItem(g[i]))
  }

  /** What GetAllValues lists: all entries of the key, or the first one when keys are taken to be single. */
  ghost function ValueItems(keys: seq<Key<string>>, k: string, multiKey: bool): seq<Item> {
    var g := Matching(keys, k);
    ToItems(if multiKey || g == [] then g else [g[0]])
  }

  ghost function DocValues(items: seq<Item>): (r: seq<DocValue>)
    ensures |r| == |items|
  {
    seq(|items|, i requires 0 <= i < |items| => DocValue(items[i].item, items[i].comment))
  }

  ghost function DocKeys(keys: seq<Key<string>>, multiKey: bool): (r: seq<DocKey>)
    ensures |r| == |SortByOrder(Heads(keys))|
  {
    var names := SortByOrder(Heads(keys));
    seq(|names|, i requires 0 <= i < |names| => DocKey(names[i].item, DocValues(ValueItems(keys, names[i].item, multiKey))))
  }

  function SectionItems(sections: seq<Section<string>>): (r: seq<Item>)
    ensures |r| == |sections|
    ensures forall i | 0 <= i < |r| :: r[i] == Item(sections[i].name, sections[i].comment, sections[i].order)
  {
    seq(|sections|, i requires 0 <= i < |sections| => Item(sections[i].name, sections[i].comment, sections[i].order))
  }

  ghost function KeysOf(st: Store, s: string): seq<Key<string>> {
    match FindSection(st.sections, s)
    case None => []
    case Some(section) => section.keys
  }

  ghost function DocSections(st: Store): (r: seq<DocSection>)
    ensures |r| == |SortByOrder(SectionItems(st.sections))|
  {
    var names := SortByOrder(SectionItems(st.sections));
    seq(|names|, i requires 0 <= i < |names| => DocSection(names[i].item, names[i].comment, DocKeys(KeysOf(st, names[i].item), st.multiKey)))
  }

  ghost function DocOf(st: Store): Doc {
    Doc(st.fileComment, DocSections(st))
  }

  // ------------------------------------------------------------------
  // The text of a document

  datatype Format = Format(multiLine: bool, spaces: bool)

  const SIGNATURE := "\U{EF}\U{BB}\U{BF}"
  const NEWLINE := "\n"
  const END_TAG := "SI-END-OF-MULTILINE-TEXT"

  /** The segments of a text between its newlines. */
  function SplitLines(text: string): (lines: seq<string>)
    ensures lines != []
    decreases |text|
  {
    var e := FirstOf(text, 0, {'\n'});
    if e == |text| then [text] else [text[..e]] + SplitLines(text[e+1..])
  }

  // Comments and multi-line values, written line by line
  function LinesText(text: string): string {
    if text == "" then "" else Unlines(SplitLines(text))
  }

  /** A value that cannot be written on its key's line: white space at an end, or a line break inside. */
  predicate IsMultiLineData(v: string) {
    v != "" && (IsSpace(v[0]) || IsSpace(v[|v|-1]) || exists i | 0 <= i < |v| :: IsNewLineChar(v[i]))
  }

  function ValueText(v: string, fmt: Format): string {
    if fmt.multiLine && IsMultiLineData(v) then "<<<" + END_TAG + NEWLINE + LinesText(v) + END_TAG else v
  }

  function CommentText(comment: Option<string>): string {
    if comment.Some? then NEWLINE + LinesText(comment.value) else ""
  }

  function PairText(key: string, v: DocValue, fmt: Format): string {
    CommentText(v.comment) + key + (if fmt.spaces then " = " else "=") + ValueText(v.value, fmt) + NEWLINE
  }

  function PairsText(key: string, vs: seq<DocValue>, fmt: Format): string
    decreases |vs|
  {
    if vs == [] then "" else PairsText(key, vs[..|vs|-1], fmt) + PairText(key, vs[|vs|-1], fmt)
  }

  function KeysText(ks: seq<DocKey>, fmt: Format): string
    decreases |ks|
  {
    if ks == [] then "" else KeysText(ks[..|ks|-1], fmt) + PairsText(ks[|ks|-1].name, ks[|ks|-1].values, fmt)
  }

  // What separates a section from what was written before it, its comment, and its '[' line
  function HeadText(s: DocSection, first: bool): string {
    (if first then "" else NEWLINE + NEWLINE)
    + (if s.comment.Some? then LinesText(s.comment.value) else "")
    + (if s.name == "" then "" else "[" + s.name + "]" + NEWLINE)
  }

  function SectionText(s: DocSection, first: bool, fmt: Format): string {
    HeadText(s, first) + KeysText(s.keys, fmt)
  }

  function SectionsText(ss: seq<DocSection>, first: bool, fmt: Format): string
    decreases |ss|
  {
    if ss == [] then ""
    else SectionsText(ss[..|ss|-1], first, fmt) + SectionText(ss[|ss|-1], first && |ss| == 1, fmt)
  }

  lemma SectionsNone(first: bool, fmt: Format)
    ensures SectionsText([], first, fmt) == ""
  {
  }

  lemma SectionsNext(ss: seq<DocSection>, n: nat, first: bool, fmt: Format)
    requires n < |ss|
    ensures SectionsText(ss[..n+1], first, fmt) == SectionsText(ss[..n], first, fmt) + SectionText(ss[n], first && n == 0, fmt)
  {
    assert ss[..n+1][..n] == ss[..n];
  }

  function DocText(doc: Doc, fmt: Format): string {
    (if doc.fileComment.Some? then LinesText(doc.fileComment.value) else "") + SectionsText(doc.sections, doc.fileComment.None?, fmt)
  }
}
