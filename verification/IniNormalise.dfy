/**
  Texts that were not printed by Save: whatever a text says, the store loaded
  from it can be saved and loaded again without change. The parser delivers no
  key name, no comment, and in single-line mode no value, that the printer could
  not write back.
*/
module IniNormalise {
  import opened Options
  import opened IniText
  import opened IniParse
  import opened IniStore
  import opened IniMultimap
  import opened IniView
  import opened IniShapes
  import opened IniComments
  import opened IniReparse
  import opened IniValues
  import opened IniRoundTrip

  // ------------------------------------------------------------------
  // What the parser delivers

  lemma PairKeyIsGood(t: string, s: nat, sec: SectionRef, comment: Option<string>, multiLine: bool)
    requires s < |t| && !IsSpace(t[s]) && !IsComment(t[s]) && t[s] != '[' && (sec.Unclosed? ==> sec.start <= s) && NUL !in t
    ensures var turn := KeyTurn(t, s, sec, comment, multiLine);
            turn.Yield? && turn.found.Pair? ==> GoodKeyName(turn.found.key) && (!multiLine ==> GoodValue(turn.found.value, false))
  {
    hide TrimEnd, FirstOf, ValueAt, Close;
    var e := FirstOf(t, s, KEY_STOPS);
    if e < |t| && t[e] == '=' && e != s {
      TrimmedStretch(t, s, e, KEY_STOPS);
      if !multiLine {
        LineValueIsGood(t, e + 1);
      }
    }
  }

  predicate CommentIsFine(comment: Option<string>) {
    comment.Some? ==> GoodComment(comment.value)
  }

  ghost predicate GoodFound(found: Found, multiLine: bool) {
    && (found.Header? ==> CommentIsFine(found.comment))
    && (found.Pair? ==> CommentIsFine(found.comment) && GoodKeyName(found.key) && (!multiLine ==> GoodValue(found.value, false)))
  }

  lemma TurnComment(t: string, s: nat, sec: SectionRef, comment: Option<string>, multiLine: bool)
    requires s < |t| && !IsSpace(t[s]) && (sec.Unclosed? ==> sec.start <= s) && NUL !in t && CommentIsFine(comment)
    ensures match TurnAt(t, s, sec, comment, multiLine)
            case Yield(found) => found.Header? || found.Pair? ==> found.comment == comment
            case Go(_, _, comment') => CommentIsFine(comment')
  {
    hide GoodComment, CommentBlock, Close, FirstOf, TrimEnd, ValueAt;
    if IsComment(t[s]) {
      CommentIsGood(t, s);
    }
  }

  lemma {:induction false} FoundIsGood(t: string, i: nat, sec: SectionRef, comment: Option<string>, multiLine: bool)
    requires i <= |t| && (sec.Unclosed? ==> sec.start <= i) && NUL !in t && CommentIsFine(comment)
    ensures GoodFound(Find(t, i, sec, comment, multiLine), multiLine)
    decreases |t| - i
  {
    hide CommentTurn, HeaderTurn, KeyTurn, GoodKeyName, GoodValue, SkipSpaces, GoodComment;
    var s := SkipSpaces(t, i);
    if s < |t| {
      TurnComment(t, s, sec, comment, multiLine);
      if !IsComment(t[s]) && t[s] != '[' {
        PairKeyIsGood(t, s, sec, comment, multiLine);
      }
      match TurnAt(t, s, sec, comment, multiLine) {
        case Yield(found) =>
        case Go(next, sec', comment') => FoundIsGood(t, next, sec', comment', multiLine);
      }
    }
  }

  ghost predicate GoodEntry(e: Entry, multiLine: bool) {
    && CommentIsFine(e.comment)
    && (e.pair.Some? ==> GoodKeyName(e.pair.value.0) && (!multiLine ==> GoodValue(e.pair.value.1, false)))
  }

  /** Every key and every comment that the parser finds in any text is one that the printer can write, and so is every value in single-line mode. */
  lemma {:induction false} EntriesAreGood(t: string, i: nat, section: string, multiLine: bool)
    requires i <= |t| && NUL !in t
    ensures forall e | e in Entries(t, i, section, multiLine) :: GoodEntry(e, multiLine)
    decreases |t| - i
  {
    hide Find, GoodKeyName, GoodValue, GoodComment;
    FoundIsGood(t, i, Unchanged, None, multiLine);
    match Find(t, i, Unchanged, None, multiLine) {
      case End =>
      case Header(name, comment, next) => EntriesAreGood(t, next, name, multiLine);
      case Pair(sec, key, value, comment, next) => EntriesAreGood(t, next, NameOf(sec, section), multiLine);
      case BodylessPair =>
    }
  }

  // ------------------------------------------------------------------
  // What the store keeps of it

  ghost predicate GoodKey(k: Key<string>, multiLine: bool) {
    GoodKeyName(k.name) && CommentIsFine(k.comment) && GoodValue(k.value, multiLine)
  }

  ghost predicate GoodKeys(keys: seq<Key<string>>, multiLine: bool) {
    forall k | k in keys :: GoodKey(k, multiLine)
  }

  // A name, and a comment only with a name
  predicate GoodHead(name: string, comment: Option<string>) {
    CommentIsFine(comment) && if name == "" then comment == None else GoodSectionName(name)
  }

  ghost predicate GoodSection(s: Section<string>, multiLine: bool) {
    GoodHead(s.name, s.comment) && GoodKeys(s.keys, multiLine)
  }

  ghost predicate GoodSections(sections: seq<Section<string>>, multiLine: bool) {
    forall s | s in sections :: GoodSection(s, multiLine)
  }

  // A section without a name has keys, and came before all named ones
  ghost predicate NamelessHasKeys(sections: seq<Section<string>>) {
    forall s | s in sections && s.name == "" :: s.keys != []
  }

  ghost predicate NamelessFirst(sections: seq<Section<string>>) {
    forall s, u | s in sections && u in sections && s.name == "" && u.name != "" :: s.order < u.order
  }

  ghost predicate OnlyNameless(sections: seq<Section<string>>) {
    forall s | s in sections :: s.name == ""
  }

  ghost predicate GoodStore(st: Store, multiLine: bool) {
    && Sorted(st) && OrdersOk(st) && (st.fileComment.Some? ==> GoodFileComment(st.fileComment.value))
    && GoodSections(st.sections, multiLine) && NamelessHasKeys(st.sections) && NamelessFirst(st.sections)
  }

  lemma InsertKeyElements(keys: seq<Key<string>>, key: Key<string>)
    ensures forall k | k in InsertKey(keys, key) :: k in keys || k == key
    ensures InsertKey(keys, key) != []
  {
    hide Upper, KeyNames;
  }

  lemma EraseKeysElements(keys: seq<Key<string>>, k: string)
    requires Ascending(KeyNames(keys))
    ensures forall x | x in EraseKeys(keys, k) :: x in keys
    ensures forall x | x in KeyGroup(keys, k) :: x in keys
  {
    hide Lower, Upper;
    Zones(KeyNames(keys), k);
  }

  lemma SetKeyGood(keys: seq<Key<string>>, k: string, v: string, comment: Option<string>, order: int, multiKey: bool,
                   force: bool, multiLine: bool)
    requires Ascending(KeyNames(keys)) && GoodKeys(keys, multiLine) && GoodKeyName(k) && GoodValue(v, multiLine) && CommentIsFine(comment)
    ensures var keys' := SetKey(keys, k, v, comment, order, multiKey, force); keys' != [] && GoodKeys(keys', multiLine)
  {
    hide InsertKey, EraseKeys, KeyGroup, Lower, Upper, NameLess, Ascending, GoodKeyName, GoodValue, GoodComment;
    if Has(KeyNames(keys), k) && multiKey && force {
      var eldest := Oldest(KeyGroup(keys, k));
      EraseKeysElements(keys, k);
      assert GoodKey(eldest, multiLine);
      InsertKeyElements(EraseKeys(keys, k), Key(k, if eldest.comment.Some? then eldest.comment else comment, eldest.order, v));
    } else if CreatesKey(keys, k, multiKey) {
      InsertKeyElements(keys, Key(k, comment, order, v));
    } else {
      var i := Lower(KeyNames(keys), k);
      assert GoodKey(keys[i], multiLine);
    }
  }

  // A new section keeps what is known of the others, and is itself the youngest
  lemma WithSectionGood(st: Store, s: string, comment: Option<string>, multiLine: bool)
    requires Sorted(st) && OrdersOk(st) && GoodSections(st.sections, multiLine) && NamelessFirst(st.sections)
    requires GoodHead(s, comment)
    requires s == "" ==> OnlyNameless(st.sections)
    ensures var sections := WithSection(st, s, comment).sections;
            && GoodSections(sections, multiLine) && NamelessFirst(sections)
            && (forall u | u in sections :: u in st.sections || (u.name == s && u.keys == []))
            && (s == "" ==> OnlyNameless(sections))
  {
    hide Sorted, OrdersOk, WithSection, GoodHead;
    forall u | u in st.sections
      ensures u.order <= st.order
    {
      var i :| 0 <= i < |st.sections| && st.sections[i] == u;
      OrderBelow(st, i);
    }
    WithSectionElements(st, s, comment);
  }

  lemma OrderBelow(st: Store, i: nat)
    requires OrdersOk(st) && i < |st.sections|
    ensures st.sections[i].order <= st.order
  {
    hide Orders, KeyOrders, SectionOrdersOk, Distinct;
    SectionOrderIn(st.sections, i);
  }

  lemma WithSectionElements(st: Store, s: string, comment: Option<string>)
    ensures forall u | u in WithSection(st, s, comment).sections :: u in st.sections || u == Section(s, comment, st.order + 1, [])
  {
    hide Lower, Has, SectionNames;
  }

  lemma OnePerName(st: Store, i: nat, j: nat)
    requires Sorted(st) && i < |st.sections| && j < |st.sections| && SameName(st.sections[i].name, st.sections[j].name)
    ensures i == j
  {
    hide NameLess, SameName;
    var ns := SectionNames(st.sections);
    NameTrichotomy(ns[i], ns[j]);
    SameNameSymmetric(ns[i], ns[j]);
    NameTrichotomy(ns[j], ns[i]);
  }

  lemma SameAsNothing(s: string)
    ensures SameName(s, "") <==> s == ""
    ensures SameName("", s) <==> s == ""
  {
  }

  // New keys for the section of a name
  lemma PutKeysGood(st: Store, s: string, i: nat, keys: seq<Key<string>>, multiLine: bool)
    requires Sorted(st) && i < |st.sections| && SameName(st.sections[i].name, s)
    requires GoodSections(st.sections, multiLine) && NamelessFirst(st.sections)
    requires keys != [] && GoodKeys(keys, multiLine)
    requires forall j | 0 <= j < |st.sections| && j != i && st.sections[j].name == "" :: st.sections[j].keys != []
    ensures var sections := st.sections[i := st.sections[i].(keys := keys)];
            && GoodSections(sections, multiLine) && NamelessFirst(sections) && NamelessHasKeys(sections)
            && (OnlyNameless(st.sections) ==> OnlyNameless(sections))
  {
    hide Sorted, GoodKeys, SameName, GoodSectionName;
    var sections := st.sections[i := st.sections[i].(keys := keys)];
    assert GoodSection(st.sections[i], multiLine);
    forall u | u in sections
      ensures exists w :: w in st.sections && w.name == u.name && w.order == u.order
    {
      var j :| 0 <= j < |sections| && sections[j] == u;
      assert st.sections[j] in st.sections;
    }
  }

  ghost predicate PlainEntry(e: Entry, multiLine: bool) {
    && CommentIsFine(e.comment)
    && (GoodSectionName(e.section) || (e.section == "" && e.pair.Some?))
    && (e.pair.Some? ==> GoodKeyName(e.pair.value.0) && GoodValue(e.pair.value.1, multiLine))
  }

  lemma NamedEmptySection(st: Store, s: string, comment: Option<string>, force: bool, multiLine: bool)
    requires GoodStore(st, multiLine) && GoodSectionName(s) && CommentIsFine(comment)
    ensures GoodStore(AddEntry(st, s, None, comment, force).0, multiLine)
  {
    hide Sorted, OrdersOk, GoodSections, NamelessFirst, WithSection, GoodSectionName, GoodComment, GoodFileComment;
    AddEntryKeepsOrders(st, s, None, comment, force);
    assert s != "" by { NameNotEmpty(s); }
    WithSectionGood(st, s, comment, multiLine);
    WithSectionFields(st, s, comment);
  }

  lemma NameNotEmpty(s: string)
    requires GoodSectionName(s)
    ensures s != ""
  {
  }

  lemma PairGood(st: Store, s: string, k: string, v: string, comment: Option<string>, force: bool, multiLine: bool)
    requires GoodStore(st, multiLine) && (s == "" || GoodSectionName(s)) && (s == "" ==> OnlyNameless(st.sections))
    requires GoodKeyName(k) && GoodValue(v, multiLine) && CommentIsFine(comment)
    ensures var st' := AddEntry(st, s, Some((k, v)), comment, force).0;
            GoodStore(st', multiLine) && (s == "" ==> OnlyNameless(st'.sections))
  {
    hide Sorted, OrdersOk, GoodSections, NamelessFirst, OnlyNameless, WithSection, GoodSectionName, GoodKeyName, GoodValue, SetKey, Lower, SameName, GoodKeys, GoodComment, GoodFileComment;
    AddEntryKeepsOrders(st, s, Some((k, v)), comment, force);
    WithSectionGood(st, s, None, multiLine);
    WithSectionFields(st, s, None);
    WithSectionSorted(st, s, None);
    var st1 := WithSection(st, s, None);
    var i := Lower(SectionNames(st1.sections), s);
    HasIsFound(st1, s);
    PlaceOfSection(st1, s);
    KeysSorted(st1, i);
    GoodAt(st1.sections, i, multiLine);
    SetKeyGood(st1.sections[i].keys, k, v, comment, st1.order + 1, st1.multiKey, force, multiLine);
    forall j | 0 <= j < |st1.sections| && j != i && st1.sections[j].name == ""
      ensures st1.sections[j].keys != []
    {
      OthersHaveKeys(st, st1, s, i, j);
    }
    PutKeysGood(st1, s, i, SetKey(st1.sections[i].keys, k, v, comment, st1.order + 1, st1.multiKey, force), multiLine);
  }

  lemma PlaceOfSection(st: Store, s: string)
    requires Sorted(st) && Has(SectionNames(st.sections), s)
    ensures var i := Lower(SectionNames(st.sections), s); i < |st.sections| && SameName(st.sections[i].name, s)
  {
    hide Lower, SameName, FindSection, StrictlyAscending, KeysAscending;
    CutAtSection(st.sections, s);
  }

  lemma GoodAt(sections: seq<Section<string>>, i: nat, multiLine: bool)
    requires i < |sections| && GoodSections(sections, multiLine)
    ensures GoodSection(sections[i], multiLine) && GoodKeys(sections[i].keys, multiLine)
  {
    hide GoodKeys;
  }

  lemma OthersHaveKeys(st: Store, st1: Store, s: string, i: nat, j: nat)
    requires NamelessHasKeys(st.sections) && Sorted(st1) && i < |st1.sections| && j < |st1.sections| && i != j
    requires SameName(st1.sections[i].name, s) && st1.sections[j].name == ""
    requires forall u | u in st1.sections :: u in st.sections || (u.name == s && u.keys == [])
    ensures st1.sections[j].keys != []
  {
    hide Sorted, SameName;
    var u := st1.sections[j];
    if u.name == s {
      SameNameSymmetric(st1.sections[i].name, s);
      OnePerName(st1, i, j);
    }
  }

  // A nameless entry is the first, or follows another nameless one
  ghost predicate NamelessLead(es: seq<Entry>) {
    forall i | 0 < i < |es| && es[i].section == "" :: es[i-1].section == ""
  }

  lemma {:induction false} AddAllGood(st: Store, es: seq<Entry>, multiLine: bool)
    requires GoodStore(st, multiLine) && NamelessLead(es)
    requires forall e | e in es :: PlainEntry(e, multiLine)
    requires es != [] && es[0].section == "" ==> OnlyNameless(st.sections)
    ensures GoodStore(AddAll(st, es), multiLine)
    decreases |es|
  {
    hide GoodSections, NamelessFirst, NamelessHasKeys, Sorted, OrdersOk, OnlyNameless, AddEntry, GoodSectionName, GoodKeyName, GoodValue, GoodComment, GoodFileComment;
    if es != [] {
      var e, rest := es[0], es[1..];
      assert PlainEntry(e, multiLine);
      if e.pair.Some? {
        PairGood(st, e.section, e.pair.value.0, e.pair.value.1, e.comment, false, multiLine);
      } else {
        NamedEmptySection(st, e.section, e.comment, false, multiLine);
        NameNotEmpty(e.section);
      }
      assert e.pair.Some? ==> e.pair == Some((e.pair.value.0, e.pair.value.1));
      assert forall i | 0 <= i < |rest| :: rest[i] == es[i + 1];
      AddAllGood(AddEntry(st, e.section, e.pair, e.comment, false).0, rest, multiLine);
    }
  }

  // ------------------------------------------------------------------
  // The document of such a store is plain

  lemma {:induction false} HeadIsKey(keys: seq<Key<string>>, h: nat) returns (n: nat)
    requires h < |Heads(keys)|
    ensures n < |keys| && Heads(keys)[h].item == keys[n].name
    decreases |keys|
  {
    hide NameLess;
    var m := |keys| - 1;
    if h < |Heads(keys[..m])| {
      n := HeadIsKey(keys[..m], h);
    } else {
      n := m;
    }
  }

  lemma {:induction false} MatchingIsIn(keys: seq<Key<string>>, k: string)
    ensures forall x | x in Matching(keys, k) :: x in keys
    decreases |keys|
  {
    hide SameName;
    if keys != [] {
      MatchingIsIn(keys[..|keys|-1], k);
      assert forall x | x in keys[..|keys|-1] :: x in keys;
    }
  }

  lemma DocKeyIsPlain(keys: seq<Key<string>>, i: nat, multiKey: bool, multiLine: bool)
    requires GoodKeys(keys, multiLine) && i < |DocKeys(keys, multiKey)|
    ensures PlainKey(DocKeys(keys, multiKey)[i], multiLine)
  {
    hide Heads, SortByOrder, Matching, GoodKeyName, GoodValue, GoodComment;
    var j := SortedIsFrom(Heads(keys), i);
    var n := HeadIsKey(keys, j);
    assert GoodKey(keys[n], multiLine);
    var name := SortByOrder(Heads(keys))[i].item;
    ListedKeyIsMatched(keys, i);
    MatchingIsIn(keys, name);
    var items := ValueItems(keys, name, multiKey);
    forall v | 0 <= v < |items|
      ensures CommentIsFine(items[v].comment) && GoodValue(items[v].item, multiLine)
    {
      assert GoodKey(Matching(keys, name)[v], multiLine);
    }
  }

  lemma SectionIsPlain(s: Section<string>, multiKey: bool, multiLine: bool)
    requires GoodSection(s, multiLine) && (s.name == "" ==> s.keys != []) && Ascending(KeyNames(s.keys))
    ensures PlainSection(DocSection(s.name, s.comment, DocKeys(s.keys, multiKey)), multiLine)
  {
    hide DocKeys, Ascending, PlainKey, GoodSectionName, SameName, GoodKeys, GoodComment;
    forall i | 0 <= i < |DocKeys(s.keys, multiKey)|
      ensures PlainKey(DocKeys(s.keys, multiKey)[i], multiLine)
    {
      DocKeyIsPlain(s.keys, i, multiKey, multiLine);
    }
    if s.keys != [] {
      SameNameSymmetric(s.keys[0].name, s.keys[0].name);
      MatchingHas(s.keys, 0, s.keys[0].name);
      var i := KeyIsListed(s.keys, s.keys[0].name, multiKey);
    }
  }

  lemma SectionListed(st: Store, i: nat) returns (j: nat)
    requires Sorted(st) && i < |DocSections(st)|
    ensures j < |st.sections|
    ensures var s := st.sections[j];
            && DocSections(st)[i] == DocSection(s.name, s.comment, DocKeys(s.keys, st.multiKey))
            && SortByOrder(SectionItems(st.sections))[i] == Item(s.name, s.comment, s.order)
  {
    hide SortByOrder, DocKeys, FindSection, Sorted;
    j := SortedIsFrom(SectionItems(st.sections), i);
    SectionIsFound(st, j);
  }

  // The nameless section is listed first
  lemma NamelessIsListedFirst(st: Store, i: nat)
    requires Sorted(st) && NamelessFirst(st.sections) && 0 < i < |DocSections(st)|
    ensures DocSections(st)[i].name != ""
  {
    hide SortByOrder, DocKeys, Sorted, SameName, SectionItems;
    var names := SortByOrder(SectionItems(st.sections));
    var j := SectionListed(st, i);
    var j0 := SectionListed(st, 0);
    SortByOrderSorts(SectionItems(st.sections));
    SectionItemsApart(st);
    SortNamesApart(SectionItems(st.sections));
    assert names[0].order <= names[i].order && !SameName(names[0].item, names[i].item);
    SameAsNothing(names[0].item);
    assert st.sections[j] in st.sections && st.sections[j0] in st.sections;
  }

  lemma GoodStoreShowsPlain(st: Store, multiLine: bool)
    requires GoodStore(st, multiLine)
    ensures PlainDoc(DocOf(st), multiLine)
  {
    hide Sorted, OrdersOk, DocSections, GoodSections, NamelessFirst, PlainSection, DocKeys, GoodFileComment;
    forall i | 0 <= i < |DocSections(st)|
      ensures PlainSection(DocSections(st)[i], multiLine) && (0 < i ==> DocSections(st)[i].name != "")
    {
      var j := SectionListed(st, i);
      GoodAt(st.sections, j, multiLine);
      KeysSorted(st, j);
      assert st.sections[j] in st.sections;
      SectionIsPlain(st.sections[j], st.multiKey, multiLine);
      if 0 < i {
        NamelessIsListedFirst(st, i);
      }
    }
  }

  // ------------------------------------------------------------------
  // Any text

  /**
    A text whose '[' lines are closed and name something, and whose values the
    format can carry; nameless entries can only lead. In single-line mode every
    value qualifies, and every key and every comment does in any case.
  */
  ghost predicate PlainText(t: string, multiLine: bool) {
    && NUL !in t && Clean(t, CommentBlock(t, 0, false).next, multiLine)
    && var es := Entries(t, CommentBlock(t, 0, false).next, "", multiLine);
       && NamelessLead(es)
       && (forall e | e in es ::
             && (GoodSectionName(e.section) || (e.section == "" && e.pair.Some?))
             && (multiLine && e.pair.Some? ==> GoodValue(e.pair.value.1, true)))
  }

  lemma PlainEntriesOf(t: string, multiLine: bool)
    requires PlainText(t, multiLine)
    ensures forall e | e in Entries(t, CommentBlock(t, 0, false).next, "", multiLine) :: PlainEntry(e, multiLine)
  {
    hide Entries, CommentBlock, Clean, GoodSectionName, GoodKeyName, GoodValue, GoodComment;
    EntriesAreGood(t, CommentBlock(t, 0, false).next, "", multiLine);
  }

  // The store that the entries are added to
  lemma BlankIsGood(t: string, order: int, multiKey: bool, multiLine: bool)
    requires NUL !in t
    ensures var st := WithFileComment(Store([], None, order, multiKey), t);
            GoodStore(st, multiLine) && OnlyNameless(st.sections) && st.multiKey == multiKey
  {
    hide CommentBlock, Join, GoodFileComment;
    var st := WithFileComment(Store([], None, order, multiKey), t);
    EmptyShows(st.fileComment, order, multiKey);
    if CommentBlock(t, 0, false).lines != [] {
      FileCommentIsGood(t);
    }
  }

  /** What is loaded from such a text into an empty store shows a document that can be printed and read back. */
  lemma LoadedTextIsPlain(t: string, order: int, multiKey: bool, multiLine: bool)
    requires PlainText(t, multiLine)
    ensures PlainDoc(DocOf(LoadText(Store([], None, order, multiKey), t, multiLine)), multiLine)
  {
    hide GoodStore, OnlyNameless, AddAll, Entries, Clean, CommentBlock, PlainEntry, GoodSectionName, GoodValue, PlainDoc, DocOf;
    var blank := Store([], None, order, multiKey);
    BlankIsGood(t, order, multiKey, multiLine);
    PlainEntriesOf(t, multiLine);
    GoodIsSorted(WithFileComment(blank, t), multiLine);
    AddAllGood(WithFileComment(blank, t), Entries(t, CommentBlock(t, 0, false).next, "", multiLine), multiLine);
    GoodStoreShowsPlain(LoadText(blank, t, multiLine), multiLine);
  }

  lemma GoodIsSorted(st: Store, multiLine: bool)
    requires GoodStore(st, multiLine)
    ensures Sorted(st)
  {
  }

  /**
    Whatever such a text looks like, saving what was loaded from it gives a text
    that loads to the document it becomes, and from then on to the same document
    and the same text again.
  */
  lemma EveryTextNormalises(t: string, fmt: Format, order: int, order': int, multiKey: bool)
    requires PlainText(t, fmt.multiLine)
    ensures var st := LoadText(Store([], None, order, multiKey), t, fmt.multiLine);
            var text := DocText(DocOf(st), fmt);
            var blank := Store([], None, order', multiKey);
            var st' := LoadText(blank, Effective(text), fmt.multiLine);
            && Clean(Effective(text), EntriesStart(blank, Effective(text)), fmt.multiLine)
            && DocOf(st') == Reloaded(DocOf(st))
            && (DocOf(st') == DocOf(st) <==> !CommentLeads(DocOf(st)))
            && DocOf(LoadText(blank, Effective(DocText(DocOf(st'), fmt)), fmt.multiLine)) == DocOf(st')
  {
    hide *;
    var blank := Store([], None, order, multiKey);
    BlankIsSorted(order, multiKey);
    var st := LoadText(blank, t, fmt.multiLine);
    LoadedTextIsPlain(t, order, multiKey, fmt.multiLine);
    LoadedIsSorted(blank, t, fmt.multiLine);
    SaveLoadSave(st, fmt, order');
    BlankIsSorted(order', multiKey);
    var blank' := Store([], None, order', multiKey);
    var text := Effective(DocText(DocOf(st), fmt));
    LoadedIsSorted(blank', text, fmt.multiLine);
    ReloadedIsPlain(DocOf(st), fmt.multiLine);
    SaveLoadSave(LoadText(blank', text, fmt.multiLine), fmt, order');
  }

  lemma BlankIsSorted(order: int, multiKey: bool)
    ensures Sorted(Store([], None, order, multiKey))
  {
  }

  lemma LoadedIsSorted(st: Store, t: string, multiLine: bool)
    requires Sorted(st)
    ensures Sorted(LoadText(st, t, multiLine)) && LoadText(st, t, multiLine).multiKey == st.multiKey
  {
    hide AddAll, Entries, CommentBlock, Join;
    FileCommentStays(WithFileComment(st, t), Entries(t, EntriesStart(st, t), "", multiLine));
  }
}
