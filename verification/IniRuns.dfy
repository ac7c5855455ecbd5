/**
  Runs of the INI store: what every sequence of loads, writes, deletions and
  resets keeps, and what a saved text brings back.
*/
module IniRuns {
  import opened Options
  import opened IniText
  import opened IniParse
  import opened IniStore
  import opened IniMultimap
  import opened IniView
  import opened IniShapes
  import opened IniComments
  import opened IniReparse
  import opened IniRoundTrip
  import opened IniNormalise
  import Ini

  // The public operations that change the store; Load is given the data and two settings
  datatype Op =
    | SetValue(section: string, pair: Option<(string, string)>, comment: Option<string>, force: bool)
    | Delete(section: string, key: Option<string>, removeEmpty: bool)
    | Load(data: string, isUtf8: bool, multiLine: bool)
    | SetMultiKey(allow: bool)
    | Reset

  // The text that a Load parses
  function TextOf(data: string, isUtf8: bool): (t: string)
    ensures NUL !in t
  {
    Effective(Ini.Payload(data, isUtf8))
  }

  /** Load is modelled for texts without a block that its end tag follows at once; the other operations take anything. */
  ghost predicate Accepts(st: Store, op: Op) {
    op.Load? ==> var t := TextOf(op.data, op.isUtf8); Clean(t, EntriesStart(st, t), op.multiLine)
  }

  ghost function Apply(st: Store, op: Op): Store
    requires Sorted(st)
  {
    match op
    case SetValue(section, pair, comment, force) => IniStore.AddEntry(st, section, pair, comment, force).0
    case Delete(section, key, removeEmpty) => IniStore.Delete(st, section, key, removeEmpty).0
    case Load(data, isUtf8, multiLine) => if data == "" then st else LoadText(st, TextOf(data, isUtf8), multiLine)
    case SetMultiKey(allow) => st.(multiKey := allow)
    case Reset => Store([], None, st.order, st.multiKey)
  }

  ghost predicate InOrder(st: Store) {
    Sorted(st) && OrdersOk(st)
  }

  lemma {:induction false} AddAllKeepsOrders(st: Store, es: seq<Entry>)
    requires InOrder(st)
    ensures InOrder(AddAll(st, es)) && st.order <= AddAll(st, es).order && AddAll(st, es).multiKey == st.multiKey
    decreases |es|
  {
    hide Sorted, OrdersOk, AddEntry;
    if es != [] {
      var e := es[0];
      AddEntryKeepsOrders(st, e.section, e.pair, e.comment, false);
      AddEntryCounts(st, e.section, e.pair, e.comment, false);
      AddAllKeepsOrders(AddEntry(st, e.section, e.pair, e.comment, false).0, es[1..]);
    }
  }

  lemma AddEntryCounts(st: Store, s: string, pair: Option<(string, string)>, comment: Option<string>, force: bool)
    requires Sorted(st)
    ensures var st' := AddEntry(st, s, pair, comment, force).0; st.order <= st'.order && st'.multiKey == st.multiKey
  {
    hide SetKey, Lower, NameLess;
    WithSectionSorted(st, s, None);
  }

  lemma FileCommentKeepsOrders(st: Store, comment: Option<string>, multiKey: bool)
    requires InOrder(st)
    ensures InOrder(st.(fileComment := comment)) && InOrder(st.(multiKey := multiKey))
  {
    hide Orders, SectionOrdersOk, Distinct;
  }

  lemma ApplyKeepsOrders(st: Store, op: Op)
    requires InOrder(st)
    ensures InOrder(Apply(st, op)) && st.order <= Apply(st, op).order
  {
    hide Sorted, OrdersOk, AddEntry, IniStore.Delete, AddAll, Entries, TextOf;
    match op {
      case SetValue(section, pair, comment, force) =>
        AddEntryKeepsOrders(st, section, pair, comment, force);
        AddEntryCounts(st, section, pair, comment, force);
      case Delete(section, key, removeEmpty) =>
        DeleteKeepsOrders(st, section, key, removeEmpty);
        DeleteCounts(st, section, key, removeEmpty);
      case Load(data, isUtf8, multiLine) =>
        var text := TextOf(data, isUtf8);
        var st1 := WithFileComment(st, text);
        FileCommentKeepsOrders(st, st1.fileComment, st.multiKey);
        AddAllKeepsOrders(st1, Entries(text, EntriesStart(st, text), "", multiLine));
      case SetMultiKey(allow) =>
        FileCommentKeepsOrders(st, st.fileComment, allow);
      case Reset =>
        NothingInOrder(st.order, st.multiKey);
    }
  }

  lemma DeleteCounts(st: Store, s: string, key: Option<string>, removeEmpty: bool)
    requires Sorted(st)
    ensures var st' := IniStore.Delete(st, s, key, removeEmpty).0; st'.order == st.order && st'.multiKey == st.multiKey
  {
    hide EraseKeys, Lower, NameLess;
  }

  lemma NothingInOrder(order: int, multiKey: bool)
    ensures InOrder(Store([], None, order, multiKey))
  {
    EmptyShows(None, order, multiKey);
  }

  /** A run of operations, as long as all are accepted. */
  ghost function Run(st: Store, ops: seq<Op>): Option<Store>
    requires InOrder(st)
    decreases |ops|
  {
    if ops == [] then Some(st)
    else if !Accepts(st, ops[0]) then None
    else
      ApplyKeepsOrders(st, ops[0]);
      Run(Apply(st, ops[0]), ops[1..])
  }

  /**
    After any run the tables are sorted, live order numbers are distinct and at
    most the counter, each section's number is below its keys', numbers increase
    inside each key, and the counter has not gone back.
  */
  lemma {:induction false} RunKeepsOrders(st: Store, ops: seq<Op>, st': Store)
    requires InOrder(st) && Run(st, ops) == Some(st')
    ensures InOrder(st') && st.order <= st'.order
    decreases |ops|
  {
    hide Sorted, OrdersOk, Apply, Accepts;
    if ops != [] {
      ApplyKeepsOrders(st, ops[0]);
      RunKeepsOrders(Apply(st, ops[0]), ops[1..], st');
    }
  }

  // ------------------------------------------------------------------
  // Single keys stay single

  ghost predicate SingleKeys(st: Store) {
    forall s, k :: |Values(st, s, k)| <= 1
  }

  lemma AddEntryKeepsSingle(st: Store, s: string, pair: Option<(string, string)>, comment: Option<string>, force: bool)
    requires Sorted(st) && SingleKeys(st) && !st.multiKey
    ensures SingleKeys(AddEntry(st, s, pair, comment, force).0)
  {
    hide Sorted, AddEntry, Values, SameName, HasSection;
    var st' := AddEntry(st, s, pair, comment, force).0;
    forall s', k'
      ensures |Values(st', s', k')| <= 1
    {
      AddEntryIsMultimapWrite(st, s, pair, comment, force, s', k');
    }
  }

  lemma {:induction false} AddAllKeepsSingle(st: Store, es: seq<Entry>)
    requires Sorted(st) && SingleKeys(st) && !st.multiKey
    ensures SingleKeys(AddAll(st, es)) && !AddAll(st, es).multiKey
    decreases |es|
  {
    hide Sorted, AddEntry, SingleKeys;
    if es != [] {
      var e := es[0];
      AddEntrySorted(st, e.section, e.pair, e.comment, false);
      AddEntryKeepsSingle(st, e.section, e.pair, e.comment, false);
      AddEntryCounts(st, e.section, e.pair, e.comment, false);
      AddAllKeepsSingle(AddEntry(st, e.section, e.pair, e.comment, false).0, es[1..]);
    }
  }

  lemma DeleteKeepsSingle(st: Store, s: string, key: Option<string>, removeEmpty: bool)
    requires Sorted(st) && SingleKeys(st)
    ensures SingleKeys(IniStore.Delete(st, s, key, removeEmpty).0)
  {
    hide Sorted, IniStore.Delete, Values, SameName, HasSection, OnlyKey, SameHead;
    var st' := IniStore.Delete(st, s, key, removeEmpty).0;
    forall s', k'
      ensures |Values(st', s', k')| <= 1
    {
      DeleteIsMultimapErase(st, s, key, removeEmpty, s', k');
    }
  }

  lemma ApplyKeepsSingle(st: Store, op: Op)
    requires Sorted(st) && SingleKeys(st) && !st.multiKey && !(op.SetMultiKey? && op.allow)
    ensures SingleKeys(Apply(st, op)) && !Apply(st, op).multiKey
  {
    hide Sorted, AddEntry, IniStore.Delete, AddAll, Entries, SingleKeys, TextOf;
    match op {
      case SetValue(section, pair, comment, force) =>
        AddEntryKeepsSingle(st, section, pair, comment, force);
        AddEntryCounts(st, section, pair, comment, force);
      case Delete(section, key, removeEmpty) =>
        DeleteKeepsSingle(st, section, key, removeEmpty);
        DeleteCounts(st, section, key, removeEmpty);
      case Load(data, isUtf8, multiLine) =>
        var text := TextOf(data, isUtf8);
        var st1 := WithFileComment(st, text);
        OtherFieldsKeepSingle(st, st1);
        AddAllKeepsSingle(st1, Entries(text, EntriesStart(st, text), "", multiLine));
      case SetMultiKey(allow) =>
        OtherFieldsKeepSingle(st, st.(multiKey := allow));
      case Reset =>
        EmptyIsSingle(st.order, st.multiKey);
    }
  }

  lemma OtherFieldsKeepSingle(st: Store, st': Store)
    requires SingleKeys(st) && st'.sections == st.sections
    ensures SingleKeys(st') && (Sorted(st) ==> Sorted(st'))
  {
    forall s, k
      ensures Values(st', s, k) == Values(st, s, k)
    {
    }
  }

  lemma EmptyIsSingle(order: int, multiKey: bool)
    ensures SingleKeys(Store([], None, order, multiKey))
  {
  }

  /** A store that never allows multiple keys holds at most one entry of each key, in any spelling, after any run. */
  lemma {:induction false} RunKeepsSingle(st: Store, ops: seq<Op>, st': Store)
    requires InOrder(st) && SingleKeys(st) && !st.multiKey && Run(st, ops) == Some(st')
    requires forall i | 0 <= i < |ops| :: !(ops[i].SetMultiKey? && ops[i].allow)
    ensures SingleKeys(st')
    decreases |ops|
  {
    hide Sorted, OrdersOk, Apply, SingleKeys, Accepts;
    if ops != [] {
      ApplyKeepsOrders(st, ops[0]);
      ApplyKeepsSingle(st, ops[0]);
      RunKeepsSingle(Apply(st, ops[0]), ops[1..], st');
    }
  }

  // ------------------------------------------------------------------
  // Which value of a key is shown

  /** With single keys, a value that is set is the one shown, and no other key shows anything else than before. */
  lemma SetValueIsShown(st: Store, s: string, k: string, v: string, comment: Option<string>, force: bool, s': string, k': string)
    requires Sorted(st) && !st.multiKey
    ensures Shown(AddEntry(st, s, Some((k, v)), comment, force).0, s', k')
         == if SameName(s, s') && SameName(k, k') then Some(v) else Shown(st, s', k')
  {
    hide Sorted, AddEntry, Values, SameName, HasSection;
    AddEntryIsMultimapWrite(st, s, Some((k, v)), comment, force, s', k');
  }

  // The value that a list of entries gives a key last
  function LastWritten(es: seq<Entry>, s: string, k: string): Option<string>
    decreases |es|
  {
    if es == [] then None
    else
      var e := es[|es|-1];
      if e.pair.Some? && SameName(e.section, s) && SameName(e.pair.value.0, k) then Some(e.pair.value.1)
      else LastWritten(es[..|es|-1], s, k)
  }

  /** Loading with single keys shows, for every key, the last value in the text, or else the one there was. */
  lemma {:induction false} LastValueWins(st: Store, es: seq<Entry>, s: string, k: string)
    requires Sorted(st) && !st.multiKey
    ensures Shown(AddAll(st, es), s, k) == if LastWritten(es, s, k).Some? then LastWritten(es, s, k) else Shown(st, s, k)
    decreases |es|
  {
    hide Sorted, AddEntry, AddAll, Shown, SameName;
    if es == [] {
      AddNothing(st);
    } else {
      var n := |es| - 1;
      var p, e := es[..n], es[n];
      assert es == p + [e];
      LastValueWins(st, p, s, k);
      AddOne(st, p, e);
      FileCommentStays(st, p);
      EntryIsShown(AddAll(st, p), e, s, k);
    }
  }

  lemma EntryIsShown(st: Store, e: Entry, s: string, k: string)
    requires Sorted(st) && !st.multiKey
    ensures Shown(AddEntry(st, e.section, e.pair, e.comment, false).0, s, k)
         == if e.pair.Some? && SameName(e.section, s) && SameName(e.pair.value.0, k) then Some(e.pair.value.1) else Shown(st, s, k)
  {
    hide Sorted, AddEntry, Values, SameName, HasSection;
    AddEntryIsMultimapWrite(st, e.section, e.pair, e.comment, false, s, k);
  }

  lemma ValuesIncrease(st: Store, s: string, k: string)
    requires InOrder(st)
    ensures Increasing(Values(st, s, k))
  {
    hide Orders, KeyOrders, Distinct, Increasing, Matching, Lower, FindSection;
    HasIsFound(st, s);
    if !HasSection(st, s) {
      NothingIncreases();
    }
  }

  lemma NothingIncreases()
    ensures Increasing([])
  {
  }

  /**
    Switching multiple keys off shows the youngest of several values exactly
    when the first one, which is shown, is the same as the last.
  */
  lemma SwitchingOffShowsYoungestIff(st: Store, s: string, k: string, youngest: Key<string>)
    requires InOrder(st) && youngest in Values(st, s, k) && forall x | x in Values(st, s, k) :: x.order <= youngest.order
    ensures var g := Values(st, s, k);
            Shown(Apply(st, SetMultiKey(false)), s, k) == Some(youngest.value) <==> g[0].value == g[|g|-1].value
  {
    hide Sorted, OrdersOk, Matching, FindSection;
    ValuesIncrease(st, s, k);
    var g := Values(st, s, k);
    var i :| 0 <= i < |g| && g[i] == youngest;
    assert g[|g|-1] in g;
    assert i == |g| - 1;
  }

  /** A fresh store. */
  ghost function Fresh(multiKey: bool): (r: Store)
    ensures InOrder(r)
  {
    NothingInOrder(0, multiKey);
    Store([], None, 0, multiKey)
  }

  lemma RunStep(st: Store, op: Op, ops: seq<Op>)
    requires InOrder(st) && Accepts(st, op)
    ensures InOrder(Apply(st, op)) && Run(st, [op] + ops) == Run(Apply(st, op), ops)
  {
    hide InOrder, Apply, Accepts;
    ApplyKeepsOrders(st, op);
    assert ([op] + ops)[1..] == ops;
  }

  lemma FirstValue(st: Store, s: string, k: string, v: string)
    requires InOrder(st) && Values(st, s, k) == [] && st.multiKey
    ensures var st' := AddEntry(st, s, Some((k, v)), None, false).0;
            |Values(st', s, k)| == 1 && Values(st', s, k)[0].value == v && st'.multiKey
  {
    hide Sorted, OrdersOk, AddEntry, Values, SameName, HasSection;
    AddEntryIsMultimapWrite(st, s, Some((k, v)), None, false, s, k);
    AddEntryCounts(st, s, Some((k, v)), None, false);
    SameNameSymmetric(s, s);
    SameNameSymmetric(k, k);
  }

  lemma NextValue(st: Store, s: string, k: string, v: string)
    requires InOrder(st) && Values(st, s, k) != [] && st.multiKey
    ensures var st' := AddEntry(st, s, Some((k, v)), None, false).0;
            Values(st', s, k) != [] && Values(st', s, k)[0] == Values(st, s, k)[0]
  {
    hide Sorted, OrdersOk, AddEntry, Values, SameName, HasSection;
    AddEntryIsMultimapWrite(st, s, Some((k, v)), None, false, s, k);
    SameNameSymmetric(s, s);
    SameNameSymmetric(k, k);
  }

  /** Of two values stored while keys may repeat, the first is shown once they may not: the last one does not win. */
  lemma SwitchingOffShowsFirst(s: string, k: string, first: string, second: string)
    ensures var ops := [SetValue(s, Some((k, first)), None, false), SetValue(s, Some((k, second)), None, false), SetMultiKey(false)];
            var r := Run(Fresh(true), ops);
            r.Some? && !r.value.multiKey && Shown(r.value, s, k) == Some(first)
  {
    hide Sorted, OrdersOk, AddEntry, Matching, FindSection;
    var a, b, c := SetValue(s, Some((k, first)), None, false), SetValue(s, Some((k, second)), None, false), SetMultiKey(false);
    var st0 := Fresh(true);
    RunStep(st0, a, [b, c]);
    var st1 := Apply(st0, a);
    RunStep(st1, b, [c]);
    var st2 := Apply(st1, b);
    RunStep(st2, c, []);
    assert [a] + [b, c] == [a, b, c] && [b] + [c] == [b, c] && [c] + [] == [c];
    NothingFound(s, k);
    FirstValue(st0, s, k, first);
    NextValue(st1, s, k, second);
  }

  lemma NothingFound(s: string, k: string)
    ensures Values(Fresh(true), s, k) == []
  {
  }

  // ------------------------------------------------------------------
  // Runs that only use names, values and comments which the format can carry

  // Every entry of the text from i on has a section with a proper name, and a value that the format can carry
  ghost predicate Carriable(t: string, i: nat, multiLine: bool, asMultiLine: bool)
    requires i <= |t|
  {
    forall e | e in Entries(t, i, "", multiLine) ::
      GoodSectionName(e.section) && (e.pair.Some? ==> GoodValue(e.pair.value.1, asMultiLine))
  }

  /** Written names, values and comments have the shapes that can be printed; keys and comments that are loaded do anyway. */
  ghost predicate GoodOp(op: Op, multiLine: bool) {
    match op
    case SetValue(section, pair, comment, force) =>
      && GoodSectionName(section) && CommentIsFine(comment)
      && (pair.Some? ==> GoodKeyName(pair.value.0) && GoodValue(pair.value.1, multiLine))
    case Load(data, isUtf8, mode) =>
      var t := TextOf(data, isUtf8);
      Carriable(t, 0, mode, multiLine) && Carriable(t, CommentBlock(t, 0, false).next, mode, multiLine)
    case _ => true
  }

  ghost predicate AllNamed(sections: seq<Section<string>>) {
    forall u | u in sections :: u.name != ""
  }

  /** All sections have names, and everything in the store can be printed. */
  ghost predicate NamedStore(st: Store, multiLine: bool) {
    GoodStore(st, multiLine) && AllNamed(st.sections)
  }

  lemma AddEntryNamed(st: Store, s: string, pair: Option<(string, string)>, comment: Option<string>, force: bool)
    requires Sorted(st) && AllNamed(st.sections) && s != ""
    ensures AllNamed(AddEntry(st, s, pair, comment, force).0.sections)
  {
    hide Sorted, WithSection, Lower, SetKey;
    var c := if pair.Some? then None else comment;
    WithSectionElements(st, s, c);
    WithSectionSorted(st, s, c);
    assert AllNamed(WithSection(st, s, c).sections);
  }

  lemma AddEntryGood(st: Store, s: string, pair: Option<(string, string)>, comment: Option<string>, force: bool, multiLine: bool)
    requires NamedStore(st, multiLine) && GoodSectionName(s) && CommentIsFine(comment)
    requires pair.Some? ==> GoodKeyName(pair.value.0) && GoodValue(pair.value.1, multiLine)
    ensures NamedStore(AddEntry(st, s, pair, comment, force).0, multiLine)
  {
    hide GoodStore, AddEntry, GoodSectionName, GoodKeyName, GoodValue, GoodComment, AllNamed;
    NameNotEmpty(s);
    GoodIsSorted(st, multiLine);
    AddEntryNamed(st, s, pair, comment, force);
    match pair {
      case None => NamedEmptySection(st, s, comment, force, multiLine);
      case Some((k, v)) => PairGood(st, s, k, v, comment, force, multiLine);
    }
  }

  lemma {:induction false} AddAllNamed(st: Store, es: seq<Entry>, multiLine: bool)
    requires NamedStore(st, multiLine)
    requires forall e | e in es :: GoodEntry(e, true) && GoodSectionName(e.section) && (e.pair.Some? ==> GoodValue(e.pair.value.1, multiLine))
    ensures Sorted(st) && NamedStore(AddAll(st, es), multiLine)
    decreases |es|
  {
    hide NamedStore, AddEntry, GoodSectionName, GoodKeyName, GoodValue, GoodComment;
    NamedIsSorted(st, multiLine);
    if es != [] {
      var e := es[0];
      AddEntryGood(st, e.section, e.pair, e.comment, false, multiLine);
      AddAllNamed(AddEntry(st, e.section, e.pair, e.comment, false).0, es[1..], multiLine);
    }
  }

  lemma NamedIsSorted(st: Store, multiLine: bool)
    requires NamedStore(st, multiLine)
    ensures Sorted(st) && InOrder(st)
  {
  }

  // What is left of a section after Delete
  ghost predicate PartOf(u: Section<string>, w: Section<string>) {
    u.name == w.name && u.comment == w.comment && forall k | k in u.keys :: k in w.keys
  }

  lemma DeleteElements(st: Store, s: string, key: Option<string>, removeEmpty: bool)
    requires Sorted(st)
    ensures var st' := IniStore.Delete(st, s, key, removeEmpty).0;
            && (forall u | u in st'.sections :: exists w :: w in st.sections && PartOf(u, w))
            && st'.fileComment == st.fileComment
  {
    hide Sorted, Lower, EraseKeys, NameLess;
    var st' := IniStore.Delete(st, s, key, removeEmpty).0;
    var i := Lower(SectionNames(st.sections), s);
    if Has(SectionNames(st.sections), s) && key.Some? {
      KeysSorted(st, i);
      EraseKeysElements(st.sections[i].keys, key.value);
    }
    forall u | u in st'.sections
      ensures exists w :: w in st.sections && PartOf(u, w)
    {
      if u !in st.sections {
        assert PartOf(u, st.sections[i]);
      } else {
        assert PartOf(u, u);
      }
    }
  }

  lemma DeleteNamed(st: Store, s: string, key: Option<string>, removeEmpty: bool, multiLine: bool)
    requires NamedStore(st, multiLine)
    ensures NamedStore(IniStore.Delete(st, s, key, removeEmpty).0, multiLine)
  {
    hide Sorted, OrdersOk, IniStore.Delete, GoodKey, GoodHead, GoodFileComment;
    DeleteElements(st, s, key, removeEmpty);
    DeleteKeepsOrders(st, s, key, removeEmpty);
  }

  lemma FileCommentNamed(st: Store, t: string, multiLine: bool)
    requires NamedStore(st, multiLine) && NUL !in t
    ensures NamedStore(WithFileComment(st, t), multiLine)
  {
    hide Sorted, OrdersOk, CommentBlock, Join, GoodFileComment, GoodSections, NamelessFirst, NamelessHasKeys, AllNamed;
    var st1 := WithFileComment(st, t);
    FileCommentKeepsOrders(st, st1.fileComment, st.multiKey);
    if CommentBlock(t, 0, false).lines != [] {
      FileCommentIsGood(t);
    }
  }

  lemma LoadNamed(st: Store, t: string, multiLine: bool, asMultiLine: bool)
    requires NamedStore(st, asMultiLine) && NUL !in t
    requires Carriable(t, 0, multiLine, asMultiLine) && Carriable(t, CommentBlock(t, 0, false).next, multiLine, asMultiLine)
    ensures Sorted(st) && NamedStore(LoadText(st, t, multiLine), asMultiLine)
  {
    hide NamedStore, AddAll, Entries, CommentBlock, GoodSectionName, GoodKeyName, GoodValue, GoodComment;
    NamedIsSorted(st, asMultiLine);
    var st1, es := WithFileComment(st, t), Entries(t, EntriesStart(st, t), "", multiLine);
    FileCommentNamed(st, t, asMultiLine);
    EntriesAreGood(t, EntriesStart(st, t), "", multiLine);
    AddAllNamed(st1, es, asMultiLine);
  }

  lemma ApplyKeepsNamed(st: Store, op: Op, multiLine: bool)
    requires NamedStore(st, multiLine) && GoodOp(op, multiLine)
    ensures InOrder(st) && NamedStore(Apply(st, op), multiLine)
  {
    hide NamedStore, InOrder, AddEntry, IniStore.Delete, LoadText, TextOf, GoodSectionName, GoodKeyName, GoodValue, GoodComment;
    NamedIsSorted(st, multiLine);
    match op {
      case SetValue(section, pair, comment, force) => AddEntryGood(st, section, pair, comment, force, multiLine);
      case Delete(section, key, removeEmpty) => DeleteNamed(st, section, key, removeEmpty, multiLine);
      case Load(data, isUtf8, mode) => LoadNamed(st, TextOf(data, isUtf8), mode, multiLine);
      case SetMultiKey(allow) => ModeNamed(st, allow, multiLine);
      case Reset => NothingNamed(st.order, st.multiKey, multiLine);
    }
  }

  lemma ModeNamed(st: Store, multiKey: bool, multiLine: bool)
    requires NamedStore(st, multiLine)
    ensures NamedStore(st.(multiKey := multiKey), multiLine)
  {
    FileCommentKeepsOrders(st, st.fileComment, multiKey);
  }

  lemma NothingNamed(order: int, multiKey: bool, multiLine: bool)
    ensures NamedStore(Store([], None, order, multiKey), multiLine)
  {
    NothingInOrder(order, multiKey);
  }

  /** A run of such operations leaves a store whose document can be printed and read back. */
  lemma {:induction false} GoodRunKeepsNamed(st: Store, ops: seq<Op>, st': Store, multiLine: bool)
    requires NamedStore(st, multiLine) && (forall i | 0 <= i < |ops| :: GoodOp(ops[i], multiLine))
    requires InOrder(st) && Run(st, ops) == Some(st')
    ensures NamedStore(st', multiLine)
    decreases |ops|
  {
    hide NamedStore, Sorted, OrdersOk, Apply, Accepts, GoodOp;
    if ops != [] {
      ApplyKeepsNamed(st, ops[0], multiLine);
      ApplyKeepsOrders(st, ops[0]);
      GoodRunKeepsNamed(Apply(st, ops[0]), ops[1..], st', multiLine);
    }
  }

  // ------------------------------------------------------------------
  // The saved text, with or without its signature

  ghost function SavedText(st: Store, fmt: Format, isUtf8: bool, addSignature: bool): string {
    (if isUtf8 && addSignature then SIGNATURE else "") + DocText(DocOf(st), fmt)
  }

  /** Load sees the text that Save printed, unless Save left the signature out and the first name reads like one. */
  lemma PayloadIsSavedText(st: Store, fmt: Format, isUtf8: bool, addSignature: bool)
    ensures Ini.Payload(SavedText(st, fmt, isUtf8, addSignature), isUtf8) == DocText(DocOf(st), fmt)
       <==> !(isUtf8 && !addSignature && SIGNATURE <= DocText(DocOf(st), fmt))
  {
    hide DocText, DocOf;
    var text := SavedText(st, fmt, isUtf8, addSignature);
    if isUtf8 && addSignature {
      assert text[3..] == DocText(DocOf(st), fmt);
    }
  }

  lemma SignatureStart()
    ensures SIGNATURE[0] == '\U{EF}' && !IsComment(SIGNATURE[0]) && SIGNATURE[0] != '['
  {
  }

  lemma TextStart(doc: Doc, fmt: Format)
    requires PlainDoc(doc, fmt.multiLine) && (doc.sections != [] ==> doc.sections[0].name != "")
    ensures var t := DocText(doc, fmt); t != "" ==> IsComment(t[0]) || t[0] == '['
  {
    hide SectionsText, PlainSection, LinesText, GoodFileComment, DocText, HeadComment, HeadText, KeysText, GoodComment;
    var t := DocText(doc, fmt);
    if doc.fileComment.Some? {
      var c := doc.fileComment.value;
      DocParts(doc, fmt);
      FileCommentIsComment(c);
      assert At(t, 0, LinesText(c));
      FirstIsComment(t, 0, c);
    } else if CommentLeads(doc) {
      LeadingHead(doc, fmt);
      CommentOfHead(doc.sections[0], fmt.multiLine);
      FirstIsComment(t, 0, doc.sections[0].comment.value);
    } else if doc.sections == [] {
      TextOfNothing(doc, fmt);
    } else {
      PlainStart(doc, fmt);
    }
  }

  lemma TextOfNothing(doc: Doc, fmt: Format)
    requires doc.fileComment == None && doc.sections == []
    ensures DocText(doc, fmt) == ""
  {
  }

  lemma FileCommentIsComment(c: string)
    requires GoodFileComment(c)
    ensures GoodComment(c)
  {
    hide SplitLines;
    var lines := SplitLines(c);
    assert lines[0] in lines && lines[|lines|-1] in lines;
  }

  lemma CommentOfHead(s: DocSection, multiLine: bool)
    requires PlainSection(s, multiLine) && s.comment.Some?
    ensures GoodComment(s.comment.value) && HeadComment(s) == LinesText(s.comment.value)
  {
  }

  lemma PlainStart(doc: Doc, fmt: Format)
    requires doc.fileComment == None && doc.sections != [] && doc.sections[0].comment == None && doc.sections[0].name != ""
    ensures var t := DocText(doc, fmt); t != "" && t[0] == '['
  {
    hide SectionsText, KeysText;
    FirstSectionThere(doc.sections, |doc.sections|, fmt);
    assert doc.sections[..|doc.sections|] == doc.sections;
    assert SectionText(doc.sections[0], true, fmt)[0] == '[';
  }

  lemma NamedIsPlain(st: Store, multiLine: bool)
    requires NamedStore(st, multiLine)
    ensures Sorted(st) && PlainDoc(DocOf(st), multiLine)
    ensures forall i | 0 <= i < |DocSections(st)| :: DocSections(st)[i].name != ""
  {
    hide GoodStore, PlainDoc, DocSections, SortByOrder, DocKeys;
    GoodIsSorted(st, multiLine);
    GoodStoreShowsPlain(st, multiLine);
    forall i | 0 <= i < |DocSections(st)|
      ensures DocSections(st)[i].name != ""
    {
      var j := SectionListed(st, i);
      assert st.sections[j] in st.sections;
    }
  }

  // A text of named sections cannot be taken for one with a signature
  lemma NoSignature(st: Store, fmt: Format)
    requires NamedStore(st, fmt.multiLine)
    ensures !(SIGNATURE <= DocText(DocOf(st), fmt))
  {
    hide NamedStore, PlainDoc, DocText, DocSections, Sorted;
    NamedIsPlain(st, fmt.multiLine);
    TextStart(DocOf(st), fmt);
    SignatureStart();
  }

  // Loading nothing into an empty store
  lemma NothingLoaded(order: int, multiKey: bool, multiLine: bool)
    ensures LoadText(Store([], None, order, multiKey), "", multiLine) == Store([], None, order, multiKey)
  {
  }

  lemma TextOfSaved(st: Store, fmt: Format, isUtf8: bool, addSignature: bool)
    requires !(isUtf8 && !addSignature && SIGNATURE <= DocText(DocOf(st), fmt))
    ensures TextOf(SavedText(st, fmt, isUtf8, addSignature), isUtf8) == Effective(DocText(DocOf(st), fmt))
  {
    hide DocText, DocOf, Effective, SavedText;
    PayloadIsSavedText(st, fmt, isUtf8, addSignature);
  }

  // A fresh store of the same mode, after loading the saved text
  ghost function Copy(st: Store, fmt: Format, isUtf8: bool, addSignature: bool): Store {
    var blank := Fresh(st.multiKey);
    Apply(blank, Load(SavedText(st, fmt, isUtf8, addSignature), isUtf8, fmt.multiLine))
  }

  lemma CopyIsLoaded(st: Store, fmt: Format, isUtf8: bool, addSignature: bool)
    requires !(isUtf8 && !addSignature && SIGNATURE <= DocText(DocOf(st), fmt))
    ensures Copy(st, fmt, isUtf8, addSignature) == LoadText(Store([], None, 0, st.multiKey), Effective(DocText(DocOf(st), fmt)), fmt.multiLine)
    ensures Accepts(Fresh(st.multiKey), Load(SavedText(st, fmt, isUtf8, addSignature), isUtf8, fmt.multiLine))
       <==> Clean(Effective(DocText(DocOf(st), fmt)), EntriesStart(Store([], None, 0, st.multiKey), Effective(DocText(DocOf(st), fmt))), fmt.multiLine)
  {
    hide DocText, DocOf, LoadText, TextOf, Clean, EntriesStart, Effective;
    TextOfSaved(st, fmt, isUtf8, addSignature);
    if SavedText(st, fmt, isUtf8, addSignature) == "" {
      NothingLoaded(0, st.multiKey, fmt.multiLine);
      WithoutNul("");
    }
  }

  /**
    Whatever run of operations that use proper names, values and comments led to
    a store, saving it and loading the text into a fresh store of the same mode
    shows the document that its document becomes: the same sections, keys,
    values and comments in the same order, unless a section's comment leads.
  */
  lemma EveryRunRoundTrips(multiKey: bool, ops: seq<Op>, st: Store, fmt: Format, isUtf8: bool, addSignature: bool)
    requires Run(Fresh(multiKey), ops) == Some(st)
    requires forall i | 0 <= i < |ops| :: GoodOp(ops[i], fmt.multiLine)
    ensures Sorted(st) && Accepts(Fresh(st.multiKey), Load(SavedText(st, fmt, isUtf8, addSignature), isUtf8, fmt.multiLine))
    ensures var st' := Copy(st, fmt, isUtf8, addSignature);
            && DocOf(st') == Reloaded(DocOf(st))
            && (DocOf(st') == DocOf(st) <==> !CommentLeads(DocOf(st)))
            && (DocOf(st') == DocOf(st) ==> SavedText(st', fmt, isUtf8, addSignature) == SavedText(st, fmt, isUtf8, addSignature))
  {
    hide *;
    NothingNamed(0, multiKey, fmt.multiLine);
    FreshIs(multiKey);
    GoodRunKeepsNamed(Fresh(multiKey), ops, st, fmt.multiLine);
    NamedIsPlain(st, fmt.multiLine);
    NoSignature(st, fmt);
    CopyIsLoaded(st, fmt, isUtf8, addSignature);
    SaveLoadSave(st, fmt, 0);
    SameTextSaved(st, Copy(st, fmt, isUtf8, addSignature), fmt, isUtf8, addSignature);
  }

  lemma FreshIs(multiKey: bool)
    ensures Fresh(multiKey) == Store([], None, 0, multiKey) && Sorted(Fresh(multiKey))
  {
  }

  lemma SameTextSaved(st: Store, st': Store, fmt: Format, isUtf8: bool, addSignature: bool)
    requires DocOf(st') == DocOf(st) ==> DocText(DocOf(st'), fmt) == DocText(DocOf(st), fmt)
    ensures DocOf(st') == DocOf(st) ==> SavedText(st', fmt, isUtf8, addSignature) == SavedText(st, fmt, isUtf8, addSignature)
  {
    hide DocText, DocOf;
  }

  // ------------------------------------------------------------------
  // The same with the class

  lemma ValidIsSorted(ini: Ini.SimpleIni)
    requires ini.Valid()
    ensures Sorted(ini.Contents()) && (ini.Contents().multiKey == ini.multiKey) && ini.Contents().order == ini.order
  {
  }

  // Apply, operation by operation, and what the class requires for a Load
  lemma ApplyIs(st: Store, op: Op)
    requires Sorted(st)
    ensures op.SetValue? ==> Apply(st, op) == AddEntry(st, op.section, op.pair, op.comment, op.force).0
    ensures op.Delete? ==> Apply(st, op) == IniStore.Delete(st, op.section, op.key, op.removeEmpty).0
    ensures op.Load? ==> TextOf(op.data, op.isUtf8) == Effective(Ini.Payload(op.data, op.isUtf8))
    ensures op.Load? ==> Apply(st, op) == if op.data == "" then st else LoadText(st, TextOf(op.data, op.isUtf8), op.multiLine)
    ensures op.Load? ==> (Accepts(st, op) <==> Clean(TextOf(op.data, op.isUtf8), EntriesStart(st, TextOf(op.data, op.isUtf8)), op.multiLine))
    ensures op.SetMultiKey? ==> Apply(st, op) == st.(multiKey := op.allow)
    ensures op.Reset? ==> Apply(st, op) == Store([], None, st.order, st.multiKey)
  {
    hide Effective, Clean, EntriesStart, LoadText, AddEntry, IniStore.Delete, Sorted, Ini.Payload;
  }

  /** A call of the class is one step of a run; a Load goes with the settings that are in force. */
  method Perform(ini: Ini.SimpleIni, op: Op)
    requires ini.Valid() && Accepts(ini.Contents(), op)
    requires op.Load? ==> op.isUtf8 == ini.storeIsUtf8 && op.multiLine == ini.multiLine
    modifies ini
    ensures ini.Valid() && ini.Contents() == Apply(old(ini.Contents()), op)
    ensures ini.storeIsUtf8 == old(ini.storeIsUtf8) && ini.multiLine == old(ini.multiLine) && ini.spaces == old(ini.spaces)
  {
    hide *;
    ValidIsSorted(ini);
    ApplyIs(ini.Contents(), op);
    match op {
      case SetValue(section, pair, comment, force) =>
        var key := if pair.Some? then Some(pair.value.0) else None;
        var value := if pair.Some? then Some(pair.value.1) else None;
        var inserted := ini.SetValue(section, key, value, comment, force);
      case Delete(section, key, removeEmpty) =>
        var deleted := ini.Delete(Some(section), key, removeEmpty);
      case Load(data, isUtf8, multiLine) =>
        ini.Load(data);
      case SetMultiKey(allow) =>
        ini.SetMultiKey(allow);
      case Reset =>
        ini.Reset();
    }
  }

  // What Save writes, a fresh store loads
  lemma SavedReloads(st: Store, fmt: Format, isUtf8: bool, addSignature: bool)
    requires Sorted(st) && PlainDoc(DocOf(st), fmt.multiLine) && !(isUtf8 && !addSignature && SIGNATURE <= DocText(DocOf(st), fmt))
    ensures var blank := Store([], None, 0, st.multiKey);
            var text := (if isUtf8 && addSignature then SIGNATURE else "") + DocText(DocOf(st), fmt);
            var t := Effective(Ini.Payload(text, isUtf8));
            var st' := if text == "" then blank else LoadText(blank, t, fmt.multiLine);
            && Clean(t, EntriesStart(blank, t), fmt.multiLine) && DocOf(st') == Reloaded(DocOf(st))
            && (DocOf(st') == DocOf(st) <==> !CommentLeads(DocOf(st)))
  {
    hide Effective, DocOf, DocText, Clean, EntriesStart, LoadText, PlainDoc, Reloaded, CommentLeads, Ini.Payload, Sorted;
    SaveLoadSave(st, fmt, 0);
    PayloadIsSavedText(st, fmt, isUtf8, addSignature);
    NothingLoaded(0, st.multiKey, fmt.multiLine);
    WithoutNul("");
  }

  /**
    Saves one SimpleIni and loads the text into a new one with the same settings:
    the copy shows the document that the first one's becomes, in memory of its own.
  */
  method SaveAndLoad(ini: Ini.SimpleIni, addSignature: bool) returns (copy: Ini.SimpleIni)
    requires ini.Valid() && PlainDoc(DocOf(ini.Contents()), ini.multiLine)
    requires !(ini.storeIsUtf8 && !addSignature && SIGNATURE <= DocText(DocOf(ini.Contents()), Format(ini.multiLine, ini.spaces)))
    ensures fresh(copy) && copy.Valid()
    ensures DocOf(copy.Contents()) == Reloaded(DocOf(ini.Contents()))
    ensures DocOf(copy.Contents()) == DocOf(ini.Contents()) <==> !CommentLeads(DocOf(ini.Contents()))
  {
    hide *;
    ghost var st, fmt := ini.Contents(), Format(ini.multiLine, ini.spaces);
    ValidIsSorted(ini);
    SavedReloads(st, fmt, ini.storeIsUtf8, addSignature);
    copy := new Ini.SimpleIni(ini.storeIsUtf8, ini.multiKey, ini.multiLine);
    var text := ini.Save(addSignature);
    copy.Load(text);
  }
}
