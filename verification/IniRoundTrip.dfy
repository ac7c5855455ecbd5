/**
  Loading what Save wrote gives the same document: the entries of a document,
  added one by one to an empty store, rebuild it section by section, key by key
  and value by value.
*/
module IniRoundTrip {
  import opened Options
  import opened IniText
  import opened IniParse
  import opened IniStore
  import opened IniMultimap
  import opened IniView
  import opened IniShapes
  import opened IniReparse

  // ------------------------------------------------------------------
  // Sorting by load order, one more element at the end

  lemma {:induction false} InsertLast(x: Item, s: seq<Item>)
    requires forall i | 0 <= i < |s| :: s[i].order < x.order
    ensures InsertByOrder(x, s) == s + [x]
  {
    if s != [] {
      InsertLast(x, s[1..]);
      assert s == [s[0]] + s[1..];
    }
  }

  lemma {:induction false} InsertBefore(y: Item, s: seq<Item>, x: Item)
    requires y.order < x.order
    ensures InsertByOrder(y, s + [x]) == InsertByOrder(y, s) + [x]
  {
    if s != [] && !(y.order < s[0].order) {
      InsertBefore(y, s[1..], x);
      assert (s + [x])[1..] == s[1..] + [x];
    } else if s == [] {
      assert s + [x] == [x];
    }
  }

  ghost predicate Below(s: seq<Item>, bound: int) {
    forall i | 0 <= i < |s| :: s[i].order < bound
  }

  lemma SortBelow(s: seq<Item>, bound: int)
    requires Below(s, bound)
    ensures Below(SortByOrder(s), bound)
  {
    SortByOrderSorts(s);
    var r := SortByOrder(s);
    forall i | 0 <= i < |r|
      ensures r[i].order < bound
    {
      assert r[i] in multiset(r);
      var j :| 0 <= j < |s| && s[j] == r[i];
    }
  }

  /** An element younger than all others is sorted to the end, wherever the table had it. */
  lemma {:induction false} SortYoungest(a: seq<Item>, x: Item, b: seq<Item>)
    requires Below(a, x.order) && Below(b, x.order)
    ensures SortByOrder(a + [x] + b) == SortByOrder(a + b) + [x]
    decreases |b|
  {
    hide InsertByOrder;
    if b == [] {
      assert a + [x] + b == a + [x] && a + b == a && (a + [x])[..|a|] == a;
      SortBelow(a, x.order);
      InsertLast(x, SortByOrder(a));
    } else {
      var p, y := b[..|b|-1], b[|b|-1];
      SortYoungest(a, x, p);
      assert (a + [x] + b)[..|a + [x] + b| - 1] == a + [x] + p;
      assert (a + b)[..|a + b| - 1] == a + p;
      InsertBefore(y, SortByOrder(a + p), x);
    }
  }

  // ------------------------------------------------------------------
  // Heads of a key table, one more key

  predicate IsHead(keys: seq<Key<string>>, n: nat)
    requires n < |keys|
  {
    n == 0 || NameLess(keys[n-1].name, keys[n].name)
  }

  // A table may be cut in front of a head
  lemma {:induction false} HeadsCut(keys: seq<Key<string>>, u: nat)
    requires u <= |keys| && (u < |keys| ==> IsHead(keys, u))
    ensures Heads(keys) == Heads(keys[..u]) + Heads(keys[u..])
    decreases |keys|
  {
    hide NameLess;
    if u == |keys| {
      assert keys[..u] == keys && keys[u..] == [];
    } else if u == |keys| - 1 {
      assert keys[u..] == [keys[u]] && [keys[u]][..0] == [];
    } else {
      var n := |keys| - 1;
      var p := keys[..n];
      HeadsCut(p, u);
      assert p[..u] == keys[..u] && p[u..] == keys[u..][..n-u];
      assert keys[u..][n-u-1] == keys[n-1] && keys[u..][n-u] == keys[n];
      var last := if NameLess(keys[n-1].name, keys[n].name) then [Item(keys[n].name, keys[n].comment, keys[n].order)] else [];
      assert Heads(keys[u..]) == Heads(p[u..]) + last;
      assert Heads(keys[..u]) + (Heads(p[u..]) + last) == (Heads(keys[..u]) + Heads(p[u..])) + last;
    }
  }

  lemma HeadsOne(key: Key<string>)
    ensures Heads([key]) == [Item(key.name, key.comment, key.order)]
  {
    assert [key][..0] == [];
  }

  lemma HeadsSnoc(keys: seq<Key<string>>, key: Key<string>)
    requires keys != []
    ensures Heads(keys + [key]) == Heads(keys) + if NameLess(keys[|keys|-1].name, key.name) then [Item(key.name, key.comment, key.order)] else []
  {
    hide NameLess;
    var all, n := keys + [key], |keys|;
    assert all[..n] == keys && all[n-1] == keys[n-1] && all[n] == key;
    assert Heads(all) == Heads(all[..n]) + if NameLess(all[n-1].name, all[n].name) then [Item(all[n].name, all[n].comment, all[n].order)] else [];
  }

  // Where an insertion cuts the table
  lemma InsertPlace(keys: seq<Key<string>>, k: string)
    requires Ascending(KeyNames(keys))
    ensures var u := Upper(KeyNames(keys), k);
            && (u < |keys| ==> NameLess(k, keys[u].name) && IsHead(keys, u))
            && (u > 0 ==> (SameName(keys[u-1].name, k) <==> Matching(keys, k) != []) && !NameLess(k, keys[u-1].name))
            && (u == 0 ==> Matching(keys, k) == [])
  {
    hide Matching, NameLess, SameName;
    var ns := KeyNames(keys);
    var u := Upper(ns, k);
    Zones(ns, k);
    GroupIsMatching(keys, k);
    if 0 < u {
      NameTrichotomy(ns[u-1], k);
    }
    if 0 < u < |keys| {
      BelowStays(ns[u-1], k, ns[u]);
    }
  }

  /** A new key adds one head at its place. */
  lemma HeadsOfNewKey(keys: seq<Key<string>>, key: Key<string>)
    requires Ascending(KeyNames(keys)) && Matching(keys, key.name) == []
    ensures var u := Upper(KeyNames(keys), key.name);
            && Heads(keys) == Heads(keys[..u]) + Heads(keys[u..])
            && Heads(InsertKey(keys, key)) == Heads(keys[..u]) + [Item(key.name, key.comment, key.order)] + Heads(keys[u..])
  {
    hide Matching, NameLess, SameName, Heads, Upper;
    var u := Upper(KeyNames(keys), key.name);
    InsertPlace(keys, key.name);
    HeadsCut(keys, u);
    var a, b := keys[..u], keys[u..];
    if 0 < u {
      NameTrichotomy(keys[u-1].name, key.name);
    }
    TwoCuts(a, key, b);
  }

  lemma TwoCuts(a: seq<Key<string>>, key: Key<string>, b: seq<Key<string>>)
    requires a == [] || NameLess(a[|a|-1].name, key.name)
    requires b == [] || NameLess(key.name, b[0].name)
    ensures Heads(a + [key] + b) == Heads(a) + [Item(key.name, key.comment, key.order)] + Heads(b)
  {
    hide NameLess, Heads;
    var keys := a + [key] + b;
    HeadsCut(keys, |a|);
    HeadsCut(keys[|a|..], 1);
    assert keys[..|a|] == a && keys[|a|..][..1] == [key] && keys[|a|..][1..] == b;
    HeadsOne(key);
  }

  /** One more entry of a known key goes behind the others, so no head changes. */
  lemma HeadsOfKnownKey(keys: seq<Key<string>>, key: Key<string>)
    requires Ascending(KeyNames(keys)) && Matching(keys, key.name) != []
    ensures Heads(InsertKey(keys, key)) == Heads(keys)
  {
    hide Matching, NameLess, SameName, Heads, Upper;
    var u := Upper(KeyNames(keys), key.name);
    InsertPlace(keys, key.name);
    HeadsCut(keys, u);
    var a, b := keys[..u], keys[u..];
    NameTrichotomy(keys[u-1].name, key.name);
    var all := a + [key] + b;
    HeadsCut(all, u + 1);
    assert all[..u+1] == a + [key] && all[u+1..] == b;
    HeadsSnoc(a, key);
    assert Heads(a) + [] == Heads(a);
  }

  // ------------------------------------------------------------------
  // The keys of a document section, one more pair

  ghost function DocKeyOf(keys: seq<Key<string>>, name: string, multiKey: bool): DocKey {
    DocKey(name, DocValues(ValueItems(keys, name, multiKey)))
  }

  lemma SortedIsFrom(s: seq<Item>, i: nat) returns (j: nat)
    requires i < |SortByOrder(s)|
    ensures j < |s| && s[j] == SortByOrder(s)[i]
  {
    SortByOrderSorts(s);
    assert SortByOrder(s)[i] in multiset(s);
    j :| 0 <= j < |s| && s[j] == SortByOrder(s)[i];
  }

  lemma ListedKeyIsMatched(keys: seq<Key<string>>, i: nat)
    requires i < |SortByOrder(Heads(keys))|
    ensures Matching(keys, SortByOrder(Heads(keys))[i].item) != []
  {
    var j := SortedIsFrom(Heads(keys), i);
    HeadIsMatched(keys, j);
  }

  lemma {:induction false} HeadOrders(keys: seq<Key<string>>, bound: int)
    requires forall o | o in KeyOrders(keys) :: o < bound
    ensures Below(Heads(keys), bound)
    decreases |keys|
  {
    if keys != [] {
      var p, last := keys[..|keys|-1], keys[|keys|-1];
      assert last.order in KeyOrders(keys);
      assert forall o | o in KeyOrders(p) :: o in KeyOrders(keys);
      HeadOrders(p, bound);
    }
  }

  lemma OrdersOfParts(keys: seq<Key<string>>, u: nat, bound: int)
    requires u <= |keys| && forall o | o in KeyOrders(keys) :: o < bound
    ensures Below(Heads(keys[..u]), bound) && Below(Heads(keys[u..]), bound)
  {
    hide KeyOrders, Heads, Below;
    assert keys == keys[..u] + keys[u..];
    KeyOrdersAppend(keys[..u], keys[u..]);
    assert forall o | o in KeyOrders(keys[..u]) :: o in KeyOrders(keys);
    assert forall o | o in KeyOrders(keys[u..]) :: o in KeyOrders(keys);
    HeadOrders(keys[..u], bound);
    HeadOrders(keys[u..], bound);
  }

  lemma OneValue(key: Key<string>, k: string, keys: seq<Key<string>>, multiKey: bool)
    requires Matching(keys, k) == [key]
    ensures DocKeyOf(keys, k, multiKey) == DocKey(k, [DocValue(key.value, key.comment)])
  {
  }

  // Keys that show as before, and one more
  lemma DocKeysExtend(keys: seq<Key<string>>, keys': seq<Key<string>>, x: Item, multiKey: bool)
    requires SortByOrder(Heads(keys')) == SortByOrder(Heads(keys)) + [x]
    requires forall i | 0 <= i < |SortByOrder(Heads(keys))| ::
      DocKeyOf(keys', SortByOrder(Heads(keys))[i].item, multiKey) == DocKeyOf(keys, SortByOrder(Heads(keys))[i].item, multiKey)
    ensures DocKeys(keys', multiKey) == DocKeys(keys, multiKey) + [DocKeyOf(keys', x.item, multiKey)]
  {
    hide SortByOrder, Heads, ValueItems, DocValues;
  }

  lemma OtherKeysShow(keys: seq<Key<string>>, key: Key<string>, i: nat, multiKey: bool)
    requires Ascending(KeyNames(keys)) && Matching(keys, key.name) == [] && i < |SortByOrder(Heads(keys))|
    ensures var name := SortByOrder(Heads(keys))[i].item; DocKeyOf(InsertKey(keys, key), name, multiKey) == DocKeyOf(keys, name, multiKey)
  {
    hide Matching, Heads, InsertKey, SortByOrder, SameName, Ascending;
    var name := SortByOrder(Heads(keys))[i].item;
    ListedKeyIsMatched(keys, i);
    InsertKeyMatching(keys, key, name);
    if SameName(key.name, name) {
      MatchingSame(keys, key.name, name);
    }
  }

  lemma NewKeyIsListedLast(keys: seq<Key<string>>, key: Key<string>)
    requires Ascending(KeyNames(keys)) && Matching(keys, key.name) == []
    requires forall o | o in KeyOrders(keys) :: o < key.order
    ensures SortByOrder(Heads(InsertKey(keys, key))) == SortByOrder(Heads(keys)) + [Item(key.name, key.comment, key.order)]
  {
    hide Matching, Heads, InsertKey, SortByOrder, KeyOrders, Upper, Below, Ascending;
    var u := Upper(KeyNames(keys), key.name);
    HeadsOfNewKey(keys, key);
    OrdersOfParts(keys, u, key.order);
    SortYoungest(Heads(keys[..u]), Item(key.name, key.comment, key.order), Heads(keys[u..]));
  }

  /** A pair with a new key is listed behind all other keys. */
  lemma DocKeysOfNewKey(keys: seq<Key<string>>, key: Key<string>, multiKey: bool)
    requires Ascending(KeyNames(keys)) && Matching(keys, key.name) == []
    requires forall o | o in KeyOrders(keys) :: o < key.order
    ensures DocKeys(InsertKey(keys, key), multiKey) == DocKeys(keys, multiKey) + [DocKey(key.name, [DocValue(key.value, key.comment)])]
  {
    hide *;
    var keys' := InsertKey(keys, key);
    NewKeyIsListedLast(keys, key);
    InsertKeyMatching(keys, key, key.name);
    SameNameSymmetric(key.name, key.name);
    assert [] + [key] == [key];
    OneValue(key, key.name, keys', multiKey);
    forall i | 0 <= i < |SortByOrder(Heads(keys))|
      ensures DocKeyOf(keys', SortByOrder(Heads(keys))[i].item, multiKey) == DocKeyOf(keys, SortByOrder(Heads(keys))[i].item, multiKey)
    {
      OtherKeysShow(keys, key, i, multiKey);
    }
    DocKeysExtend(keys, keys', Item(key.name, key.comment, key.order), multiKey);
  }

  /** One more value of the last key is listed behind its other values. */
  lemma DocKeysOfNextValue(keys: seq<Key<string>>, key: Key<string>, ks: seq<DocKey>, vs: seq<DocValue>)
    requires Ascending(KeyNames(keys)) && DocKeys(keys, true) == ks + [DocKey(key.name, vs)] && vs != []
    requires forall i | 0 <= i < |ks| :: !SameName(ks[i].name, key.name)
    ensures DocKeys(InsertKey(keys, key), true) == ks + [DocKey(key.name, vs + [DocValue(key.value, key.comment)])]
  {
    hide Matching, Heads, InsertKey, SortByOrder, SameName;
    var keys' := InsertKey(keys, key);
    var names := SortByOrder(Heads(keys));
    var n := |ks|;
    assert DocKeys(keys, true)[n] == DocKeyOf(keys, names[n].item, true);
    HeadsOfKnownKey(keys, key);
    InsertKeyMatching(keys, key, key.name);
    SameNameSymmetric(key.name, key.name);
    MoreValues(keys, keys', key);
    forall i | 0 <= i < n
      ensures DocKeyOf(keys', names[i].item, true) == ks[i]
    {
      assert DocKeys(keys, true)[i] == DocKeyOf(keys, names[i].item, true);
      InsertKeyMatching(keys, key, names[i].item);
      SameNameSymmetric(key.name, names[i].item);
    }
    assert DocKeys(keys', true)[n] == DocKeyOf(keys', key.name, true);
  }

  lemma SameNameSymmetric(a: string, b: string)
    ensures SameName(a, b) == SameName(b, a) && SameName(a, a)
  {
  }

  lemma MoreValues(keys: seq<Key<string>>, keys': seq<Key<string>>, key: Key<string>)
    requires Matching(keys', key.name) == Matching(keys, key.name) + [key]
    ensures DocKeyOf(keys', key.name, true).values == DocKeyOf(keys, key.name, true).values + [DocValue(key.value, key.comment)]
  {
  }

  // ------------------------------------------------------------------
  // The sections of a document, one more entry

  ghost function DocSectionOf(st: Store, item: Item): DocSection {
    DocSection(item.item, item.comment, DocKeys(KeysOf(st, item.item), st.multiKey))
  }

  lemma ListedSectionIsFound(st: Store, i: nat)
    requires Sorted(st) && i < |SortByOrder(SectionItems(st.sections))|
    ensures HasSection(st, SortByOrder(SectionItems(st.sections))[i].item)
  {
    var j := SortedIsFrom(SectionItems(st.sections), i);
    SectionIsFound(st, j);
  }

  lemma SectionOrderIn(sections: seq<Section<string>>, i: nat)
    requires i < |sections|
    ensures sections[i].order in Orders(sections)
    ensures forall o | o in KeyOrders(sections[i].keys) :: o in Orders(sections)
  {
    hide Orders, KeyOrders;
    OrdersAt(sections, i, sections[i]);
  }

  lemma SectionItemsBelow(st: Store, u: nat)
    requires OrdersOk(st) && u <= |st.sections|
    ensures Below(SectionItems(st.sections[..u]), st.order + 1) && Below(SectionItems(st.sections[u..]), st.order + 1)
  {
    hide Orders, SectionOrdersOk, Distinct;
    forall i | 0 <= i < |st.sections|
      ensures st.sections[i].order <= st.order
    {
      SectionOrderIn(st.sections, i);
    }
  }

  lemma SectionItemsThree(a: seq<Section<string>>, section: Section<string>, b: seq<Section<string>>)
    ensures SectionItems(a + [section] + b) == SectionItems(a) + [Item(section.name, section.comment, section.order)] + SectionItems(b)
    ensures SectionItems(a + b) == SectionItems(a) + SectionItems(b)
  {
  }

  lemma NewSectionIsListedLast(st: Store, s: string, comment: Option<string>)
    requires Sorted(st) && OrdersOk(st) && !HasSection(st, s)
    ensures SortByOrder(SectionItems(WithSection(st, s, comment).sections))
         == SortByOrder(SectionItems(st.sections)) + [Item(s, comment, st.order + 1)]
  {
    hide OrdersOk, SectionItems, SortByOrder, Below, Lower, FindSection, NameLess, Sorted;
    HasIsFound(st, s);
    var i := Lower(SectionNames(st.sections), s);
    var a, b := st.sections[..i], st.sections[i..];
    var section := Section(s, comment, st.order + 1, []);
    assert st.sections == a + b;
    SectionItemsBelow(st, i);
    SectionItemsThree(a, section, b);
    SortYoungest(SectionItems(a), Item(s, comment, st.order + 1), SectionItems(b));
  }

  lemma NoDocKeys(multiKey: bool)
    ensures DocKeys([], multiKey) == []
  {
  }

  /** A new section is listed behind all others, without keys. */
  lemma DocOfNewSection(st: Store, s: string, comment: Option<string>)
    requires Sorted(st) && OrdersOk(st) && !HasSection(st, s)
    ensures DocSections(WithSection(st, s, comment)) == DocSections(st) + [DocSection(s, comment, [])]
  {
    hide OrdersOk, SectionItems, SortByOrder, DocKeys, WithSection, FindSection, SameName, Sorted;
    var st' := WithSection(st, s, comment);
    assert st'.multiKey == st.multiKey by { WithSectionFields(st, s, comment); }
    var names := SortByOrder(SectionItems(st.sections));
    NewSectionIsListedLast(st, s, comment);
    NoDocKeys(st.multiKey);
    WithSectionFind(st, s, comment, s);
    SameNameSymmetric(s, s);
    forall i | 0 <= i < |names|
      ensures DocSectionOf(st', names[i]) == DocSectionOf(st, names[i])
    {
      ListedSectionIsFound(st, i);
      WithSectionFind(st, s, comment, names[i].item);
      if SameName(s, names[i].item) {
        FindSame(st.sections, s, names[i].item);
      }
    }
  }

  lemma WithSectionFields(st: Store, s: string, comment: Option<string>)
    ensures var st' := WithSection(st, s, comment); st'.multiKey == st.multiKey && st'.fileComment == st.fileComment
  {
  }

  /** A pair for a section that is there changes the keys of that section only. */
  lemma AddPairFind(st: Store, s: string, k: string, v: string, comment: Option<string>, s': string)
    requires Sorted(st) && HasSection(st, s)
    ensures var st' := AddEntry(st, s, Some((k, v)), comment, false).0;
            var section := FindSection(st.sections, s).value;
            && Ascending(KeyNames(section.keys))
            && FindSection(st'.sections, s') ==
               (if SameName(s, s') then Some(section.(keys := SetKey(section.keys, k, v, comment, st.order + 1, st.multiKey, false)))
                else FindSection(st.sections, s'))
            && SectionItems(st'.sections) == SectionItems(st.sections)
            && st'.multiKey == st.multiKey && st'.fileComment == st.fileComment
  {
    hide Lower, FindSection, SameName, SetKey, NameLess;
    HasIsFound(st, s);
    var i := Lower(SectionNames(st.sections), s);
    var section := st.sections[i];
    ReplaceSection(st.sections, s, section.(keys := SetKey(section.keys, k, v, comment, st.order + 1, st.multiKey, false)), s');
  }

  /** A pair for the last section of the document changes the keys of that section only. */
  lemma DocOfPair(st: Store, ss: seq<DocSection>, s: string, c: Option<string>, ks: seq<DocKey>, k: string, v: string,
                  comment: Option<string>)
    requires Sorted(st) && DocSections(st) == ss + [DocSection(s, c, ks)]
    requires forall i | 0 <= i < |ss| :: !SameName(ss[i].name, s)
    ensures HasSection(st, s) && Ascending(KeyNames(KeysOf(st, s))) && DocKeys(KeysOf(st, s), st.multiKey) == ks
    ensures DocSections(AddEntry(st, s, Some((k, v)), comment, false).0)
         == ss + [DocSection(s, c, DocKeys(SetKey(KeysOf(st, s), k, v, comment, st.order + 1, st.multiKey, false), st.multiKey))]
  {
    hide AddEntry, SectionItems, SortByOrder, DocKeys, FindSection, SameName, SetKey, Sorted, Ascending;
    var st' := AddEntry(st, s, Some((k, v)), comment, false).0;
    var names := SortByOrder(SectionItems(st.sections));
    var n := |ss|;
    assert DocSections(st)[n] == DocSectionOf(st, names[n]);
    ListedSectionIsFound(st, n);
    AddPairFind(st, s, k, v, comment, s);
    SameNameSymmetric(s, s);
    assert DocSectionOf(st', names[n]).keys == DocKeys(SetKey(KeysOf(st, s), k, v, comment, st.order + 1, st.multiKey, false), st.multiKey);
    forall i | 0 <= i < n
      ensures DocSectionOf(st', names[i]) == ss[i]
    {
      assert DocSections(st)[i] == DocSectionOf(st, names[i]);
      AddPairFind(st, s, k, v, comment, names[i].item);
      SameNameSymmetric(s, names[i].item);
    }
    assert forall i | 0 <= i <= n :: DocSections(st')[i] == DocSectionOf(st', names[i]);
  }

  // The load orders of a section's keys are below the next one
  lemma KeysOfOrders(st: Store, s: string)
    requires Sorted(st) && OrdersOk(st) && HasSection(st, s)
    ensures forall o | o in KeyOrders(KeysOf(st, s)) :: o < st.order + 1
  {
    hide Orders, KeyOrders, Lower, FindSection, Distinct, SectionOrdersOk;
    HasIsFound(st, s);
    SectionOrderIn(st.sections, Lower(SectionNames(st.sections), s));
  }

  // ------------------------------------------------------------------
  // Names that the document does not list are not in the store

  ghost predicate NewName(ss: seq<DocSection>, s: string) {
    forall i | 0 <= i < |ss| :: !SameName(ss[i].name, s)
  }

  ghost predicate NewKeyName(ks: seq<DocKey>, k: string) {
    forall i | 0 <= i < |ks| :: !SameName(ks[i].name, k)
  }

  lemma {:induction false} NamedByFold(keys: seq<Key<string>>, k: string)
    requires Matching(keys, k) != []
    ensures Fold(k) in FoldedNames(keys)
    decreases |keys|
  {
    hide Fold;
    var n := |keys| - 1;
    if SameName(keys[n].name, k) {
      assert keys[n] in keys;
    } else {
      NamedByFold(keys[..n], k);
      assert forall x | x in keys[..n] :: x in keys;
    }
  }

  lemma SortedKeeps(s: seq<Item>, x: Item) returns (i: nat)
    requires x in s
    ensures i < |SortByOrder(s)| && SortByOrder(s)[i] == x
  {
    SortByOrderSorts(s);
    assert x in multiset(s);
    assert x in SortByOrder(s);
    i :| 0 <= i < |SortByOrder(s)| && SortByOrder(s)[i] == x;
  }

  lemma KeyIsListed(keys: seq<Key<string>>, k: string, multiKey: bool) returns (i: nat)
    requires Ascending(KeyNames(keys)) && Matching(keys, k) != []
    ensures i < |DocKeys(keys, multiKey)| && SameName(DocKeys(keys, multiKey)[i].name, k)
  {
    hide Matching, Heads, SortByOrder, Fold;
    NamedByFold(keys, k);
    HeadsNameEachKeyOnce(keys);
    var h :| h in Heads(keys) && Fold(h.item) == Fold(k);
    i := SortedKeeps(Heads(keys), h);
  }

  lemma UnlistedKey(keys: seq<Key<string>>, k: string, multiKey: bool)
    requires Ascending(KeyNames(keys)) && NewKeyName(DocKeys(keys, multiKey), k)
    ensures Matching(keys, k) == []
  {
    hide Matching, DocKeys, SameName;
    if Matching(keys, k) != [] {
      var i := KeyIsListed(keys, k, multiKey);
    }
  }

  lemma SectionIsListed(st: Store, s: string) returns (i: nat)
    requires Sorted(st) && HasSection(st, s)
    ensures i < |DocSections(st)| && SameName(DocSections(st)[i].name, s)
  {
    hide FindSection, SortByOrder, Fold, Lower;
    HasIsFound(st, s);
    CutAtSection(st.sections, s);
    var items := SectionItems(st.sections);
    var j := Lower(SectionNames(st.sections), s);
    assert items[j] in items;
    i := SortedKeeps(items, items[j]);
  }

  lemma UnlistedSection(st: Store, s: string)
    requires Sorted(st) && NewName(DocSections(st), s)
    ensures !HasSection(st, s)
  {
    hide Sorted, DocSections, HasSection, SameName;
    if HasSection(st, s) {
      var i := SectionIsListed(st, s);
    }
  }

  // ------------------------------------------------------------------
  // Loading the entries of a document

  /** The store shows exactly this file comment and these sections. */
  ghost predicate Shows(st: Store, fileComment: Option<string>, ss: seq<DocSection>, multiKey: bool) {
    Sorted(st) && OrdersOk(st) && st.fileComment == fileComment && st.multiKey == multiKey && DocSections(st) == ss
  }

  lemma AddHeader(st: Store, fc: Option<string>, ss: seq<DocSection>, s: string, c: Option<string>, multiKey: bool)
    requires Shows(st, fc, ss, multiKey) && NewName(ss, s)
    ensures Shows(AddEntry(st, s, None, c, false).0, fc, ss + [DocSection(s, c, [])], multiKey)
  {
    hide Sorted, OrdersOk, DocSections, WithSection;
    UnlistedSection(st, s);
    DocOfNewSection(st, s, c);
    WithSectionFields(st, s, c);
    AddEntryKeepsOrders(st, s, None, c, false);
  }

  lemma SetNewKey(keys: seq<Key<string>>, k: string, v: DocValue, order: int, multiKey: bool)
    requires Ascending(KeyNames(keys)) && (multiKey || Matching(keys, k) == [])
    ensures SetKey(keys, k, v.value, v.comment, order, multiKey, false) == InsertKey(keys, Key(k, v.comment, order, v.value))
  {
    hide InsertKey;
    GroupIsMatching(keys, k);
  }

  lemma AddNewKey(st: Store, fc: Option<string>, ss: seq<DocSection>, s: string, c: Option<string>, ks: seq<DocKey>,
                  k: string, v: DocValue, multiKey: bool)
    requires Shows(st, fc, ss + [DocSection(s, c, ks)], multiKey) && NewName(ss, s) && NewKeyName(ks, k)
    ensures Shows(AddEntry(st, s, Some((k, v.value)), v.comment, false).0, fc, ss + [DocSection(s, c, ks + [DocKey(k, [v])])], multiKey)
  {
    hide Sorted, OrdersOk, DocSections, AddEntry, SetKey, InsertKey, DocKeys, SameName, Ascending, KeyOrders;
    var keys := KeysOf(st, s);
    DocOfPair(st, ss, s, c, ks, k, v.value, v.comment);
    AddPairFind(st, s, k, v.value, v.comment, s);
    AddEntryKeepsOrders(st, s, Some((k, v.value)), v.comment, false);
    UnlistedKey(keys, k, multiKey);
    SetNewKey(keys, k, v, st.order + 1, multiKey);
    KeysOfOrders(st, s);
    DocKeysOfNewKey(keys, Key(k, v.comment, st.order + 1, v.value), multiKey);
  }

  lemma AddNextValue(st: Store, fc: Option<string>, ss: seq<DocSection>, s: string, c: Option<string>, ks: seq<DocKey>,
                     k: string, vs: seq<DocValue>, v: DocValue)
    requires Shows(st, fc, ss + [DocSection(s, c, ks + [DocKey(k, vs)])], true) && NewName(ss, s) && NewKeyName(ks, k) && vs != []
    ensures Shows(AddEntry(st, s, Some((k, v.value)), v.comment, false).0, fc, ss + [DocSection(s, c, ks + [DocKey(k, vs + [v])])], true)
  {
    hide Sorted, OrdersOk, DocSections, AddEntry, SetKey, InsertKey, DocKeys, SameName, Ascending;
    var keys := KeysOf(st, s);
    DocOfPair(st, ss, s, c, ks + [DocKey(k, vs)], k, v.value, v.comment);
    AddPairFind(st, s, k, v.value, v.comment, s);
    AddEntryKeepsOrders(st, s, Some((k, v.value)), v.comment, false);
    SetNewKey(keys, k, v, st.order + 1, true);
    DocKeysOfNextValue(keys, Key(k, v.comment, st.order + 1, v.value), ks, vs);
  }

  lemma {:induction false} AddAllAppend(st: Store, es: seq<Entry>, es': seq<Entry>)
    requires Sorted(st)
    ensures AddAll(st, es + es') == AddAll(AddAll(st, es), es')
    decreases |es|
  {
    hide AddEntry, Sorted;
    if es == [] {
      assert es + es' == es';
    } else {
      var e := es[0];
      AddEntrySorted(st, e.section, e.pair, e.comment, false);
      AddAllAppend(AddEntry(st, e.section, e.pair, e.comment, false).0, es[1..], es');
      assert (es + es')[0] == e && (es + es')[1..] == es[1..] + es';
    }
  }

  lemma AddOne(st: Store, es: seq<Entry>, e: Entry)
    requires Sorted(st)
    ensures AddAll(st, es + [e]) == AddEntry(AddAll(st, es), e.section, e.pair, e.comment, false).0
  {
    hide AddEntry, Sorted;
    AddAllAppend(st, es, [e]);
    var st' := AddAll(st, es);
    AddEntrySorted(st', e.section, e.pair, e.comment, false);
    assert [e][1..] == [];
    assert AddAll(st', [e]) == AddAll(AddEntry(st', e.section, e.pair, e.comment, false).0, [e][1..]);
  }

  /** Values, keys and sections that a store of the given mode can hold. */
  ghost predicate ProperKey(k: DocKey, multiKey: bool) {
    k.values != [] && (multiKey || |k.values| == 1)
  }

  ghost predicate ProperSection(s: DocSection, multiKey: bool) {
    && (forall i | 0 <= i < |s.keys| :: ProperKey(s.keys[i], multiKey))
    && forall i, j | 0 <= i < j < |s.keys| :: !SameName(s.keys[i].name, s.keys[j].name)
  }

  ghost predicate ProperDoc(doc: Doc, multiKey: bool) {
    && (forall i | 0 <= i < |doc.sections| :: ProperSection(doc.sections[i], multiKey))
    && forall i, j | 0 <= i < j < |doc.sections| :: !SameName(doc.sections[i].name, doc.sections[j].name)
  }

  lemma {:induction false} AddValues(st: Store, fc: Option<string>, ss: seq<DocSection>, s: string, c: Option<string>,
                                     ks: seq<DocKey>, k: DocKey, n: nat, multiKey: bool)
    requires Shows(st, fc, ss + [DocSection(s, c, ks)], multiKey) && NewName(ss, s) && NewKeyName(ks, k.name)
    requires ProperKey(k, multiKey) && 1 <= n <= |k.values|
    ensures Shows(AddAll(st, PairEntries(s, k.name, k.values[..n])), fc, ss + [DocSection(s, c, ks + [DocKey(k.name, k.values[..n])])], multiKey)
    decreases n
  {
    hide Sorted, OrdersOk, DocSections, AddEntry, AddAll, SameName;
    var v := k.values[n-1];
    assert k.values[..n] == k.values[..n-1] + [v];
    AddOne(st, PairEntries(s, k.name, k.values[..n-1]), Entry(s, Some((k.name, v.value)), v.comment));
    if n == 1 {
      assert AddAll(st, []) == st by { AddNothing(st); }
      AddNewKey(st, fc, ss, s, c, ks, k.name, v, multiKey);
    } else {
      AddValues(st, fc, ss, s, c, ks, k, n - 1, multiKey);
      AddNextValue(AddAll(st, PairEntries(s, k.name, k.values[..n-1])), fc, ss, s, c, ks, k.name, k.values[..n-1], v);
    }
  }

  lemma AddNothing(st: Store)
    requires Sorted(st)
    ensures AddAll(st, []) == st
  {
  }

  lemma {:induction false} AddKeys(st: Store, fc: Option<string>, ss: seq<DocSection>, s: DocSection, n: nat, multiKey: bool)
    requires Shows(st, fc, ss + [DocSection(s.name, s.comment, [])], multiKey) && NewName(ss, s.name)
    requires ProperSection(s, multiKey) && n <= |s.keys|
    ensures Shows(AddAll(st, KeyEntries(s.name, s.keys[..n])), fc, ss + [DocSection(s.name, s.comment, s.keys[..n])], multiKey)
    decreases n
  {
    hide Sorted, OrdersOk, DocSections, AddEntry, AddAll, SameName, PairEntries;
    if n == 0 {
      AddNothing(st);
    } else {
      var k := s.keys[n-1];
      assert s.keys[..n] == s.keys[..n-1] + [k];
      AddKeys(st, fc, ss, s, n - 1, multiKey);
      var st' := AddAll(st, KeyEntries(s.name, s.keys[..n-1]));
      AddAllAppend(st, KeyEntries(s.name, s.keys[..n-1]), PairEntries(s.name, k.name, k.values));
      assert ProperKey(k, multiKey);
      assert k.values[..|k.values|] == k.values;
      AddValues(st', fc, ss, s.name, s.comment, s.keys[..n-1], k, |k.values|, multiKey);
      assert k == DocKey(k.name, k.values);
    }
  }

  // A pair brings the section it needs, so a missing header before it makes no difference
  lemma PairBringsSection(st: Store, s: string, pair: (string, string), c: Option<string>, es: seq<Entry>)
    requires Sorted(st)
    ensures AddAll(st, [Entry(s, None, None)] + ([Entry(s, Some(pair), c)] + es)) == AddAll(st, [Entry(s, Some(pair), c)] + es)
  {
    hide Sorted, SetInSection, NameLess, Lower;
    var e := Entry(s, Some(pair), c);
    var st1 := AddEntry(st, s, None, None, false).0;
    WithSectionSorted(st, s, None);
    assert AddEntry(st1, s, Some(pair), c, false).0 == AddEntry(st, s, Some(pair), c, false).0;
    FirstOfAll(st, Entry(s, None, None), [e] + es);
    FirstOfAll(st1, e, es);
    FirstOfAll(st, e, es);
  }

  lemma FirstOfAll(st: Store, e: Entry, es: seq<Entry>)
    requires Sorted(st)
    ensures Sorted(AddEntry(st, e.section, e.pair, e.comment, false).0)
    ensures AddAll(st, [e] + es) == AddAll(AddEntry(st, e.section, e.pair, e.comment, false).0, es)
  {
    hide AddEntry, Sorted;
    AddEntrySorted(st, e.section, e.pair, e.comment, false);
    assert ([e] + es)[1..] == es;
  }

  lemma {:induction false} PairsStart(s: string, k: string, vs: seq<DocValue>)
    requires vs != []
    ensures PairEntries(s, k, vs) != [] && PairEntries(s, k, vs)[0] == Entry(s, Some((k, vs[0].value)), vs[0].comment)
    decreases |vs|
  {
    if |vs| > 1 {
      PairsStart(s, k, vs[..|vs|-1]);
    }
  }

  lemma {:induction false} KeysStart(s: string, ks: seq<DocKey>)
    requires ks != [] && ks[0].values != []
    ensures KeyEntries(s, ks) != [] && KeyEntries(s, ks)[0] == Entry(s, Some((ks[0].name, ks[0].values[0].value)), ks[0].values[0].comment)
    decreases |ks|
  {
    hide PairEntries;
    if |ks| > 1 {
      KeysStart(s, ks[..|ks|-1]);
    } else {
      assert KeyEntries(s, ks[..0]) == [];
      PairsStart(s, ks[0].name, ks[0].values);
    }
  }

  // With or without a '[' line of its own, a section that is printed is announced
  lemma HeaderMakesNoDifference(st: Store, s: DocSection, multiLine: bool)
    requires Sorted(st) && PlainSection(s, multiLine)
    ensures AddAll(st, SectionEntries(s)) == AddAll(st, [Entry(s.name, None, s.comment)] + KeyEntries(s.name, s.keys))
  {
    hide Sorted, AddAll, PlainValue, GoodKeyName, GoodSectionName, GoodComment, KeyEntries;
    if s.name == "" {
      assert PlainKey(s.keys[0], multiLine);
      KeysStart(s.name, s.keys);
      var es := KeyEntries(s.name, s.keys);
      assert es == [es[0]] + es[1..] && [] + es == es;
      PairBringsSection(st, s.name, es[0].pair.value, es[0].comment, es[1..]);
    }
  }

  lemma AddSection(st: Store, fc: Option<string>, ss: seq<DocSection>, s: DocSection, multiKey: bool, multiLine: bool)
    requires Shows(st, fc, ss, multiKey) && NewName(ss, s.name) && ProperSection(s, multiKey) && PlainSection(s, multiLine)
    ensures Shows(AddAll(st, SectionEntries(s)), fc, ss + [s], multiKey)
  {
    hide Sorted, OrdersOk, DocSections, AddEntry, AddAll, KeyEntries, SectionEntries;
    HeaderMakesNoDifference(st, s, multiLine);
    FirstOfAll(st, Entry(s.name, None, s.comment), KeyEntries(s.name, s.keys));
    AddHeader(st, fc, ss, s.name, s.comment, multiKey);
    assert s.keys[..|s.keys|] == s.keys && s == DocSection(s.name, s.comment, s.keys);
    AddKeys(AddEntry(st, s.name, None, s.comment, false).0, fc, ss, s, |s.keys|, multiKey);
  }

  lemma {:induction false} AddSections(st: Store, doc: Doc, n: nat, multiKey: bool, multiLine: bool)
    requires Shows(st, doc.fileComment, [], multiKey) && ProperDoc(doc, multiKey) && PlainDoc(doc, multiLine) && n <= |doc.sections|
    ensures Shows(AddAll(st, DocEntries(doc.sections[..n])), doc.fileComment, doc.sections[..n], multiKey)
    decreases n
  {
    hide Sorted, OrdersOk, DocSections, AddAll, SectionEntries, PlainSection, ProperSection, GoodFileComment;
    if n == 0 {
      AddNothing(st);
    } else {
      var s := doc.sections[n-1];
      assert doc.sections[..n] == doc.sections[..n-1] + [s];
      AddSections(st, doc, n - 1, multiKey, multiLine);
      AddAllAppend(st, DocEntries(doc.sections[..n-1]), SectionEntries(s));
      AddSection(AddAll(st, DocEntries(doc.sections[..n-1])), doc.fileComment, doc.sections[..n-1], s, multiKey, multiLine);
    }
  }

  lemma EmptyShows(fileComment: Option<string>, order: int, multiKey: bool)
    ensures Shows(Store([], fileComment, order, multiKey), fileComment, [], multiKey)
  {
  }

  // What the text of a document leaves of the parse: a file comment, then entries
  lemma LoadsEntries(doc: Doc, fmt: Format, order: int, multiKey: bool)
    requires PlainDoc(doc, fmt.multiLine)
    ensures Sorted(Store([], Reloaded(doc).fileComment, order, multiKey))
    ensures var blank, t := Store([], None, order, multiKey), DocText(doc, fmt);
            && Effective(t) == t && Clean(t, EntriesStart(blank, t), fmt.multiLine)
            && LoadText(blank, t, fmt.multiLine) == AddAll(Store([], Reloaded(doc).fileComment, order, multiKey), DocEntries(Reloaded(doc).sections))
  {
    hide AddAll, DocEntries, Entries, Clean, DocText, Effective, CommentBlock, PlainDoc, Join, Reloaded;
    ParseDoc(doc, fmt);
    EmptyShows(Reloaded(doc).fileComment, order, multiKey);
  }

  lemma ReloadedIsProper(doc: Doc, multiKey: bool)
    requires ProperDoc(doc, multiKey)
    ensures ProperDoc(Reloaded(doc), multiKey)
  {
    hide SameName, SplitLines, Join, ProperKey;
    if CommentLeads(doc) {
      assert ProperSection(doc.sections[0], multiKey);
    }
  }

  /**
    The parser inverts the printer: the text of any plain document, comments
    included, loaded into an empty store, shows the document again. Only a
    section's comment that the text starts with is turned into a file comment.
  */
  lemma LoadInvertsSave(doc: Doc, fmt: Format, order: int, multiKey: bool)
    requires PlainDoc(doc, fmt.multiLine) && ProperDoc(doc, multiKey)
    ensures var blank, t := Store([], None, order, multiKey), DocText(doc, fmt);
            && Effective(t) == t
            && Clean(t, EntriesStart(blank, t), fmt.multiLine)
            && DocOf(LoadText(blank, t, fmt.multiLine)) == Reloaded(doc)
            && (DocOf(LoadText(blank, t, fmt.multiLine)) == doc <==> !CommentLeads(doc))
  {
    hide Sorted, OrdersOk, DocSections, AddAll, DocEntries, Entries, Clean, DocText, Effective, CommentBlock, PlainDoc, ProperDoc, LoadText, Reloaded, CommentLeads;
    var doc' := Reloaded(doc);
    LoadsEntries(doc, fmt, order, multiKey);
    ReloadedIsPlain(doc, fmt.multiLine);
    ReloadedIsProper(doc, multiKey);
    EmptyShows(doc'.fileComment, order, multiKey);
    AddSections(Store([], doc'.fileComment, order, multiKey), doc', |doc'.sections|, multiKey, fmt.multiLine);
    assert doc'.sections[..|doc'.sections|] == doc'.sections;
  }

  lemma {:induction false} FileCommentStays(st: Store, es: seq<Entry>)
    requires Sorted(st)
    ensures AddAll(st, es).fileComment == st.fileComment && AddAll(st, es).multiKey == st.multiKey
    decreases |es|
  {
    hide AddEntry, Sorted;
    if es != [] {
      var e := es[0];
      AddEntrySorted(st, e.section, e.pair, e.comment, false);
      EntryKeepsFields(st, e);
      FileCommentStays(AddEntry(st, e.section, e.pair, e.comment, false).0, es[1..]);
    }
  }

  lemma EntryKeepsFields(st: Store, e: Entry)
    requires Sorted(st)
    ensures var st' := AddEntry(st, e.section, e.pair, e.comment, false).0; st'.multiKey == st.multiKey && st'.fileComment == st.fileComment
  {
    hide SetKey, Lower, NameLess;
    WithSectionSorted(st, e.section, None);
  }

  // ------------------------------------------------------------------
  // The document of a store

  ghost predicate NamesApart(s: seq<Item>) {
    forall i, j | 0 <= i < j < |s| :: !SameName(s[i].item, s[j].item)
  }

  ghost predicate ApartFrom(s: seq<Item>, k: string) {
    forall i | 0 <= i < |s| :: !SameName(s[i].item, k)
  }

  lemma ApartCons(x: Item, s: seq<Item>)
    requires NamesApart(s) && ApartFrom(s, x.item)
    ensures NamesApart([x] + s)
  {
    var r := [x] + s;
    forall i, j | 0 <= i < j < |r|
      ensures !SameName(r[i].item, r[j].item)
    {
      assert r[j] == s[j-1];
    }
  }

  lemma {:induction false} InsertKeepsApart(x: Item, s: seq<Item>, k: string)
    requires ApartFrom(s, k) && !SameName(x.item, k)
    ensures ApartFrom(InsertByOrder(x, s), k)
  {
    if s != [] && !(x.order < s[0].order) {
      InsertKeepsApart(x, s[1..], k);
    }
  }

  lemma {:induction false} InsertNamesApart(x: Item, s: seq<Item>)
    requires NamesApart(s) && ApartFrom(s, x.item)
    ensures NamesApart(InsertByOrder(x, s))
  {
    hide SameName;
    if s == [] || x.order < s[0].order {
      ApartCons(x, s);
    } else {
      InsertNamesApart(x, s[1..]);
      SameNameSymmetric(s[0].item, x.item);
      assert forall i | 0 <= i < |s[1..]| :: s[1..][i] == s[i+1];
      forall i | 0 <= i < |s[1..]|
        ensures !SameName(s[1..][i].item, s[0].item)
      {
        SameNameSymmetric(s[0].item, s[i+1].item);
      }
      InsertKeepsApart(x, s[1..], s[0].item);
      ApartCons(s[0], InsertByOrder(x, s[1..]));
    }
  }

  lemma {:induction false} SortKeepsApart(s: seq<Item>, k: string)
    requires ApartFrom(s, k)
    ensures ApartFrom(SortByOrder(s), k)
    decreases |s|
  {
    hide InsertByOrder;
    if s != [] {
      SortKeepsApart(s[..|s|-1], k);
      InsertKeepsApart(s[|s|-1], SortByOrder(s[..|s|-1]), k);
    }
  }

  lemma {:induction false} SortNamesApart(s: seq<Item>)
    requires NamesApart(s)
    ensures NamesApart(SortByOrder(s))
    decreases |s|
  {
    hide InsertByOrder, SameName;
    if s != [] {
      var p, x := s[..|s|-1], s[|s|-1];
      SortNamesApart(p);
      SortKeepsApart(p, x.item);
      InsertNamesApart(x, SortByOrder(p));
    }
  }

  lemma {:induction false} HeadsBelow(keys: seq<Key<string>>, k: string)
    requires Ascending(KeyNames(keys)) && (keys != [] ==> NameLess(keys[|keys|-1].name, k))
    ensures ApartFrom(Heads(keys), k)
    decreases |keys|
  {
    hide NameLess, SameName;
    var n := |keys| - 1;
    if keys != [] {
      var p := keys[..n];
      assert KeyNames(p) == KeyNames(keys)[..n];
      if n > 0 {
        assert !NameLess(KeyNames(keys)[n], KeyNames(keys)[n-1]);
        BelowStays(keys[n-1].name, keys[n].name, k);
      }
      HeadsBelow(p, k);
      NameTrichotomy(keys[n].name, k);
    }
  }

  lemma {:induction false} HeadsApart(keys: seq<Key<string>>)
    requires Ascending(KeyNames(keys))
    ensures NamesApart(Heads(keys))
    decreases |keys|
  {
    hide NameLess, SameName;
    var n := |keys| - 1;
    if keys != [] {
      var p := keys[..n];
      assert KeyNames(p) == KeyNames(keys)[..n];
      HeadsApart(p);
      if n == 0 || NameLess(keys[n-1].name, keys[n].name) {
        HeadsBelow(p, keys[n].name);
      }
    }
  }

  lemma DocKeysAreProper(keys: seq<Key<string>>, name: string, comment: Option<string>, multiKey: bool)
    requires Ascending(KeyNames(keys))
    ensures ProperSection(DocSection(name, comment, DocKeys(keys, multiKey)), multiKey)
  {
    hide Heads, SortByOrder, SameName, Matching;
    HeadsApart(keys);
    SortNamesApart(Heads(keys));
    forall i | 0 <= i < |DocKeys(keys, multiKey)|
      ensures ProperKey(DocKeys(keys, multiKey)[i], multiKey)
    {
      ListedKeyIsMatched(keys, i);
    }
  }

  lemma SectionItemsApart(st: Store)
    requires Sorted(st)
    ensures NamesApart(SectionItems(st.sections))
  {
    hide SameName, NameLess;
    var ns := SectionNames(st.sections);
    forall i, j | 0 <= i < j < |ns|
      ensures !SameName(ns[i], ns[j])
    {
      NameTrichotomy(ns[i], ns[j]);
    }
  }

  lemma KeysOfAscending(st: Store, s: string)
    requires Sorted(st)
    ensures Ascending(KeyNames(KeysOf(st, s)))
  {
    HasIsFound(st, s);
  }

  /** The document of any store names each section and each key once, and has one value per key unless keys repeat. */
  lemma StoreDocIsProper(st: Store)
    requires Sorted(st)
    ensures ProperDoc(DocOf(st), st.multiKey)
  {
    hide Sorted, SectionItems, SortByOrder, SameName, DocKeys, ProperSection, KeysOf;
    SectionItemsApart(st);
    SortNamesApart(SectionItems(st.sections));
    var names := SortByOrder(SectionItems(st.sections));
    forall i | 0 <= i < |names|
      ensures ProperSection(DocSections(st)[i], st.multiKey)
    {
      KeysOfAscending(st, names[i].item);
      DocKeysAreProper(KeysOf(st, names[i].item), names[i].item, names[i].comment, st.multiKey);
    }
  }

  /**
    Saving and loading preserves what a store shows, comments included, and
    saving again writes the same text, exactly when no comment of a section leads
    the text; it does after one round in any case.
  */
  lemma SaveLoadSave(st: Store, fmt: Format, order: int)
    requires Sorted(st) && PlainDoc(DocOf(st), fmt.multiLine)
    ensures var text := DocText(DocOf(st), fmt);
            var blank := Store([], None, order, st.multiKey);
            var st' := LoadText(blank, Effective(text), fmt.multiLine);
            && Clean(Effective(text), EntriesStart(blank, Effective(text)), fmt.multiLine)
            && DocOf(st') == Reloaded(DocOf(st)) && !CommentLeads(DocOf(st'))
            && (DocOf(st') == DocOf(st) <==> !CommentLeads(DocOf(st)))
            && (DocOf(st') == DocOf(st) ==> DocText(DocOf(st'), fmt) == text)
  {
    hide Sorted, LoadText, DocOf, DocText, Clean, Effective, EntriesStart, PlainDoc, ProperDoc, CommentLeads, Reloaded;
    StoreDocIsProper(st);
    ReloadedIsPlain(DocOf(st), fmt.multiLine);
    LoadInvertsSave(DocOf(st), fmt, order, st.multiKey);
  }
}
