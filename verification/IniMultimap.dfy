/**
  The tables refine an ordered multimap: a name in any letter case leads to the
  list of its entries in order of insertion, and each operation changes the list
  of one name only.
*/
module IniMultimap {
  import opened Options
  import opened IniText
  import opened IniStore
  import IniParse

  /** The entries of one key among all, in table order. */
  ghost function Matching(keys: seq<Key<string>>, k: string): seq<Key<string>>
    decreases |keys|
  {
    if keys == [] then []
    else
      var last := keys[|keys|-1];
      Matching(keys[..|keys|-1], k) + (if SameName(last.name, k) then [last] else [])
  }

  lemma {:induction false} MatchingAppend(a: seq<Key<string>>, b: seq<Key<string>>, k: string)
    ensures Matching(a + b, k) == Matching(a, k) + Matching(b, k)
    decreases |b|
  {
    if b == [] {
      assert a + b == a;
    } else {
      MatchingAppend(a, b[..|b|-1], k);
      assert (a + b)[..|a + b| - 1] == a + b[..|b|-1];
    }
  }

  lemma {:induction false} MatchingUniform(keys: seq<Key<string>>, k: string)
    ensures (forall i | 0 <= i < |keys| :: SameName(keys[i].name, k)) ==> Matching(keys, k) == keys
    ensures (forall i | 0 <= i < |keys| :: !SameName(keys[i].name, k)) ==> Matching(keys, k) == []
    decreases |keys|
  {
    if keys != [] {
      MatchingUniform(keys[..|keys|-1], k);
      assert keys == keys[..|keys|-1] + [keys[|keys|-1]];
    }
  }

  lemma MatchingOne(key: Key<string>, k: string)
    ensures Matching([key], k) == if SameName(key.name, k) then [key] else []
  {
    assert [key][..0] == [];
  }

  lemma MatchingThree(a: seq<Key<string>>, key: Key<string>, b: seq<Key<string>>, k: string)
    ensures Matching(a + [key] + b, k) == Matching(a, k) + (if SameName(key.name, k) then [key] else []) + Matching(b, k)
  {
    MatchingAppend(a + [key], b, k);
    MatchingAppend(a, [key], k);
    MatchingOne(key, k);
  }

  lemma NoneMatch(keys: seq<Key<string>>, k: string)
    requires forall i | 0 <= i < |keys| :: NameLess(keys[i].name, k) || NameLess(k, keys[i].name)
    ensures Matching(keys, k) == []
  {
    forall i | 0 <= i < |keys|
      ensures !SameName(keys[i].name, k)
    {
      NameTrichotomy(keys[i].name, k);
    }
    MatchingUniform(keys, k);
  }

  lemma NothingBelow(keys: seq<Key<string>>, k: string)
    ensures Matching(keys[..Lower(KeyNames(keys), k)], k) == []
  {
    hide Lower, NameLess, Matching;
    var a := keys[..Lower(KeyNames(keys), k)];
    assert forall i | 0 <= i < |a| :: a[i].name == KeyNames(keys)[i];
    NoneMatch(a, k);
  }

  lemma NothingAbove(keys: seq<Key<string>>, k: string)
    requires Ascending(KeyNames(keys))
    ensures Matching(keys[Upper(KeyNames(keys), k)..], k) == []
  {
    hide Lower, Upper, NameLess, SameName, Matching, Ascending;
    Zones(KeyNames(keys), k);
    var u := Upper(KeyNames(keys), k);
    var b := keys[u..];
    assert forall i | 0 <= i < |b| :: b[i].name == KeyNames(keys)[u + i];
    NoneMatch(b, k);
  }

  lemma ZoneIsSame(keys: seq<Key<string>>, k: string)
    requires Ascending(KeyNames(keys))
    ensures Lower(KeyNames(keys), k) <= Upper(KeyNames(keys), k)
    ensures forall i | Lower(KeyNames(keys), k) <= i < Upper(KeyNames(keys), k) :: SameName(keys[i].name, k)
  {
    hide Lower, Upper, NameLess, SameName, Ascending;
    Zones(KeyNames(keys), k);
  }

  lemma CutThree<T>(s: seq<T>, l: nat, u: nat)
    requires l <= u <= |s|
    ensures s == s[..l] + s[l..u] + s[u..]
  {
  }

  // A table cut at the zone of a name: below and above nothing matches it, inside all do
  lemma CutAtZone(keys: seq<Key<string>>, k: string) returns (a: seq<Key<string>>, g: seq<Key<string>>, b: seq<Key<string>>)
    requires Ascending(KeyNames(keys))
    ensures a == keys[..Lower(KeyNames(keys), k)] && b == keys[Upper(KeyNames(keys), k)..]
    ensures keys == a + g + b && g == KeyGroup(keys, k)
    ensures Matching(a, k) == [] && Matching(b, k) == []
    ensures forall i | 0 <= i < |g| :: SameName(g[i].name, k)
  {
    hide Lower, Upper, NameLess, SameName, Matching, Ascending, KeyNames;
    var l, u := Lower(KeyNames(keys), k), Upper(KeyNames(keys), k);
    ZoneIsSame(keys, k);
    a, g, b := keys[..l], keys[l..u], keys[u..];
    CutThree(keys, l, u);
    NothingBelow(keys, k);
    NothingAbove(keys, k);
  }

  lemma MatchingParts(a: seq<Key<string>>, g: seq<Key<string>>, b: seq<Key<string>>, k: string)
    ensures Matching(a + g + b, k) == Matching(a, k) + Matching(g, k) + Matching(b, k)
  {
    MatchingAppend(a + g, b, k);
    MatchingAppend(a, g, k);
  }

  // Names that differ in letter case only match the same keys
  lemma {:induction false} MatchingSame(keys: seq<Key<string>>, k: string, k': string)
    requires SameName(k, k')
    ensures Matching(keys, k) == Matching(keys, k')
    decreases |keys|
  {
    if keys != [] {
      MatchingSame(keys[..|keys|-1], k, k');
    }
  }

  lemma MatchingGroup(g: seq<Key<string>>, k: string, k': string)
    requires forall i | 0 <= i < |g| :: SameName(g[i].name, k)
    ensures Matching(g, k') == if SameName(k, k') then g else []
  {
    MatchingUniform(g, k');
  }

  /** The zone that find leads to holds all entries of the key, and nothing else. */
  lemma GroupIsMatching(keys: seq<Key<string>>, k: string)
    requires Ascending(KeyNames(keys))
    ensures KeyGroup(keys, k) == Matching(keys, k)
  {
    hide Matching;
    var a, g, b := CutAtZone(keys, k);
    MatchingParts(a, g, b, k);
    MatchingGroup(g, k, k);
  }

  lemma InsertKeyMatching(keys: seq<Key<string>>, key: Key<string>, k: string)
    requires Ascending(KeyNames(keys))
    ensures Matching(InsertKey(keys, key), k) == Matching(keys, k) + if SameName(key.name, k) then [key] else []
  {
    hide Matching;
    var a, g, b := CutAtZone(keys, key.name);
    Zones(KeyNames(keys), key.name);
    assert InsertKey(keys, key) == a + g + [key] + b;
    MatchingThree(a + g, key, b, k);
    MatchingAppend(a + g, b, k);
    if SameName(key.name, k) {
      MatchingSame(b, key.name, k);
    }
  }

  lemma EraseKeysMatching(keys: seq<Key<string>>, k: string, k': string)
    requires Ascending(KeyNames(keys))
    ensures Matching(EraseKeys(keys, k), k') == if SameName(k, k') then [] else Matching(keys, k')
  {
    hide Matching;
    var a, g, b := CutAtZone(keys, k);
    MatchingAppend(a, b, k');
    MatchingParts(a, g, b, k');
    MatchingGroup(g, k, k');
    if SameName(k, k') {
      MatchingSame(a, k, k');
      MatchingSame(b, k, k');
    }
  }

  /** What writing a key does to the list of its entries. */
  ghost function Written(g: seq<Key<string>>, k: string, v: string, comment: Option<string>, order: int, multiKey: bool, force: bool): seq<Key<string>> {
    if g == [] then [Key(k, comment, order, v)]
    else if !multiKey then [g[0].(value := v)] + g[1..]
    else if !force then g + [Key(k, comment, order, v)]
    else
      var eldest := Oldest(g);
      [Key(k, if eldest.comment.Some? then eldest.comment else comment, eldest.order, v)]
  }

  /**
    Writing a key, said by what comes out: a first value makes the list; in
    single-key mode the value of the first entry changes; in multi-key mode an
    entry is added at the end, or takes the place of all others under the load
    order of the eldest, with the eldest's comment if that has one.
  */
  lemma WrittenIs(g: seq<Key<string>>, k: string, v: string, comment: Option<string>, order: int, multiKey: bool, force: bool)
    ensures var w := Written(g, k, v, comment, order, multiKey, force);
            && w != []
            && (g == [] ==> |w| == 1 && w[0].name == k && w[0].value == v && w[0].comment == comment && w[0].order == order)
            && (g != [] && !multiKey ==>
                  && |w| == |g| && w[1..] == g[1..]
                  && w[0].value == v && w[0].name == g[0].name && w[0].comment == g[0].comment && w[0].order == g[0].order)
            && (g != [] && multiKey && !force ==>
                  && |w| == |g| + 1 && w[..|g|] == g
                  && w[|g|].name == k && w[|g|].value == v && w[|g|].comment == comment && w[|g|].order == order)
            && (g != [] && multiKey && force ==>
                  && |w| == 1 && w[0].name == k && w[0].value == v && (forall i | 0 <= i < |g| :: w[0].order <= g[i].order)
                  && exists e | e in g :: e.order == w[0].order && w[0].comment == if e.comment == None then comment else e.comment)
  {
    if g != [] && multiKey && force {
      assert Oldest(g) in g;
    }
  }

  lemma OverwriteMatching(keys: seq<Key<string>>, k: string, v: string, k': string)
    requires Ascending(KeyNames(keys)) && Has(KeyNames(keys), k)
    ensures var i := Lower(KeyNames(keys), k);
            var m := Matching(keys, k');
            && (SameName(k, k') ==> m != [])
            && Matching(keys[i := keys[i].(value := v)], k') == if SameName(k, k') then [m[0].(value := v)] + m[1..] else m
  {
    hide Matching, Lower, Upper;
    var i := Lower(KeyNames(keys), k);
    var a, g, b := CutAtZone(keys, k);
    var g' := [g[0].(value := v)] + g[1..];
    assert keys[i := keys[i].(value := v)] == a + g' + b;
    MatchingParts(a, g, b, k');
    MatchingParts(a, g', b, k');
    MatchingGroup(g, k, k');
    MatchingGroup(g', k, k');
    if SameName(k, k') {
      MatchingSame(a, k, k');
      MatchingSame(b, k, k');
    }
  }

  lemma SetKeyMatching(keys: seq<Key<string>>, k: string, v: string, comment: Option<string>, order: int, multiKey: bool, force: bool, k': string)
    requires Ascending(KeyNames(keys))
    ensures Matching(SetKey(keys, k, v, comment, order, multiKey, force), k')
         == if SameName(k, k') then Written(Matching(keys, k'), k, v, comment, order, multiKey, force) else Matching(keys, k')
  {
    hide InsertKey, EraseKeys, Lower, Upper, Matching, Oldest, SameName;
    GroupIsMatching(keys, k);
    if SameName(k, k') {
      MatchingSame(keys, k, k');
    }
    if Has(KeyNames(keys), k) && multiKey && force {
      var eldest := Oldest(KeyGroup(keys, k));
      var key := Key(k, if eldest.comment.Some? then eldest.comment else comment, eldest.order, v);
      EraseKeysSorted(keys, k);
      InsertKeyMatching(EraseKeys(keys, k), key, k');
      EraseKeysMatching(keys, k, k');
    } else if CreatesKey(keys, k, multiKey) {
      InsertKeyMatching(keys, Key(k, comment, order, v), k');
    } else {
      OverwriteMatching(keys, k, v, k');
    }
  }

  // ------------------------------------------------------------------
  // Sections

  ghost function FindSection(sections: seq<Section<string>>, s: string): Option<Section<string>> {
    if sections == [] then None
    else if SameName(sections[0].name, s) then Some(sections[0])
    else FindSection(sections[1..], s)
  }

  lemma {:induction false} FindAppend(a: seq<Section<string>>, b: seq<Section<string>>, s: string)
    ensures FindSection(a + b, s) == if FindSection(a, s).Some? then FindSection(a, s) else FindSection(b, s)
  {
    if a == [] {
      assert a + b == b;
    } else {
      FindAppend(a[1..], b, s);
      assert (a + b)[1..] == a[1..] + b;
    }
  }

  lemma FindThree(a: seq<Section<string>>, section: Section<string>, b: seq<Section<string>>, s: string)
    ensures FindSection(a + [section] + b, s) ==
            if FindSection(a, s).Some? then FindSection(a, s)
            else if SameName(section.name, s) then Some(section)
            else FindSection(b, s)
  {
    FindAppend(a + [section], b, s);
    FindAppend(a, [section], s);
    assert [section][1..] == [];
  }

  lemma {:induction false} FindNone(sections: seq<Section<string>>, s: string)
    requires forall i | 0 <= i < |sections| :: NameLess(sections[i].name, s) || NameLess(s, sections[i].name)
    ensures FindSection(sections, s) == None
  {
    if sections != [] {
      NameTrichotomy(sections[0].name, s);
      FindNone(sections[1..], s);
    }
  }

  lemma NoSectionBelow(sections: seq<Section<string>>, s: string)
    ensures FindSection(sections[..Lower(SectionNames(sections), s)], s) == None
  {
    hide Lower, FindSection, NameLess;
    var a := sections[..Lower(SectionNames(sections), s)];
    assert forall j | 0 <= j < |a| :: a[j].name == SectionNames(sections)[j];
    FindNone(a, s);
  }

  lemma AboveSection(ns: seq<string>, s: string)
    requires StrictlyAscending(ns) && Has(ns, s)
    ensures SameName(ns[Lower(ns, s)], s)
    ensures forall j | Lower(ns, s) < j < |ns| :: NameLess(s, ns[j])
  {
    hide Lower, SameName, NameLess;
    var i := Lower(ns, s);
    StrictIsAscending(ns);
    Zones(ns, s);
    forall j | i < j < |ns|
      ensures NameLess(s, ns[j])
    {
      SameNameLess(ns[i], s, ns[j]);
    }
  }

  lemma NoSectionAbove(sections: seq<Section<string>>, s: string, from: nat)
    requires from <= |sections| && forall j | from <= j < |sections| :: NameLess(s, SectionNames(sections)[j])
    ensures FindSection(sections[from..], s) == None
  {
    hide FindSection, NameLess;
    var b := sections[from..];
    assert forall j | 0 <= j < |b| :: b[j].name == SectionNames(sections)[from + j];
    FindNone(b, s);
  }

  lemma CutOne<T>(s: seq<T>, i: nat)
    requires i < |s|
    ensures s == s[..i] + [s[i]] + s[i+1..]
  {
  }

  // A name that is in the table separates the sections below it from those above it
  lemma CutAtSection(sections: seq<Section<string>>, s: string)
    requires StrictlyAscending(SectionNames(sections)) && Has(SectionNames(sections), s)
    ensures var i := Lower(SectionNames(sections), s);
            && sections == sections[..i] + [sections[i]] + sections[i+1..]
            && SameName(sections[i].name, s)
            && FindSection(sections[..i], s) == None && FindSection(sections[i+1..], s) == None
            && FindSection(sections, s) == Some(sections[i])
  {
    hide Lower, FindSection, SameName, NameLess, StrictlyAscending;
    var i := Lower(SectionNames(sections), s);
    AboveSection(SectionNames(sections), s);
    NoSectionBelow(sections, s);
    NoSectionAbove(sections, s, i + 1);
    CutOne(sections, i);
    FindThree(sections[..i], sections[i], sections[i+1..], s);
  }

  lemma SameNameLess(a: string, b: string, c: string)
    requires SameName(a, b) && NameLess(a, c)
    ensures NameLess(b, c)
  {
  }

  lemma AboveGap(ns: seq<string>, s: string)
    requires StrictlyAscending(ns) && !Has(ns, s)
    ensures forall j | Lower(ns, s) <= j < |ns| :: NameLess(s, ns[j])
  {
    hide Lower, Upper, SameName, NameLess;
    StrictIsAscending(ns);
    Zones(ns, s);
  }

  lemma CutAtGap(sections: seq<Section<string>>, s: string)
    requires StrictlyAscending(SectionNames(sections)) && !Has(SectionNames(sections), s)
    ensures var i := Lower(SectionNames(sections), s);
            && sections == sections[..i] + sections[i..]
            && FindSection(sections[..i], s) == None && FindSection(sections[i..], s) == None
            && FindSection(sections, s) == None
  {
    hide Lower, FindSection, SameName, NameLess, StrictlyAscending;
    var i := Lower(SectionNames(sections), s);
    AboveGap(SectionNames(sections), s);
    NoSectionBelow(sections, s);
    NoSectionAbove(sections, s, i);
    assert sections == sections[..i] + sections[i..];
    FindAppend(sections[..i], sections[i..], s);
  }

  lemma {:induction false} FindSame(sections: seq<Section<string>>, s: string, s': string)
    requires SameName(s, s')
    ensures FindSection(sections, s) == FindSection(sections, s')
  {
    if sections != [] {
      FindSame(sections[1..], s, s');
    }
  }

  // Replacing the section of a name changes what that name finds, and nothing else
  lemma ReplaceSection(sections: seq<Section<string>>, s: string, section: Section<string>, s': string)
    requires StrictlyAscending(SectionNames(sections)) && Has(SectionNames(sections), s)
    requires section.name == sections[Lower(SectionNames(sections), s)].name
    ensures var i := Lower(SectionNames(sections), s);
            FindSection(sections[i := section], s') == if SameName(s, s') then Some(section) else FindSection(sections, s')
  {
    hide Lower, FindSection;
    var i := Lower(SectionNames(sections), s);
    CutAtSection(sections, s);
    assert sections[i := section] == sections[..i] + [section] + sections[i+1..];
    FindThree(sections[..i], section, sections[i+1..], s');
    FindThree(sections[..i], sections[i], sections[i+1..], s');
    if SameName(s, s') {
      FindSame(sections[..i], s, s');
    }
  }

  lemma InsertSection(sections: seq<Section<string>>, s: string, section: Section<string>, s': string)
    requires StrictlyAscending(SectionNames(sections)) && !Has(SectionNames(sections), s) && section.name == s
    ensures var i := Lower(SectionNames(sections), s);
            FindSection(sections[..i] + [section] + sections[i..], s') == if SameName(s, s') then Some(section) else FindSection(sections, s')
  {
    hide Lower, FindSection;
    var i := Lower(SectionNames(sections), s);
    CutAtGap(sections, s);
    FindThree(sections[..i], section, sections[i..], s');
    FindAppend(sections[..i], sections[i..], s');
    if SameName(s, s') {
      FindSame(sections[..i], s, s');
    }
  }

  lemma EraseSection(sections: seq<Section<string>>, s: string, s': string)
    requires StrictlyAscending(SectionNames(sections)) && Has(SectionNames(sections), s)
    ensures var i := Lower(SectionNames(sections), s);
            FindSection(sections[..i] + sections[i+1..], s') == if SameName(s, s') then None else FindSection(sections, s')
  {
    hide Lower, FindSection;
    var i := Lower(SectionNames(sections), s);
    CutAtSection(sections, s);
    FindThree(sections[..i], sections[i], sections[i+1..], s');
    FindAppend(sections[..i], sections[i+1..], s');
    if SameName(s, s') {
      FindSame(sections[..i], s, s');
      FindSame(sections[i+1..], s, s');
    }
  }

  // ------------------------------------------------------------------
  // The two writers

  /** The multimap: the entries that a section name and a key name lead to. */
  ghost function Values(st: Store, s: string, k: string): seq<Key<string>> {
    match FindSection(st.sections, s)
    case None => []
    case Some(section) => Matching(section.keys, k)
  }

  /** What GetValue answers: the first entry of the key. */
  ghost function Shown(st: Store, s: string, k: string): Option<string> {
    if Values(st, s, k) == [] then None else Some(Values(st, s, k)[0].value)
  }

  ghost predicate HasSection(st: Store, s: string) {
    FindSection(st.sections, s).Some?
  }

  ghost predicate SameHead(a: Section<string>, b: Section<string>) {
    a.name == b.name && a.comment == b.comment && a.order == b.order
  }

  lemma HasIsFound(st: Store, s: string)
    requires Sorted(st)
    ensures Has(SectionNames(st.sections), s) <==> HasSection(st, s)
    ensures Has(SectionNames(st.sections), s) ==> FindSection(st.sections, s) == Some(st.sections[Lower(SectionNames(st.sections), s)])
  {
    if Has(SectionNames(st.sections), s) {
      CutAtSection(st.sections, s);
    } else {
      CutAtGap(st.sections, s);
    }
  }

  lemma WithSectionFind(st: Store, s: string, comment: Option<string>, s': string)
    requires Sorted(st)
    ensures FindSection(WithSection(st, s, comment).sections, s')
         == if SameName(s, s') && !HasSection(st, s) then Some(Section(s, comment, st.order + 1, [])) else FindSection(st.sections, s')
  {
    hide Lower, FindSection, SameName;
    HasIsFound(st, s);
    if !Has(SectionNames(st.sections), s) {
      InsertSection(st.sections, s, Section(s, comment, st.order + 1, []), s');
    }
  }

  /** AddEntry writes the list of one key of one section and makes the section known; every other list is untouched. */
  lemma AddEntryIsMultimapWrite(st: Store, s: string, pair: Option<(string, string)>, comment: Option<string>, force: bool, s': string, k': string)
    requires Sorted(st)
    ensures var (st', created) := AddEntry(st, s, pair, comment, force);
            && (HasSection(st', s') <==> HasSection(st, s') || SameName(s, s'))
            && Values(st', s', k') ==
               (if pair.Some? && SameName(s, s') && SameName(pair.value.0, k')
                then Written(Values(st, s', k'), pair.value.0, pair.value.1, comment, st'.order, st.multiKey, force)
                else Values(st, s', k'))
            && (created <==> !HasSection(st, s) || (pair.Some? && (st.multiKey || Values(st, s, pair.value.0) == [])))
  {
    hide Lower, Upper, FindSection, SameName, SetKey, Matching, Written;
    HasIsFound(st, s);
    NothingMatches(k');
    if SameName(s, s') {
      FindSame(st.sections, s, s');
    }
    match pair {
      case None =>
        WithSectionFind(st, s, comment, s');
      case Some((k, v)) =>
        NothingMatches(k);
        var st1 := WithSection(st, s, None);
        WithSectionSorted(st, s, None);
        WithSectionFind(st, s, None, s');
        WithSectionFind(st, s, None, s);
        HasIsFound(st1, s);
        var i := Lower(SectionNames(st1.sections), s);
        var section := st1.sections[i];
        var keys := SetKey(section.keys, k, v, comment, st1.order + 1, st1.multiKey, force);
        ReplaceSection(st1.sections, s, section.(keys := keys), s');
        SetKeyMatching(section.keys, k, v, comment, st1.order + 1, st1.multiKey, force, k');
        GroupIsMatching(section.keys, k);
    }
  }

  /** A section keeps its spelling, comment and number; a new one is spelt as given, and takes the comment when it comes alone. */
  lemma AddEntryKeepsHeads(st: Store, s: string, pair: Option<(string, string)>, comment: Option<string>, force: bool, s': string)
    requires Sorted(st) && (HasSection(st, s') || SameName(s, s'))
    ensures var st' := AddEntry(st, s, pair, comment, force).0;
            && HasSection(st', s')
            && SameHead(FindSection(st'.sections, s').value,
                        if HasSection(st, s') then FindSection(st.sections, s').value
                        else Section(s, if pair.None? then comment else None, st.order + 1, []))
  {
    hide Lower, Upper, FindSection, SameName, SetKey, Matching;
    HasIsFound(st, s);
    if SameName(s, s') {
      FindSame(st.sections, s, s');
    }
    match pair {
      case None =>
        WithSectionFind(st, s, comment, s');
      case Some((k, v)) =>
        var st1 := WithSection(st, s, None);
        WithSectionSorted(st, s, None);
        WithSectionFind(st, s, None, s');
        WithSectionFind(st, s, None, s);
        HasIsFound(st1, s);
        var section := st1.sections[Lower(SectionNames(st1.sections), s)];
        ReplaceSection(st1.sections, s, section.(keys := SetKey(section.keys, k, v, comment, st1.order + 1, st1.multiKey, force)), s');
    }
  }

  lemma NothingMatches(k: string)
    ensures Matching([], k) == []
  {
  }

  /** Delete empties the list of one key, or of every key of a section; the section goes with its last key only on request. */
  lemma DeleteIsMultimapErase(st: Store, s: string, key: Option<string>, removeEmpty: bool, s': string, k': string)
    requires Sorted(st)
    ensures var (st', deleted) := Delete(st, s, key, removeEmpty);
            && (deleted <==> HasSection(st, s) && (key.Some? ==> Values(st, s, key.value) != []))
            && Values(st', s', k') ==
               (if deleted && SameName(s, s') && (key.Some? ==> SameName(key.value, k')) then [] else Values(st, s', k'))
            && (HasSection(st', s') <==>
                && HasSection(st, s')
                && (deleted && SameName(s, s') ==> key.Some? && !(removeEmpty && OnlyKey(FindSection(st.sections, s').value.keys, key.value))))
            && (HasSection(st', s') ==> SameHead(FindSection(st'.sections, s').value, FindSection(st.sections, s').value))
  {
    hide Lower, Upper, FindSection, SameName, EraseKeys, Matching;
    HasIsFound(st, s);
    if SameName(s, s') {
      FindSame(st.sections, s, s');
    }
    if Has(SectionNames(st.sections), s) {
      var i := Lower(SectionNames(st.sections), s);
      var section := st.sections[i];
      EraseSection(st.sections, s, s');
      if key.Some? {
        var k := key.value;
        ReplaceSection(st.sections, s, section.(keys := EraseKeys(section.keys, k)), s');
        EraseKeysMatching(section.keys, k, k');
        GroupIsMatching(section.keys, k);
        ErasedToNothing(section.keys, k, k');
      }
    }
  }

  // All keys of the table are the one named k
  ghost predicate OnlyKey(keys: seq<Key<string>>, k: string) {
    forall i | 0 <= i < |keys| :: SameName(keys[i].name, k)
  }

  lemma ErasedToNothing(keys: seq<Key<string>>, k: string, k': string)
    requires Ascending(KeyNames(keys))
    ensures EraseKeys(keys, k) == [] <==> OnlyKey(keys, k)
    ensures EraseKeys(keys, k) == [] ==> (Matching(keys, k') == if SameName(k, k') then keys else [])
  {
    hide Lower, Upper, SameName, Matching;
    var a, g, b := CutAtZone(keys, k);
    assert EraseKeys(keys, k) == a + b;
    if OnlyKey(keys, k) {
      OnlyKeyParts(a, g, b, k);
    }
    if a + b == [] {
      assert a == [] && b == [] && keys == g;
      MatchingGroup(g, k, k');
    }
  }

  lemma OnlyKeyParts(a: seq<Key<string>>, g: seq<Key<string>>, b: seq<Key<string>>, k: string)
    requires OnlyKey(a + g + b, k) && Matching(a, k) == [] && Matching(b, k) == []
    ensures a == [] && b == []
  {
    hide Matching;
    var keys := a + g + b;
    assert forall i | 0 <= i < |a| :: a[i] == keys[i];
    assert forall i | 0 <= i < |b| :: b[i] == keys[|a| + |g| + i];
    MatchingGroup(a, k, k);
    MatchingGroup(b, k, k);
  }

  // ------------------------------------------------------------------
  // Load orders

  ghost function KeyOrders(keys: seq<Key<string>>): multiset<int>
    decreases |keys|
  {
    if keys == [] then multiset{} else KeyOrders(keys[..|keys|-1]) + multiset{keys[|keys|-1].order}
  }

  /** All load orders in use, those of sections and those of keys. */
  ghost function Orders(sections: seq<Section<string>>): multiset<int>
    decreases |sections|
  {
    if sections == [] then multiset{}
    else
      var last := sections[|sections|-1];
      Orders(sections[..|sections|-1]) + multiset{last.order} + KeyOrders(last.keys)
  }

  lemma KeyOrdersSnoc(p: seq<Key<string>>, key: Key<string>)
    ensures KeyOrders(p + [key]) == KeyOrders(p) + multiset{key.order}
  {
    assert (p + [key])[..|p|] == p;
  }

  lemma OrdersSnoc(p: seq<Section<string>>, section: Section<string>)
    ensures Orders(p + [section]) == Orders(p) + multiset{section.order} + KeyOrders(section.keys)
  {
    hide KeyOrders;
    assert (p + [section])[..|p|] == p;
  }

  lemma AppendLast<T>(a: seq<T>, p: seq<T>, x: T)
    ensures a + (p + [x]) == (a + p) + [x]
  {
  }

  lemma SumAssociates(a: multiset<int>, b: multiset<int>, c: multiset<int>, d: multiset<int>)
    ensures (a + b) + c == a + (b + c) && (a + b) + c + d == a + (b + c + d)
  {
  }

  lemma {:induction false} KeyOrdersAppend(a: seq<Key<string>>, b: seq<Key<string>>)
    ensures KeyOrders(a + b) == KeyOrders(a) + KeyOrders(b)
    decreases |b|
  {
    hide *;
    if b == [] {
      assert a + b == a;
      NoKeys();
    } else {
      var p, x := b[..|b|-1], b[|b|-1];
      assert b == p + [x];
      AppendLast(a, p, x);
      KeyOrdersAppend(a, p);
      KeyOrdersSnoc(a + p, x);
      KeyOrdersSnoc(p, x);
      SumAssociates(KeyOrders(a), KeyOrders(p), multiset{x.order}, multiset{});
    }
  }

  lemma {:induction false} OrdersAppend(a: seq<Section<string>>, b: seq<Section<string>>)
    ensures Orders(a + b) == Orders(a) + Orders(b)
    decreases |b|
  {
    hide *;
    if b == [] {
      assert a + b == a;
      NoSections();
    } else {
      var p, x := b[..|b|-1], b[|b|-1];
      assert b == p + [x];
      AppendLast(a, p, x);
      OrdersAppend(a, p);
      OrdersSnoc(a + p, x);
      OrdersSnoc(p, x);
      SumAssociates(Orders(a), Orders(p), multiset{x.order}, KeyOrders(x.keys));
    }
  }

  lemma NoSections()
    ensures Orders([]) == multiset{}
  {
  }

  lemma KeyOrdersThree(a: seq<Key<string>>, key: Key<string>, b: seq<Key<string>>)
    ensures KeyOrders(a + [key] + b) == KeyOrders(a + b) + multiset{key.order}
  {
    KeyOrdersAppend(a + [key], b);
    KeyOrdersAppend(a, [key]);
    KeyOrdersAppend(a, b);
    assert [key][..0] == [];
  }

  lemma OrdersThree(a: seq<Section<string>>, section: Section<string>, b: seq<Section<string>>)
    ensures Orders(a + [section] + b) == Orders(a + b) + multiset{section.order} + KeyOrders(section.keys)
  {
    OrdersAppend(a + [section], b);
    OrdersAppend(a, [section]);
    OrdersAppend(a, b);
    assert [section][..0] == [];
  }

  ghost predicate Increasing(g: seq<Key<string>>) {
    forall i, j | 0 <= i < j < |g| :: g[i].order < g[j].order
  }

  // A section's own number is below those of its keys; inside one key's list numbers increase
  ghost predicate SectionOrdersOk(section: Section<string>) {
    && (forall o | o in KeyOrders(section.keys) :: section.order < o)
    && forall k :: Increasing(Matching(section.keys, k))
  }

  ghost predicate Distinct(m: multiset<int>) {
    forall o :: m[o] <= 1
  }

  lemma StaysDistinct(m: multiset<int>, unused: int, m': multiset<int>)
    requires Distinct(m) && unused !in m && m' <= m + multiset{unused}
    ensures Distinct(m')
    ensures forall o | o in m' :: o in m || o == unused
  {
    forall o
      ensures m'[o] <= 1
    {
      assert m'[o] <= (m + multiset{unused})[o];
    }
    forall o | o in m'
      ensures o in m || o == unused
    {
      assert o in m + multiset{unused};
    }
  }

  /** Live order numbers are distinct and at most the counter. */
  ghost predicate OrdersOk(st: Store) {
    && (forall o | o in Orders(st.sections) :: o <= st.order)
    && Distinct(Orders(st.sections))
    && forall i | 0 <= i < |st.sections| :: SectionOrdersOk(st.sections[i])
  }

  lemma {:induction false} KeyOrderIn(keys: seq<Key<string>>, i: nat)
    requires i < |keys|
    ensures keys[i].order in KeyOrders(keys)
  {
    assert keys == keys[..i] + [keys[i]] + keys[i+1..];
    KeyOrdersThree(keys[..i], keys[i], keys[i+1..]);
  }

  lemma {:induction false} MatchingOrders(keys: seq<Key<string>>, k: string)
    ensures KeyOrders(Matching(keys, k)) <= KeyOrders(keys)
    decreases |keys|
  {
    if keys != [] {
      MatchingOrders(keys[..|keys|-1], k);
      var last := keys[|keys|-1];
      KeyOrdersAppend(Matching(keys[..|keys|-1], k), if SameName(last.name, k) then [last] else []);
      assert [last][..0] == [];
    }
  }

  lemma InsertKeyOrders(keys: seq<Key<string>>, key: Key<string>)
    ensures KeyOrders(InsertKey(keys, key)) == KeyOrders(keys) + multiset{key.order}
  {
    var u := Upper(KeyNames(keys), key.name);
    KeyOrdersThree(keys[..u], key, keys[u..]);
    assert keys == keys[..u] + keys[u..];
  }

  // The numbers of a group leave with it
  lemma EraseKeysOrders(keys: seq<Key<string>>, k: string)
    requires Ascending(KeyNames(keys))
    ensures KeyOrders(keys) == KeyOrders(EraseKeys(keys, k)) + KeyOrders(KeyGroup(keys, k))
  {
    hide KeyOrders, Lower, Upper, Ascending, KeyNames, KeyGroup, Matching;
    var a, g, b := CutAtZone(keys, k);
    KeyOrdersAppend(a, b);
    KeyOrdersAppend(a + g, b);
    KeyOrdersAppend(a, g);
  }

  /** Setting a key uses no number but those already there and the new one. */
  lemma SetKeyOrders(keys: seq<Key<string>>, k: string, v: string, comment: Option<string>, order: int, multiKey: bool, force: bool)
    requires Ascending(KeyNames(keys))
    ensures KeyOrders(SetKey(keys, k, v, comment, order, multiKey, force)) <= KeyOrders(keys) + multiset{order}
  {
    hide KeyOrders, InsertKey, EraseKeys, Lower, Upper, NameLess;
    if Has(KeyNames(keys), k) && multiKey && force {
      var g := KeyGroup(keys, k);
      var eldest := Oldest(g);
      EraseKeysOrders(keys, k);
      var i :| 0 <= i < |g| && g[i] == eldest;
      KeyOrderIn(g, i);
      InsertKeyOrders(EraseKeys(keys, k), Key(k, if eldest.comment.Some? then eldest.comment else comment, eldest.order, v));
    } else if CreatesKey(keys, k, multiKey) {
      InsertKeyOrders(keys, Key(k, comment, order, v));
    } else {
      var i := Lower(KeyNames(keys), k);
      assert keys == keys[..i] + [keys[i]] + keys[i+1..];
      assert keys[i := keys[i].(value := v)] == keys[..i] + [keys[i].(value := v)] + keys[i+1..];
      KeyOrdersThree(keys[..i], keys[i], keys[i+1..]);
      KeyOrdersThree(keys[..i], keys[i].(value := v), keys[i+1..]);
    }
  }

  lemma WrittenIncreasing(g: seq<Key<string>>, k: string, v: string, comment: Option<string>, order: int, multiKey: bool, force: bool)
    requires Increasing(g) && forall i | 0 <= i < |g| :: g[i].order < order
    ensures Increasing(Written(g, k, v, comment, order, multiKey, force))
  {
  }

  lemma OrdersBelow(keys: seq<Key<string>>, k: string, bound: int)
    requires forall o | o in KeyOrders(keys) :: o <= bound
    ensures var g := Matching(keys, k); forall i | 0 <= i < |g| :: g[i].order <= bound
  {
    var g := Matching(keys, k);
    MatchingOrders(keys, k);
    forall i | 0 <= i < |g|
      ensures g[i].order <= bound
    {
      KeyOrderIn(g, i);
    }
  }

  lemma SetKeySectionOrders(section: Section<string>, k: string, v: string, comment: Option<string>, order: int, multiKey: bool, force: bool)
    requires Ascending(KeyNames(section.keys)) && SectionOrdersOk(section)
    requires section.order < order && forall o | o in KeyOrders(section.keys) :: o < order
    ensures SectionOrdersOk(section.(keys := SetKey(section.keys, k, v, comment, order, multiKey, force)))
  {
    hide SetKey, Matching, KeyOrders, Written, SameName;
    var keys := SetKey(section.keys, k, v, comment, order, multiKey, force);
    SetKeyOrders(section.keys, k, v, comment, order, multiKey, force);
    forall k'
      ensures Increasing(Matching(keys, k'))
    {
      SetKeyMatching(section.keys, k, v, comment, order, multiKey, force, k');
      OrdersBelow(section.keys, k', order - 1);
      WrittenIncreasing(Matching(section.keys, k'), k, v, comment, order, multiKey, force);
    }
  }

  // One section set apart: the numbers of the others, and its own
  lemma OrdersAt(sections: seq<Section<string>>, i: nat, section: Section<string>)
    requires i < |sections|
    ensures var others := Orders(sections[..i] + sections[i+1..]);
            && Orders(sections) == others + multiset{sections[i].order} + KeyOrders(sections[i].keys)
            && Orders(sections[i := section]) == others + multiset{section.order} + KeyOrders(section.keys)
  {
    assert sections == sections[..i] + [sections[i]] + sections[i+1..];
    assert sections[i := section] == sections[..i] + [section] + sections[i+1..];
    OrdersThree(sections[..i], sections[i], sections[i+1..]);
    OrdersThree(sections[..i], section, sections[i+1..]);
  }

  lemma WithSectionKeepsOrders(st: Store, s: string, comment: Option<string>)
    requires Sorted(st) && OrdersOk(st)
    ensures OrdersOk(WithSection(st, s, comment))
  {
    hide Orders, KeyOrders, Lower, NameLess, Matching;
    var st' := WithSection(st, s, comment);
    if !Has(SectionNames(st.sections), s) {
      var i := Lower(SectionNames(st.sections), s);
      var section := Section(s, comment, st.order + 1, []);
      assert st.sections == st.sections[..i] + st.sections[i..];
      OrdersThree(st.sections[..i], section, st.sections[i..]);
      NoKeys();
      assert SectionOrdersOk(section) by {
        forall k ensures Matching([], k) == [] { NothingMatches(k); }
      }
    }
  }

  lemma NoKeys()
    ensures KeyOrders([]) == multiset{}
  {
  }

  lemma SetInSectionKeepsOrders(st: Store, i: nat, k: string, v: string, comment: Option<string>, force: bool)
    requires Sorted(st) && OrdersOk(st) && i < |st.sections|
    ensures OrdersOk(SetInSection(st, i, k, v, comment, force))
  {
    hide Orders, KeyOrders, SetKey, NameLess, Matching;
    var section := st.sections[i];
    var section' := section.(keys := SetKey(section.keys, k, v, comment, st.order + 1, st.multiKey, force));
    OrdersAt(st.sections, i, section');
    SetKeyOrders(section.keys, k, v, comment, st.order + 1, st.multiKey, force);
    assert section.order in Orders(st.sections);
    assert forall o | o in KeyOrders(section.keys) :: o in Orders(st.sections);
    StaysDistinct(Orders(st.sections), st.order + 1, Orders(st.sections[i := section']));
    SetKeySectionOrders(section, k, v, comment, st.order + 1, st.multiKey, force);
  }

  lemma AddEntrySorted(st: Store, s: string, pair: Option<(string, string)>, comment: Option<string>, force: bool)
    requires Sorted(st)
    ensures Sorted(AddEntry(st, s, pair, comment, force).0)
  {
    hide SetKey, NameLess, Lower;
    match pair {
      case None =>
        WithSectionSorted(st, s, comment);
      case Some((k, v)) =>
        var st1 := WithSection(st, s, None);
        WithSectionSorted(st, s, None);
        var i := Lower(SectionNames(st1.sections), s);
        SetKeySorted(st1.sections[i].keys, k, v, comment, st1.order + 1, st1.multiKey, force);
        SameNamesSorted(st1, i, st1.sections[i].(keys := SetKey(st1.sections[i].keys, k, v, comment, st1.order + 1, st1.multiKey, force)));
    }
  }

  /** AddEntry keeps the tables sorted and the load-order invariant. */
  lemma AddEntryKeepsOrders(st: Store, s: string, pair: Option<(string, string)>, comment: Option<string>, force: bool)
    requires Sorted(st) && OrdersOk(st)
    ensures var st' := AddEntry(st, s, pair, comment, force).0; Sorted(st') && OrdersOk(st')
  {
    hide OrdersOk, SetKey, NameLess, Lower;
    AddEntrySorted(st, s, pair, comment, force);
    match pair {
      case None =>
        WithSectionKeepsOrders(st, s, comment);
      case Some((k, v)) =>
        var st1 := WithSection(st, s, None);
        WithSectionSorted(st, s, None);
        WithSectionKeepsOrders(st, s, None);
        SetInSectionKeepsOrders(st1, Lower(SectionNames(st1.sections), s), k, v, comment, force);
    }
  }

  lemma SameNamesSorted(st: Store, i: nat, section: Section<string>)
    requires Sorted(st) && i < |st.sections| && section.name == st.sections[i].name && Ascending(KeyNames(section.keys))
    ensures Sorted(st.(sections := st.sections[i := section]))
  {
    assert SectionNames(st.sections[i := section]) == SectionNames(st.sections);
  }

  lemma EraseSectionSorted(st: Store, i: nat)
    requires Sorted(st) && i < |st.sections|
    ensures Sorted(st.(sections := st.sections[..i] + st.sections[i+1..]))
  {
    var ns := SectionNames(st.sections);
    assert SectionNames(st.sections[..i] + st.sections[i+1..]) == ns[..i] + ns[i+1..];
  }

  lemma EraseSectionOrders(st: Store, i: nat)
    requires OrdersOk(st) && i < |st.sections|
    ensures OrdersOk(st.(sections := st.sections[..i] + st.sections[i+1..]))
  {
    hide Orders, KeyOrders, Matching;
    OrdersAt(st.sections, i, st.sections[i]);
    StaysDistinct(Orders(st.sections), st.order + 1, Orders(st.sections[..i] + st.sections[i+1..]));
  }

  lemma EraseInSectionOrders(st: Store, i: nat, k: string)
    requires Sorted(st) && OrdersOk(st) && i < |st.sections|
    ensures OrdersOk(st.(sections := st.sections[i := st.sections[i].(keys := EraseKeys(st.sections[i].keys, k))]))
  {
    hide Orders, KeyOrders, Matching, EraseKeys, NameLess;
    var section := st.sections[i];
    var section' := section.(keys := EraseKeys(section.keys, k));
    OrdersAt(st.sections, i, section');
    EraseKeysOrders(section.keys, k);
    StaysDistinct(Orders(st.sections), st.order + 1, Orders(st.sections[i := section']));
    assert forall o | o in KeyOrders(section'.keys) :: o in KeyOrders(section.keys);
    forall k'
      ensures Increasing(Matching(section'.keys, k'))
    {
      EraseKeysMatching(section.keys, k, k');
    }
  }

  /** Delete keeps the tables sorted and the load-order invariant. */
  lemma DeleteKeepsOrders(st: Store, s: string, key: Option<string>, removeEmpty: bool)
    requires Sorted(st) && OrdersOk(st)
    ensures var st' := Delete(st, s, key, removeEmpty).0; Sorted(st') && OrdersOk(st')
  {
    hide OrdersOk, EraseKeys, NameLess, Lower;
    if Has(SectionNames(st.sections), s) {
      var i := Lower(SectionNames(st.sections), s);
      EraseSectionSorted(st, i);
      EraseSectionOrders(st, i);
      if key.Some? {
        EraseInSectionOrders(st, i, key.value);
        EraseKeysSorted(st.sections[i].keys, key.value);
        SameNamesSorted(st, i, st.sections[i].(keys := EraseKeys(st.sections[i].keys, key.value)));
      }
    }
  }

  // ------------------------------------------------------------------
  // Loading

  /** Load adds the entries of the text one by one. */
  ghost function AddAll(st: Store, es: seq<IniParse.Entry>): (r: Store)
    requires Sorted(st)
    ensures Sorted(r)
    decreases |es|
  {
    if es == [] then st
    else
      AddEntrySorted(st, es[0].section, es[0].pair, es[0].comment, false);
      AddAll(AddEntry(st, es[0].section, es[0].pair, es[0].comment, false).0, es[1..])
  }

  /** Load of the text t: the leading comment becomes the file comment unless there is one, then all entries are added. */
  ghost function LoadText(st: Store, t: string, multiLine: bool): Store
    requires Sorted(st)
  {
    AddAll(WithFileComment(st, t), IniParse.Entries(t, EntriesStart(st, t), "", multiLine))
  }

  ghost function WithFileComment(st: Store, t: string): Store {
    var block := IniParse.CommentBlock(t, 0, false);
    if st.fileComment.Some? || block.lines == [] then st else st.(fileComment := Some(Join(block.lines)))
  }

  ghost function EntriesStart(st: Store, t: string): (i: nat)
    ensures i <= |t|
  {
    if st.fileComment.Some? then 0 else IniParse.CommentBlock(t, 0, false).next
  }
}
