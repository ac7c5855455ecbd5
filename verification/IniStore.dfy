/**
  The section and key tables of the INI engine as values: a map of sections and,
  per section, a multimap of keys, both ordered by case-folded name. find is the
  lower bound of a name, insert puts a key behind its equals.
*/
module IniStore {
  import opened Options
  import opened Lexicographic
  import opened IniText

  // One entry of a TKeyVal and of the TSection; P is what a name is: a string here, a pointer in module Ini
  datatype Key<P> = Key(name: P, comment: Option<P>, order: int, value: P)
  datatype Section<P> = Section(name: P, comment: Option<P>, order: int, keys: seq<Key<P>>)

  datatype Store = Store(sections: seq<Section<string>>, fileComment: Option<string>, order: int, multiKey: bool)

  // ------------------------------------------------------------------
  // Ordered name tables

  predicate Ascending(ns: seq<string>) {
    forall i, j | 0 <= i < j < |ns| :: !NameLess(ns[j], ns[i])
  }

  predicate StrictlyAscending(ns: seq<string>) {
    forall i, j | 0 <= i < j < |ns| :: NameLess(ns[i], ns[j])
  }

  function Lower(ns: seq<string>, k: string): (r: nat)
    ensures r <= |ns|
    ensures forall i | 0 <= i < r :: NameLess(ns[i], k)
    ensures r < |ns| ==> !NameLess(ns[r], k)
  {
    if ns == [] || !NameLess(ns[0], k) then 0 else 1 + Lower(ns[1..], k)
  }

  function Upper(ns: seq<string>, k: string): (r: nat)
    ensures r <= |ns|
    ensures forall i | 0 <= i < r :: !NameLess(k, ns[i])
    ensures r < |ns| ==> NameLess(k, ns[r])
  {
    if ns == [] || NameLess(k, ns[0]) then 0 else 1 + Upper(ns[1..], k)
  }

  predicate Has(ns: seq<string>, k: string) {
    Lower(ns, k) < |ns| && !NameLess(k, ns[Lower(ns, k)])
  }

  // In an ascending table the three zones of a name: below it, equal to it, above it
  lemma Zones(ns: seq<string>, k: string)
    requires Ascending(ns)
    ensures Lower(ns, k) <= Upper(ns, k)
    ensures forall i | Lower(ns, k) <= i < Upper(ns, k) :: SameName(ns[i], k)
    ensures forall i | Upper(ns, k) <= i < |ns| :: NameLess(k, ns[i])
    ensures Has(ns, k) <==> Lower(ns, k) < Upper(ns, k)
  {
    var l, u := Lower(ns, k), Upper(ns, k);
    if u < l {
      NameTrichotomy(ns[u], k);
    }
    forall i | l <= i < u
      ensures SameName(ns[i], k)
    {
      NameTrichotomy(ns[i], k);
      if NameLess(ns[i], k) && l < i {
        LessOrEqualThenLess(Fold(ns[l]), Fold(ns[i]), Fold(k));
      }
    }
    forall i | u <= i < |ns|
      ensures NameLess(k, ns[i])
    {
      if u < i {
        LessThenLessOrEqual(Fold(k), Fold(ns[u]), Fold(ns[i]));
      }
    }
  }

  ghost predicate NoneAbove(ns: seq<string>, k: string) {
    forall i | 0 <= i < |ns| :: !NameLess(k, ns[i])
  }

  ghost predicate NoneBelow(ns: seq<string>, k: string) {
    forall i | 0 <= i < |ns| :: !NameLess(ns[i], k)
  }

  lemma AscendingThree(a: seq<string>, k: string, b: seq<string>)
    requires Ascending(a) && Ascending(b) && NoneAbove(a, k) && NoneBelow(b, k)
    ensures Ascending(a + [k] + b)
  {
    var ns := a + [k] + b;
    forall i, j | 0 <= i < j < |ns|
      ensures !NameLess(ns[j], ns[i])
    {
      if i < |a| && j > |a| {
        var x, y := a[i], b[j - |a| - 1];
        NameTrichotomy(k, y);
        if NameLess(y, x) {
          LessOrEqualThenLess(Fold(k), Fold(y), Fold(x));
        }
      } else if i > |a| {
        assert !NameLess(b[j - |a| - 1], b[i - |a| - 1]);
      }
    }
  }

  lemma AscendingCut(ns: seq<string>, i: nat, j: nat)
    requires Ascending(ns) && i <= j <= |ns|
    ensures Ascending(ns[..i]) && Ascending(ns[j..]) && Ascending(ns[..i] + ns[j..])
  {
  }

  function KeyNames(keys: seq<Key<string>>): (ns: seq<string>)
    ensures |ns| == |keys| && forall i | 0 <= i < |keys| :: ns[i] == keys[i].name
  {
    seq(|keys|, i requires 0 <= i < |keys| => keys[i].name)
  }

  function SectionNames(sections: seq<Section<string>>): (ns: seq<string>)
    ensures |ns| == |sections| && forall i | 0 <= i < |sections| :: ns[i] == sections[i].name
  {
    seq(|sections|, i requires 0 <= i < |sections| => sections[i].name)
  }

  // ------------------------------------------------------------------
  // The operations

  function InsertKey(keys: seq<Key<string>>, key: Key<string>): seq<Key<string>> {
    var u := Upper(KeyNames(keys), key.name);
    keys[..u] + [key] + keys[u..]
  }

  function EraseKeys(keys: seq<Key<string>>, k: string): seq<Key<string>>
    requires Ascending(KeyNames(keys))
  {
    Zones(KeyNames(keys), k);
    keys[..Lower(KeyNames(keys), k)] + keys[Upper(KeyNames(keys), k)..]
  }

  // All entries of one key, in table order
  function KeyGroup(keys: seq<Key<string>>, k: string): (g: seq<Key<string>>)
    requires Ascending(KeyNames(keys))
    ensures g != [] <==> Has(KeyNames(keys), k)
  {
    Zones(KeyNames(keys), k);
    keys[Lower(KeyNames(keys), k)..Upper(KeyNames(keys), k)]
  }

  // The entry with the least load order
  function Oldest(g: seq<Key<string>>): (r: Key<string>)
    requires g != []
    ensures r in g && forall i | 0 <= i < |g| :: r.order <= g[i].order
  {
    if |g| == 1 then g[0]
    else
      var r, last := Oldest(g[..|g|-1]), g[|g|-1];
      assert forall i | 0 <= i < |g| - 1 :: g[..|g|-1][i] == g[i];
      if last.order < r.order then last else r
  }

  predicate CreatesKey(keys: seq<Key<string>>, k: string, multiKey: bool) {
    multiKey || !Has(KeyNames(keys), k)
  }

  // What setting a key does to the table of its section
  function SetKey(keys: seq<Key<string>>, k: string, v: string, comment: Option<string>, order: int, multiKey: bool, force: bool): seq<Key<string>>
    requires Ascending(KeyNames(keys))
  {
    if Has(KeyNames(keys), k) && multiKey && force then
      var eldest := Oldest(KeyGroup(keys, k));
      InsertKey(EraseKeys(keys, k), Key(k, if eldest.comment.Some? then eldest.comment else comment, eldest.order, v))
    else if CreatesKey(keys, k, multiKey) then
      InsertKey(keys, Key(k, comment, order, v))
    else
      var i := Lower(KeyNames(keys), k);
      keys[i := keys[i].(value := v)]
  }

  // The store with the section in it, created empty when it is new
  function WithSection(st: Store, s: string, comment: Option<string>): Store {
    var ns := SectionNames(st.sections);
    if Has(ns, s) then st
    else
      var i := Lower(ns, s);
      var section := Section(s, comment, st.order + 1, []);
      st.(sections := st.sections[..i] + [section] + st.sections[i..], order := st.order + 1)
  }

  function SetInSection(st: Store, i: nat, k: string, v: string, comment: Option<string>, force: bool): Store
    requires i < |st.sections| && Ascending(KeyNames(st.sections[i].keys))
  {
    var keys := SetKey(st.sections[i].keys, k, v, comment, st.order + 1, st.multiKey, force);
    st.(sections := st.sections[i := st.sections[i].(keys := keys)], order := st.order + 1)
  }

  ghost predicate KeysAscending(sections: seq<Section<string>>) {
    forall i | 0 <= i < |sections| :: Ascending(KeyNames(sections[i].keys))
  }

  ghost predicate Sorted(st: Store) {
    StrictlyAscending(SectionNames(st.sections)) && KeysAscending(st.sections)
  }

  lemma KeysSorted(st: Store, i: nat)
    requires Sorted(st) && i < |st.sections|
    ensures Ascending(KeyNames(st.sections[i].keys))
  {
  }

  lemma InsertKeySorted(keys: seq<Key<string>>, key: Key<string>)
    requires Ascending(KeyNames(keys))
    ensures Ascending(KeyNames(InsertKey(keys, key)))
  {
    var ns := KeyNames(keys);
    var u := Upper(ns, key.name);
    Zones(ns, key.name);
    assert NoneBelow(ns[u..], key.name) by {
      forall i | 0 <= i < |ns[u..]|
        ensures !NameLess(ns[u..][i], key.name)
      {
        NameTrichotomy(ns[u + i], key.name);
      }
    }
    AscendingCut(ns, u, u);
    AscendingThree(ns[..u], key.name, ns[u..]);
    assert KeyNames(InsertKey(keys, key)) == ns[..u] + [key.name] + ns[u..];
  }

  lemma EraseKeysSorted(keys: seq<Key<string>>, k: string)
    requires Ascending(KeyNames(keys))
    ensures Ascending(KeyNames(EraseKeys(keys, k)))
  {
    var ns := KeyNames(keys);
    Zones(ns, k);
    AscendingCut(ns, Lower(ns, k), Upper(ns, k));
    assert KeyNames(EraseKeys(keys, k)) == ns[..Lower(ns, k)] + ns[Upper(ns, k)..];
  }

  lemma SetKeySorted(keys: seq<Key<string>>, k: string, v: string, comment: Option<string>, order: int, multiKey: bool, force: bool)
    requires Ascending(KeyNames(keys))
    ensures Ascending(KeyNames(SetKey(keys, k, v, comment, order, multiKey, force)))
  {
    hide InsertKey, EraseKeys, NameLess, Lower, Upper;
    if Has(KeyNames(keys), k) && multiKey && force {
      var eldest := Oldest(KeyGroup(keys, k));
      EraseKeysSorted(keys, k);
      InsertKeySorted(EraseKeys(keys, k), Key(k, if eldest.comment.Some? then eldest.comment else comment, eldest.order, v));
    } else if CreatesKey(keys, k, multiKey) {
      InsertKeySorted(keys, Key(k, comment, order, v));
    } else {
      var i := Lower(KeyNames(keys), k);
      assert KeyNames(keys[i := keys[i].(value := v)]) == KeyNames(keys);
    }
  }

  lemma StrictIsAscending(ns: seq<string>)
    requires StrictlyAscending(ns)
    ensures Ascending(ns)
  {
    forall i, j | 0 <= i < j < |ns|
      ensures !NameLess(ns[j], ns[i])
    {
      NameTrichotomy(ns[i], ns[j]);
    }
  }

  lemma StrictThree(a: seq<string>, k: string, b: seq<string>)
    requires StrictlyAscending(a) && StrictlyAscending(b)
    requires forall i | 0 <= i < |a| :: NameLess(a[i], k)
    requires forall i | 0 <= i < |b| :: NameLess(k, b[i])
    ensures StrictlyAscending(a + [k] + b)
  {
    var ns := a + [k] + b;
    forall i, j | 0 <= i < j < |ns|
      ensures NameLess(ns[i], ns[j])
    {
      if i < |a| && j > |a| {
        Transitive(Fold(a[i]), Fold(k), Fold(b[j - |a| - 1]));
      } else if i > |a| {
        assert NameLess(b[i - |a| - 1], b[j - |a| - 1]);
      }
    }
  }

  lemma StrictInsert(ns: seq<string>, k: string)
    requires StrictlyAscending(ns) && !Has(ns, k)
    ensures var i := Lower(ns, k); StrictlyAscending(ns[..i] + [k] + ns[i..])
  {
    var i := Lower(ns, k);
    StrictIsAscending(ns);
    Zones(ns, k);
    assert i == Upper(ns, k);
    StrictThree(ns[..i], k, ns[i..]);
  }

  lemma WithSectionNames(st: Store, s: string, comment: Option<string>)
    requires StrictlyAscending(SectionNames(st.sections)) && !Has(SectionNames(st.sections), s)
    ensures var ns := SectionNames(WithSection(st, s, comment).sections); StrictlyAscending(ns) && Has(ns, s)
  {
    hide Lower, NameLess, StrictlyAscending;
    var ns := SectionNames(st.sections);
    var i := Lower(ns, s);
    StrictInsert(ns, s);
    InsertedIsFound(ns, s);
    assert SectionNames(WithSection(st, s, comment).sections) == ns[..i] + [s] + ns[i..];
  }

  lemma InsertKeepsKeysAscending(sections: seq<Section<string>>, i: nat, section: Section<string>)
    requires KeysAscending(sections) && i <= |sections| && section.keys == []
    ensures KeysAscending(sections[..i] + [section] + sections[i..])
  {
  }

  lemma WithSectionSorted(st: Store, s: string, comment: Option<string>)
    requires Sorted(st)
    ensures Sorted(WithSection(st, s, comment))
    ensures Has(SectionNames(WithSection(st, s, comment).sections), s)
  {
    hide Lower, NameLess, StrictlyAscending, Has, Ascending;
    if !Has(SectionNames(st.sections), s) {
      WithSectionNames(st, s, comment);
      InsertKeepsKeysAscending(st.sections, Lower(SectionNames(st.sections), s), Section(s, comment, st.order + 1, []));
    }
  }

  lemma InsertedIsFound(ns: seq<string>, k: string)
    requires StrictlyAscending(ns) && !Has(ns, k)
    ensures var i := Lower(ns, k);
            var ns' := ns[..i] + [k] + ns[i..];
            Lower(ns', k) == i && Has(ns', k)
  {
    var i := Lower(ns, k);
    var ns' := ns[..i] + [k] + ns[i..];
    NameTrichotomy(k, k);
    assert ns'[i] == k;
  }

  /** AddEntry: a pair with its section, or with no pair the section alone. The flag says whether anything was created. */
  ghost function AddEntry(st: Store, s: string, pair: Option<(string, string)>, comment: Option<string>, force: bool): (Store, bool)
    requires Sorted(st)
  {
    var isNew := !Has(SectionNames(st.sections), s);
    match pair
    case None => (WithSection(st, s, comment), isNew)
    case Some((k, v)) =>
      var st1 := WithSection(st, s, None);
      WithSectionSorted(st, s, None);
      var i := Lower(SectionNames(st1.sections), s);
      var created := CreatesKey(st1.sections[i].keys, k, st.multiKey);
      (SetInSection(st1, i, k, v, comment, force), isNew || created)
  }

  // A section without its key k, or without its keys altogether
  ghost function Delete(st: Store, s: string, key: Option<string>, removeEmpty: bool): (Store, bool)
    requires Sorted(st)
  {
    var ns := SectionNames(st.sections);
    var i := Lower(ns, s);
    if !Has(ns, s) then (st, false)
    else
      var without := st.(sections := st.sections[..i] + st.sections[i+1..]);
      match key
      case None => (without, true)
      case Some(k) =>
        var section := st.sections[i];
        if !Has(KeyNames(section.keys), k) then (st, false)
        else
          var keys := EraseKeys(section.keys, k);
          if removeEmpty && keys == [] then (without, true)
          else (st.(sections := st.sections[i := section.(keys := keys)]), true)
  }
}
