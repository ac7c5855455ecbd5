/**
  Where the strings of the store live. Every name, value and comment of the
  tables is a pointer: into the loaded text, to a string that was copied and is
  owned by the string list, or to a static empty string.

  Ownership is accounted for with multisets of pointers: those that the tables
  hold, and those that a running operation holds beside them.
*/
module IniMemory {
  import opened Options
  import opened IniText
  import opened IniStore
  import opened IniScan

  // Data: an offset into m_pData. Owned: a block in m_strings. Caller: memory of the caller, never stored.
  datatype Ptr = Data(off: nat) | Owned(id: nat) | Static | Caller(text: string)

  // data is the content of m_pData; strings are the blocks in m_strings by address, and addresses
  // from next on are unused
  datatype Db = Db(sections: seq<Section<Ptr>>, fileComment: Option<Ptr>, order: int, multiKey: bool,
                   data: seq<char>, strings: map<nat, string>, next: nat)

  /** What a pointer reads. */
  function Text(p: Ptr, data: seq<char>, strings: map<nat, string>): string {
    match p
    case Data(off) => if off <= |data| then CStr(data, off) else ""
    case Owned(id) => if id in strings then strings[id] else ""
    case Static => ""
    case Caller(s) => s
  }

  function TextOf(p: Option<Ptr>, data: seq<char>, strings: map<nat, string>): Option<string> {
    if p.Some? then Some(Text(p.value, data, strings)) else None
  }

  function TextKey(k: Key<Ptr>, data: seq<char>, strings: map<nat, string>): Key<string> {
    Key(Text(k.name, data, strings), TextOf(k.comment, data, strings), k.order, Text(k.value, data, strings))
  }

  function TextKeys(keys: seq<Key<Ptr>>, data: seq<char>, strings: map<nat, string>): (r: seq<Key<string>>)
    ensures |r| == |keys| && forall i | 0 <= i < |keys| :: r[i] == TextKey(keys[i], data, strings)
  {
    seq(|keys|, i requires 0 <= i < |keys| => TextKey(keys[i], data, strings))
  }

  function TextSection(s: Section<Ptr>, data: seq<char>, strings: map<nat, string>): Section<string> {
    Section(Text(s.name, data, strings), TextOf(s.comment, data, strings), s.order, TextKeys(s.keys, data, strings))
  }

  function TextSections(ss: seq<Section<Ptr>>, data: seq<char>, strings: map<nat, string>): (r: seq<Section<string>>)
    ensures |r| == |ss| && forall i | 0 <= i < |ss| :: r[i] == TextSection(ss[i], data, strings)
  {
    seq(|ss|, i requires 0 <= i < |ss| => TextSection(ss[i], data, strings))
  }

  /** The store that the pointers spell out. */
  function Model(db: Db): Store {
    Store(TextSections(db.sections, db.data, db.strings), TextOf(db.fileComment, db.data, db.strings), db.order, db.multiKey)
  }

  // ------------------------------------------------------------------
  // The pointers that the tables hold

  ghost function Held(p: Option<Ptr>): multiset<Ptr> {
    if p.Some? then multiset{p.value} else multiset{}
  }

  ghost function KeyPtrs(k: Key<Ptr>): multiset<Ptr> {
    multiset{k.name} + multiset{k.value} + Held(k.comment)
  }

  ghost function KeysPtrs(keys: seq<Key<Ptr>>): multiset<Ptr>
    decreases |keys|
  {
    if keys == [] then multiset{} else KeysPtrs(keys[..|keys|-1]) + KeyPtrs(keys[|keys|-1])
  }

  ghost function SectionPtrs(s: Section<Ptr>): multiset<Ptr> {
    multiset{s.name} + Held(s.comment) + KeysPtrs(s.keys)
  }

  ghost function SectionsPtrs(ss: seq<Section<Ptr>>): multiset<Ptr>
    decreases |ss|
  {
    if ss == [] then multiset{} else SectionsPtrs(ss[..|ss|-1]) + SectionPtrs(ss[|ss|-1])
  }

  ghost function Ptrs(db: Db): multiset<Ptr> {
    SectionsPtrs(db.sections) + Held(db.fileComment)
  }

  lemma {:induction false} KeysPtrsAppend(a: seq<Key<Ptr>>, b: seq<Key<Ptr>>)
    ensures KeysPtrs(a + b) == KeysPtrs(a) + KeysPtrs(b)
    decreases |b|
  {
    hide KeyPtrs;
    if b == [] {
      assert a + b == a;
    } else {
      KeysPtrsAppend(a, b[..|b|-1]);
      assert (a + b)[..|a + b| - 1] == a + b[..|b|-1];
    }
  }

  lemma {:induction false} SectionsPtrsAppend(a: seq<Section<Ptr>>, b: seq<Section<Ptr>>)
    ensures SectionsPtrs(a + b) == SectionsPtrs(a) + SectionsPtrs(b)
    decreases |b|
  {
    hide SectionPtrs;
    if b == [] {
      assert a + b == a;
    } else {
      SectionsPtrsAppend(a, b[..|b|-1]);
      assert (a + b)[..|a + b| - 1] == a + b[..|b|-1];
    }
  }

  lemma KeysPtrsThree(a: seq<Key<Ptr>>, k: Key<Ptr>, b: seq<Key<Ptr>>)
    ensures KeysPtrs(a + [k] + b) == KeysPtrs(a + b) + KeyPtrs(k)
  {
    KeysPtrsAppend(a + [k], b);
    KeysPtrsAppend(a, [k]);
    KeysPtrsAppend(a, b);
    assert [k][..0] == [];
  }

  lemma SectionsPtrsThree(a: seq<Section<Ptr>>, s: Section<Ptr>, b: seq<Section<Ptr>>)
    ensures SectionsPtrs(a + [s] + b) == SectionsPtrs(a + b) + SectionPtrs(s)
  {
    SectionsPtrsAppend(a + [s], b);
    SectionsPtrsAppend(a, [s]);
    SectionsPtrsAppend(a, b);
    assert [s][..0] == [];
  }

  // ------------------------------------------------------------------
  // No dangling pointers

  /** A pointer that may be read: its string is complete in the loaded text, before the limit, or its block is owned. */
  ghost predicate Live(p: Ptr, data: seq<char>, strings: map<nat, string>, limit: nat) {
    match p
    case Data(off) =>
      off <= |data| && off + |CStr(data, off)| < |data| && off + |CStr(data, off)| <= limit
    case Owned(id) => id in strings
    case Static => true
    case Caller(_) => false
  }

  /**
    Every pointer that the tables or the running operation hold is live, and no
    two of them refer to the same owned block.
  */
  ghost predicate Sound(db: Db, limit: nat, holding: multiset<Ptr>) {
    && (forall id | id in db.strings :: id < db.next)
    && (forall p | p in Ptrs(db) + holding :: Live(p, db.data, db.strings, limit))
    && (forall id :: (Ptrs(db) + holding)[Owned(id)] <= 1)
  }

  lemma KeyFrame(k: Key<Ptr>, data: seq<char>, strings: map<nat, string>, data': seq<char>, strings': map<nat, string>)
    requires forall p | p in KeyPtrs(k) :: Text(p, data, strings) == Text(p, data', strings')
    ensures TextKey(k, data, strings) == TextKey(k, data', strings')
  {
    hide Text;
    assert k.name in KeyPtrs(k) && k.value in KeyPtrs(k);
    if k.comment.Some? {
      assert k.comment.value in KeyPtrs(k);
    }
  }

  // Reading the tables depends on what their pointers read, and on nothing else
  lemma {:induction false} KeysFrame(keys: seq<Key<Ptr>>, data: seq<char>, strings: map<nat, string>, data': seq<char>, strings': map<nat, string>)
    requires forall p | p in KeysPtrs(keys) :: Text(p, data, strings) == Text(p, data', strings')
    ensures TextKeys(keys, data, strings) == TextKeys(keys, data', strings')
    decreases |keys|
  {
    hide Text, KeyPtrs, TextKey;
    if keys != [] {
      var p, k := keys[..|keys|-1], keys[|keys|-1];
      assert KeysPtrs(keys) == KeysPtrs(p) + KeyPtrs(k);
      KeysFrame(p, data, strings, data', strings');
      KeyFrame(k, data, strings, data', strings');
      assert forall i | 0 <= i < |p| :: TextKey(p[i], data, strings) == TextKeys(p, data, strings)[i] == TextKeys(p, data', strings')[i];
    }
  }

  lemma SectionFrame(s: Section<Ptr>, data: seq<char>, strings: map<nat, string>, data': seq<char>, strings': map<nat, string>)
    requires forall p | p in SectionPtrs(s) :: Text(p, data, strings) == Text(p, data', strings')
    ensures TextSection(s, data, strings) == TextSection(s, data', strings')
  {
    hide Text, KeysPtrs, TextKey;
    assert s.name in SectionPtrs(s);
    if s.comment.Some? {
      assert s.comment.value in SectionPtrs(s);
    }
    KeysFrame(s.keys, data, strings, data', strings');
  }

  lemma {:induction false} SectionsFrame(ss: seq<Section<Ptr>>, data: seq<char>, strings: map<nat, string>, data': seq<char>, strings': map<nat, string>)
    requires forall p | p in SectionsPtrs(ss) :: Text(p, data, strings) == Text(p, data', strings')
    ensures TextSections(ss, data, strings) == TextSections(ss, data', strings')
    decreases |ss|
  {
    hide Text, SectionPtrs, TextSection;
    if ss != [] {
      var p, s := ss[..|ss|-1], ss[|ss|-1];
      assert SectionsPtrs(ss) == SectionsPtrs(p) + SectionPtrs(s);
      SectionsFrame(p, data, strings, data', strings');
      SectionFrame(s, data, strings, data', strings');
      assert forall i | 0 <= i < |p| :: TextSection(p[i], data, strings) == TextSections(p, data, strings)[i] == TextSections(p, data', strings')[i];
    }
  }

  lemma ModelFrame(db: Db, data: seq<char>, strings: map<nat, string>, next: nat)
    requires forall p | p in Ptrs(db) :: Text(p, db.data, db.strings) == Text(p, data, strings)
    ensures Model(db.(data := data, strings := strings, next := next)) == Model(db)
  {
    hide Text;
    SectionsFrame(db.sections, db.data, db.strings, data, strings);
    if db.fileComment.Some? {
      assert db.fileComment.value in Ptrs(db);
    }
  }

  // ------------------------------------------------------------------
  // Copying and freeing

  function Copied(db: Db, s: string): Db {
    db.(strings := db.strings[db.next := s], next := db.next + 1)
  }

  function Freed(db: Db, p: Ptr): Db {
    if p.Owned? then db.(strings := db.strings - {p.id}) else db
  }

  lemma CopyText(p: Ptr, db: Db, limit: nat, s: string)
    requires Live(p, db.data, db.strings, limit) && forall id | id in db.strings :: id < db.next
    ensures p != Owned(db.next)
    ensures Live(p, Copied(db, s).data, Copied(db, s).strings, limit)
    ensures Text(p, Copied(db, s).data, Copied(db, s).strings) == Text(p, db.data, db.strings)
  {
  }

  /** A copy is a block that nothing else refers to; the tables read as before. */
  lemma CopyIsSound(db: Db, limit: nat, holding: multiset<Ptr>, s: string)
    requires Sound(db, limit, holding)
    ensures Sound(Copied(db, s), limit, holding + multiset{Owned(db.next)})
    ensures Model(Copied(db, s)) == Model(db)
    ensures Text(Owned(db.next), Copied(db, s).data, Copied(db, s).strings) == s
    ensures forall p | p in Ptrs(db) + holding :: Text(p, Copied(db, s).data, Copied(db, s).strings) == Text(p, db.data, db.strings)
  {
    hide Ptrs, Text, Live, Model;
    var db' := Copied(db, s);
    assert Ptrs(db') == Ptrs(db) by { SamePtrs(db, db'); }
    var all := Ptrs(db) + holding;
    forall p | p in all
      ensures p != Owned(db.next) && Live(p, db'.data, db'.strings, limit) && Text(p, db'.data, db'.strings) == Text(p, db.data, db.strings)
    {
      CopyText(p, db, limit, s);
    }
    OwnedText(db', db.next, limit);
    assert Ptrs(db') + (holding + multiset{Owned(db.next)}) == all + multiset{Owned(db.next)};
    ModelFrame(db, db'.data, db'.strings, db'.next);
  }

  lemma SamePtrs(db: Db, db': Db)
    requires db.sections == db'.sections && db.fileComment == db'.fileComment
    ensures Ptrs(db) == Ptrs(db')
  {
  }

  lemma OwnedText(db: Db, id: nat, limit: nat)
    requires id in db.strings
    ensures Live(Owned(id), db.data, db.strings, limit) && Text(Owned(id), db.data, db.strings) == db.strings[id]
  {
  }

  lemma FreeText(q: Ptr, db: Db, limit: nat, p: Ptr)
    requires Live(q, db.data, db.strings, limit) && (p.Owned? ==> q != p)
    ensures Live(q, Freed(db, p).data, Freed(db, p).strings, limit)
    ensures Text(q, Freed(db, p).data, Freed(db, p).strings) == Text(q, db.data, db.strings)
  {
  }

  /** Freeing a string that is held once leaves every other pointer live; the tables read as before. */
  lemma FreeIsSound(db: Db, limit: nat, holding: multiset<Ptr>, p: Ptr)
    requires Sound(db, limit, holding + multiset{p})
    ensures Sound(Freed(db, p), limit, holding)
    ensures Model(Freed(db, p)) == Model(db)
    ensures forall q | q in Ptrs(db) + holding :: Text(q, Freed(db, p).data, Freed(db, p).strings) == Text(q, db.data, db.strings)
  {
    hide Ptrs, Text, Live, Model;
    var db' := Freed(db, p);
    assert Ptrs(db') == Ptrs(db) by { SamePtrs(db, db'); }
    var all := Ptrs(db) + holding;
    assert Ptrs(db) + (holding + multiset{p}) == all + multiset{p};
    forall q | q in all
      ensures Live(q, db'.data, db'.strings, limit) && Text(q, db'.data, db'.strings) == Text(q, db.data, db.strings)
    {
      assert q in all + multiset{p};
      if p.Owned? {
        assert (all + multiset{p})[Owned(p.id)] <= 1;
      }
      FreeText(q, db, limit, p);
    }
    forall id
      ensures all[Owned(id)] <= 1
    {
      assert (all + multiset{p})[Owned(id)] <= 1;
    }
    ModelFrame(db, db'.data, db'.strings, db'.next);
  }

  // ------------------------------------------------------------------
  // Moving pointers between the tables and the running operation

  /** As long as no pointer is duplicated, it does not matter where it is held. */
  lemma MoveIsSound(db: Db, limit: nat, holding: multiset<Ptr>, db': Db, holding': multiset<Ptr>)
    requires Sound(db, limit, holding)
    requires db'.data == db.data && db'.strings == db.strings && db'.next == db.next
    requires Ptrs(db') + holding' <= Ptrs(db) + holding
    ensures Sound(db', limit, holding')
  {
    hide Ptrs, Live;
    forall p | p in Ptrs(db') + holding'
      ensures p in Ptrs(db) + holding
    {
    }
    forall id
      ensures (Ptrs(db') + holding')[Owned(id)] <= 1
    {
      assert (Ptrs(db') + holding')[Owned(id)] <= (Ptrs(db) + holding)[Owned(id)];
    }
  }

  lemma LessHolding(db: Db, limit: nat, holding: multiset<Ptr>, holding': multiset<Ptr>)
    requires Sound(db, limit, holding) && holding' <= holding
    ensures Sound(db, limit, holding')
  {
    MoveIsSound(db, limit, holding, db, holding');
  }

  // A section set apart: the pointers of the others, and its own
  lemma PtrsAt(db: Db, i: nat, s: Section<Ptr>)
    requires i < |db.sections|
    ensures var others := SectionsPtrs(db.sections[..i] + db.sections[i+1..]) + Held(db.fileComment);
            && Ptrs(db) == others + SectionPtrs(db.sections[i])
            && Ptrs(db.(sections := db.sections[i := s])) == others + SectionPtrs(s)
            && Ptrs(db.(sections := db.sections[..i] + db.sections[i+1..])) == others
  {
    hide SectionPtrs, SectionsPtrs, Held;
    assert db.sections == db.sections[..i] + [db.sections[i]] + db.sections[i+1..];
    assert db.sections[i := s] == db.sections[..i] + [s] + db.sections[i+1..];
    SectionsPtrsThree(db.sections[..i], db.sections[i], db.sections[i+1..]);
    SectionsPtrsThree(db.sections[..i], s, db.sections[i+1..]);
  }

  function WithKeys(db: Db, i: nat, keys: seq<Key<Ptr>>): Db
    requires i < |db.sections|
  {
    db.(sections := db.sections[i := db.sections[i].(keys := keys)])
  }

  // Changing the keys of one section: pointers that enter its keys leave the operation's hands, and vice versa
  lemma KeysMoveIsSound(db: Db, limit: nat, holding: multiset<Ptr>, i: nat, keys: seq<Key<Ptr>>, holding': multiset<Ptr>)
    requires i < |db.sections| && Sound(db, limit, holding)
    requires KeysPtrs(keys) + holding' <= KeysPtrs(db.sections[i].keys) + holding
    ensures Sound(WithKeys(db, i, keys), limit, holding')
  {
    hide KeysPtrs, Held, SectionsPtrs, Sound;
    var s := db.sections[i];
    var s' := s.(keys := keys);
    PtrsAt(db, i, s');
    var others := SectionsPtrs(db.sections[..i] + db.sections[i+1..]) + Held(db.fileComment);
    var head := multiset{s.name} + Held(s.comment);
    KeysSum(others, head, KeysPtrs(keys), holding', KeysPtrs(s.keys), holding);
    MoveIsSound(db, limit, holding, WithKeys(db, i, keys), holding');
  }

  lemma KeysSum(others: multiset<Ptr>, head: multiset<Ptr>, k': multiset<Ptr>, h': multiset<Ptr>, k: multiset<Ptr>, h: multiset<Ptr>)
    requires k' + h' <= k + h
    ensures (others + (head + k')) + h' <= (others + (head + k)) + h
  {
    forall p
      ensures ((others + (head + k')) + h')[p] <= ((others + (head + k)) + h)[p]
    {
      assert (k' + h')[p] <= (k + h)[p];
    }
  }

  // The model of a store whose section i has other keys
  lemma WithKeysModel(db: Db, i: nat, keys: seq<Key<Ptr>>)
    requires i < |db.sections|
    ensures var m := Model(db);
            && i < |m.sections|
            && Model(WithKeys(db, i, keys)) == m.(sections := m.sections[i := m.sections[i].(keys := TextKeys(keys, db.data, db.strings))])
  {
    hide Text, TextKey;
  }

  lemma TextKeysCut(keys: seq<Key<Ptr>>, u: nat, data: seq<char>, strings: map<nat, string>)
    requires u <= |keys|
    ensures TextKeys(keys[..u], data, strings) == TextKeys(keys, data, strings)[..u]
    ensures TextKeys(keys[u..], data, strings) == TextKeys(keys, data, strings)[u..]
  {
    hide TextKey;
  }

  lemma TextKeysAppend(a: seq<Key<Ptr>>, b: seq<Key<Ptr>>, data: seq<char>, strings: map<nat, string>)
    ensures TextKeys(a + b, data, strings) == TextKeys(a, data, strings) + TextKeys(b, data, strings)
  {
    hide TextKey;
  }

  lemma TextKeysOne(k: Key<Ptr>, data: seq<char>, strings: map<nat, string>)
    ensures TextKeys([k], data, strings) == [TextKey(k, data, strings)]
  {
    hide TextKey;
  }

  lemma TextKeysInsert(keys: seq<Key<Ptr>>, u: nat, k: Key<Ptr>, data: seq<char>, strings: map<nat, string>)
    requires u <= |keys|
    ensures TextKeys(keys[..u] + [k] + keys[u..], data, strings)
         == TextKeys(keys, data, strings)[..u] + [TextKey(k, data, strings)] + TextKeys(keys, data, strings)[u..]
    ensures KeysPtrs(keys[..u] + [k] + keys[u..]) == KeysPtrs(keys) + KeyPtrs(k)
  {
    hide TextKeys, TextKey, KeyPtrs, KeysPtrs;
    assert keys == keys[..u] + keys[u..];
    KeysPtrsThree(keys[..u], k, keys[u..]);
    TextKeysCut(keys, u, data, strings);
    TextKeysAppend(keys[..u] + [k], keys[u..], data, strings);
    TextKeysAppend(keys[..u], [k], data, strings);
    TextKeysOne(k, data, strings);
  }

  lemma TextKeysErase(keys: seq<Key<Ptr>>, j: nat, data: seq<char>, strings: map<nat, string>)
    requires j < |keys|
    ensures TextKeys(keys[..j] + keys[j+1..], data, strings)
         == TextKeys(keys, data, strings)[..j] + TextKeys(keys, data, strings)[j+1..]
  {
    hide TextKeys, TextKey;
    TextKeysCut(keys, j, data, strings);
    TextKeysCut(keys, j + 1, data, strings);
    TextKeysAppend(keys[..j], keys[j+1..], data, strings);
  }

  lemma KeysPtrsErase(keys: seq<Key<Ptr>>, j: nat)
    requires j < |keys|
    ensures KeysPtrs(keys) == KeysPtrs(keys[..j] + keys[j+1..]) + KeyPtrs(keys[j])
  {
    hide KeyPtrs, KeysPtrs;
    assert keys == keys[..j] + [keys[j]] + keys[j+1..];
    KeysPtrsThree(keys[..j], keys[j], keys[j+1..]);
  }

  lemma TextKeysUpdate(keys: seq<Key<Ptr>>, j: nat, v: Ptr, data: seq<char>, strings: map<nat, string>)
    requires j < |keys|
    ensures TextKeys(keys[j := keys[j].(value := v)], data, strings)
         == TextKeys(keys, data, strings)[j := TextKeys(keys, data, strings)[j].(value := Text(v, data, strings))]
  {
    hide Text;
  }

  lemma KeysPtrsUpdate(keys: seq<Key<Ptr>>, j: nat, v: Ptr)
    requires j < |keys|
    ensures KeysPtrs(keys[j := keys[j].(value := v)]) <= KeysPtrs(keys) + multiset{v}
  {
    hide KeysPtrs;
    var k := keys[j].(value := v);
    assert keys == keys[..j] + [keys[j]] + keys[j+1..];
    assert keys[j := k] == keys[..j] + [k] + keys[j+1..];
    KeysPtrsThree(keys[..j], keys[j], keys[j+1..]);
    KeysPtrsThree(keys[..j], k, keys[j+1..]);
  }

  lemma InsertSectionIsSound(db: Db, limit: nat, holding: multiset<Ptr>, i: nat, s: Section<Ptr>)
    requires i <= |db.sections| && Sound(db, limit, holding + SectionPtrs(s))
    ensures var db' := db.(sections := db.sections[..i] + [s] + db.sections[i..], order := s.order);
            && Sound(db', limit, holding)
            && Model(db') == Model(db).(sections := Model(db).sections[..i] + [TextSection(s, db.data, db.strings)] + Model(db).sections[i..], order := s.order)
  {
    hide *;
    var db' := db.(sections := db.sections[..i] + [s] + db.sections[i..], order := s.order);
    assert db.sections == db.sections[..i] + db.sections[i..];
    SectionsPtrsThree(db.sections[..i], s, db.sections[i..]);
    PtrsIs(db);
    PtrsIs(db');
    SumMoves(SectionsPtrs(db.sections), SectionPtrs(s), Held(db.fileComment), holding);
    MoveIsSound(db, limit, holding + SectionPtrs(s), db', holding);
    InsertedModel(db, i, s);
  }

  lemma PtrsIs(db: Db)
    ensures Ptrs(db) == SectionsPtrs(db.sections) + Held(db.fileComment)
  {
  }

  lemma SumMoves(a: multiset<Ptr>, s: multiset<Ptr>, h: multiset<Ptr>, g: multiset<Ptr>)
    ensures ((a + s) + h) + g == (a + h) + (g + s)
  {
  }

  lemma InsertedModel(db: Db, i: nat, s: Section<Ptr>)
    requires i <= |db.sections|
    ensures var texts := Model(db).sections;
            && |texts| == |db.sections|
            && Model(db.(sections := db.sections[..i] + [s] + db.sections[i..], order := s.order))
            == Model(db).(sections := texts[..i] + [TextSection(s, db.data, db.strings)] + texts[i..], order := s.order)
  {
    hide TextSection;
  }

  /** New text is read in behind the limit: the pointers into the old text read as before. */
  lemma DataIsSound(db: Db, limit: nat, holding: multiset<Ptr>, data: seq<char>, limit': nat)
    requires Sound(db, limit, holding) && |data| == |db.data| && limit <= limit' && limit < |data|
    requires forall k | 0 <= k < limit :: data[k] == db.data[k]
    requires db.data[limit] == NUL ==> data[limit] == NUL
    ensures Sound(db.(data := data), limit', holding)
    ensures Model(db.(data := data)) == Model(db)
    ensures forall p | p in Ptrs(db) + holding :: Text(p, data, db.strings) == Text(p, db.data, db.strings)
  {
    hide Ptrs, Model, Text, Live;
    var db' := db.(data := data);
    assert Ptrs(db') == Ptrs(db) by { SamePtrs(db, db'); }
    forall p | p in Ptrs(db) + holding
      ensures Live(p, data, db.strings, limit') && Text(p, data, db.strings) == Text(p, db.data, db.strings)
    {
      DataText(p, db, limit, data, limit');
    }
    ModelFrame(db, data, db.strings, db.next);
  }

  lemma DataText(p: Ptr, db: Db, limit: nat, data: seq<char>, limit': nat)
    requires Live(p, db.data, db.strings, limit) && |data| == |db.data| && limit <= limit' && limit < |data|
    requires forall k | 0 <= k < limit :: data[k] == db.data[k]
    requires db.data[limit] == NUL ==> data[limit] == NUL
    ensures Live(p, data, db.strings, limit') && Text(p, data, db.strings) == Text(p, db.data, db.strings)
  {
    if p.Data? {
      var e := FirstOf(db.data, p.off, {NUL});
      FirstOfIs(data, p.off, {NUL}, e);
    }
  }

  /** The first text is loaded: nothing pointed into the empty block before it. */
  lemma FirstDataIsSound(db: Db, data: seq<char>, limit: nat)
    requires db.data == [] && Sound(db, 0, multiset{})
    ensures Sound(db.(data := data), limit, multiset{})
    ensures Model(db.(data := data)) == Model(db)
  {
    hide Ptrs, Model;
    var db' := db.(data := data);
    assert Ptrs(db') == Ptrs(db) by { SamePtrs(db, db'); }
    forall p | p in Ptrs(db)
      ensures Live(p, data, db.strings, limit) && Text(p, data, db.strings) == Text(p, db.data, db.strings)
    {
      assert p in Ptrs(db) + multiset{};
      assert Live(p, db.data, db.strings, 0);
    }
    ModelFrame(db, data, db.strings, db.next);
  }

  /** A string that the parser has ended may be pointed to. */
  lemma StoredIsLive(buf: array<char>, off: nat, s: string, cur: nat, strings: map<nat, string>)
    requires Stored(buf, off, s, cur)
    ensures Live(Data(off), buf[..], strings, cur) && Text(Data(off), buf[..], strings) == s
  {
    StoredReads(buf, off, s, cur);
  }

  // Pointers to the text or to the static string may be held in any number
  lemma HoldUnowned(db: Db, limit: nat, holding: multiset<Ptr>)
    requires Sound(db, limit, multiset{})
    requires forall p | p in holding :: !p.Owned? && Live(p, db.data, db.strings, limit)
    ensures Sound(db, limit, holding)
  {
    hide Ptrs, Live;
    forall p | p in Ptrs(db) + holding
      ensures Live(p, db.data, db.strings, limit)
    {
      if p !in holding {
        assert p in Ptrs(db) + multiset{};
      }
    }
    forall id
      ensures (Ptrs(db) + holding)[Owned(id)] <= 1
    {
      assert Owned(id) !in holding;
      assert (Ptrs(db) + multiset{})[Owned(id)] <= 1;
    }
  }
}
