/**
  CSimpleIniA: the INI store with its strings in memory, and the operations that
  read, write, load and save it.
*/
module Ini {
  import opened Options
  import opened IniText
  import opened IniParse
  import opened IniScan
  import opened IniStore
  import Lexicographic
  import IniMultimap
  import opened IniMemory
  import opened IniView

  // The pointers that an operation was handed
  ghost function Args(section: Ptr, key: Option<Ptr>, value: Option<Ptr>, comment: Option<Ptr>): multiset<Ptr> {
    multiset{section} + Held(key) + Held(value) + Held(comment)
  }

  class SimpleIni {
    var data: seq<char>
    var loaded: bool
    var strings: map<nat, string>
    var next: nat
    var sections: seq<Section<Ptr>>
    var fileComment: Option<Ptr>
    var order: int
    var multiKey: bool
    var multiLine: bool
    var spaces: bool
    var storeIsUtf8: bool

    ghost function State(): Db
      reads this
    {
      Db(sections, fileComment, order, multiKey, data, strings, next)
    }

    /** The store that the strings in memory spell out. */
    ghost function Contents(): Store
      reads this
    {
      Model(State())
    }

    /** No pointer dangles or is shared, the tables are sorted, and the load orders are in order. */
    ghost predicate ValidUpTo(limit: nat)
      reads this
    {
      && Sound(State(), limit, multiset{})
      && Sorted(Contents()) && IniMultimap.OrdersOk(Contents())
    }

    ghost predicate Valid()
      reads this
    {
      ValidUpTo(|data|) && (!loaded ==> data == [])
    }

    constructor (isUtf8: bool, allowMultiKey: bool, allowMultiLine: bool)
      ensures Valid() && Contents() == Store([], None, 0, allowMultiKey)
      ensures multiLine == allowMultiLine && storeIsUtf8 == isUtf8 && spaces && !loaded
    {
      data, loaded, strings, next := [], false, map[], 0;
      sections, fileComment, order := [], None, 0;
      multiKey, multiLine, spaces, storeIsUtf8 := allowMultiKey, allowMultiLine, true, isUtf8;
    }

    /** Everything goes, except the counter and the settings. */
    method Reset()
      modifies this
      ensures Valid() && Contents() == Store([], None, old(order), old(multiKey))
      ensures strings == map[] && !loaded
      ensures multiLine == old(multiLine) && spaces == old(spaces) && storeIsUtf8 == old(storeIsUtf8)
    {
      hide Sound, Model, Sorted, IniMultimap.OrdersOk;
      EmptyIsSound(State().(data := [], fileComment := None, sections := [], strings := map[]));
      data, loaded := [], false;
      fileComment := None;
      sections := [];
      strings := map[];
    }

    method SetMultiKey(allow: bool)
      requires Valid()
      modifies this`multiKey
      ensures Valid() && Contents() == old(Contents()).(multiKey := allow)
    {
      hide Sound, Model, Sorted, IniMultimap.OrdersOk;
      MultiKeyIsSound(State(), allow);
      multiKey := allow;
    }

    // ----------------------------------------------------------------
    // Strings

    method CopyString(p: Ptr) returns (copy: Ptr)
      modifies this`strings, this`next
      ensures State() == Copied(old(State()), Text(p, old(data), old(strings))) && copy == Owned(old(next))
    {
      copy := Owned(next);
      strings := strings[next := Text(p, data, strings)];
      next := next + 1;
    }

    method DeleteString(p: Ptr)
      modifies this`strings
      ensures State() == Freed(old(State()), p)
    {
      if p.Owned? && p.id in strings {
        strings := strings - {p.id};
      } else if p.Owned? {
        assert strings - {p.id} == strings;
      }
    }

    // ----------------------------------------------------------------
    // AddEntry

    /** Puts a new, empty section at position i of the table. */
    method InsertSection(i: nat, name: Ptr, comment: Option<Ptr>, ghost limit: nat, ghost holding: multiset<Ptr>)
      requires i <= |sections| && Sound(State(), limit, holding + Held(comment) + multiset{name})
      modifies this`sections, this`order
      ensures Sound(State(), limit, holding) && order == old(order) + 1
      ensures var before := old(Contents());
              var section := Section(Text(name, data, strings), TextOf(comment, data, strings), order, []);
              Contents() == before.(sections := before.sections[..i] + [section] + before.sections[i..], order := order)
    {
      hide Sound, Text, TextSections, TextSection, Held, SectionPtrs;
      var entry := Section(name, comment, order + 1, []);
      NewSection(entry, data, strings);
      assert holding + SectionPtrs(entry) == holding + Held(comment) + multiset{name};
      InsertSectionIsSound(State(), limit, holding, i, entry);
      sections := sections[..i] + [entry] + sections[i..];
      order := order + 1;
    }

    /** Creates the section unless it exists; copies its name if asked to. */
    method EnsureSection(section: Ptr, comment: Option<Ptr>, copy: bool, ghost limit: nat, ghost holding: multiset<Ptr>)
      returns (isNew: bool)
      requires Sound(State(), limit, holding + Held(comment) + (if copy then multiset{} else multiset{section}))
      requires copy ==> section.Caller?
      modifies this`strings, this`next, this`sections, this`order
      ensures isNew == !Has(SectionNames(old(Contents()).sections), Text(section, old(data), old(strings)))
      ensures Sound(State(), limit, holding)
      ensures Contents() == WithSection(old(Contents()), Text(section, old(data), old(strings)), TextOf(comment, old(data), old(strings)))
      ensures forall p | p in holding :: Text(p, data, strings) == Text(p, old(data), old(strings))
    {
      hide Sound, Text, TextSections, TextSection, Held, Lower, Has, NameLess, WithSection, SectionNames;
      isNew := false;
      ghost var all := holding + Held(comment) + (if copy then multiset{} else multiset{section});
      var texts := TextSections(sections, data, strings);
      var i := Lower(SectionNames(texts), Text(section, data, strings));
      LessHolding(State(), limit, all, holding);
      WithSectionIs(Contents(), Text(section, data, strings), TextOf(comment, data, strings));
      if !Has(SectionNames(texts), Text(section, data, strings)) {
        isNew := true;
        var name := section;
        if copy {
          CopyIsSound(State(), limit, all, Text(section, data, strings));
          HeldIn(comment, all);
          name := CopyString(section);
          assert all + multiset{name} == holding + Held(comment) + multiset{name};
        }
        InsertSection(i, name, comment, limit, holding);
      }
    }

    // ----------------------------------------------------------------
    // Delete

    /** Frees the name and the value of a key and takes it out of its table. */
    method EraseKey(i: nat, j: nat, ghost limit: nat, ghost holding: multiset<Ptr>)
      requires i < |sections| && j < |sections[i].keys| && Sound(State(), limit, holding)
      modifies this`strings, this`sections
      ensures Sound(State(), limit, holding)
      ensures forall p | p in holding :: Text(p, data, strings) == Text(p, data, old(strings))
      ensures var before := old(Contents());
              && i < |before.sections| && j < |before.sections[i].keys|
              && Contents() == WithoutKey(before, i, j)
      ensures |sections| == old(|sections|) && sections[i].keys == old(sections[i].keys[..j] + sections[i].keys[j+1..])
    {
      hide Sound, Text, TextSections, TextSection;
      ModelKeys(State(), i);
      EraseKeyIsSound(State(), i, j, limit, holding);
      var keys := sections[i].keys;
      DeleteString(keys[j].name);
      DeleteString(keys[j].value);
      sections := sections[i := sections[i].(keys := keys[..j] + keys[j+1..])];
    }

    /** Erases the keys that equal k, of which the first is at j. */
    method EraseGroup(i: nat, j: nat, k: string, ghost limit: nat, ghost holding: multiset<Ptr>)
      requires i < |sections| && Sound(State(), limit, holding) && Sorted(Contents())
      requires Has(KeyNames(Contents().sections[i].keys), k) && j == Lower(KeyNames(Contents().sections[i].keys), k)
      modifies this`strings, this`sections
      ensures Sound(State(), limit, holding)
      ensures |sections| == old(|sections|)
      ensures forall p | p in holding :: Text(p, data, strings) == Text(p, data, old(strings))
      ensures var before := old(Contents());
              && i < |before.sections|
              && Contents() == before.(sections := before.sections[i := before.sections[i].(keys := EraseKeys(before.sections[i].keys, k))])
    {
      hide Sound, Text, TextSections, TextSection, TextKeys, NameLess, Lower, Upper, Erased, WithoutKey, EraseKeys, Sorted, Ascending, Has, SameName, Fold, KeyNames, FirstOf, IniMultimap.OrdersOk;
      ghost var before := Contents();
      ghost var olds := before.sections[i].keys;
      ghost var n := j;
      ModelKeys(State(), i);
      KeysSorted(before, i);
      Zones(KeyNames(olds), k);
      ErasedNone(before, i, j);
      while true
        invariant i < |sections| == old(|sections|) && j < |sections[i].keys| && Sound(State(), limit, holding)
        invariant j <= n < Upper(KeyNames(olds), k)
        invariant Contents() == Erased(before, i, j, n)
        invariant forall p | p in holding :: Text(p, data, strings) == Text(p, data, old(strings))
        decreases |olds| - n
      {
        ModelKeys(State(), i);
        EraseKey(i, j, limit, holding);
        n := n + 1;
        ErasedNext(before, i, j, n - 1);
        ModelKeys(State(), i);
        var names := KeyNames(TextKeys(sections[i].keys, data, strings));
        if !(j < |names| && !NameLess(k, names[j])) {
          break;
        }
      }
      ErasedAll(before, i, k);
    }

    /** Takes section i out of the table, freeing every string in it but the comments. */
    method EraseSection(i: nat, ghost limit: nat)
      requires i < |sections| && Sound(State(), limit, multiset{})
      modifies this`strings, this`sections
      ensures Sound(State(), limit, multiset{})
      ensures var before := old(Contents());
              && i < |before.sections|
              && Contents() == before.(sections := before.sections[..i] + before.sections[i+1..])
    {
      hide Sound, Text, TextSections, TextSection, SectionPtrs, KeyPtrs, Held;
      var section := sections[i];
      var keys := section.keys;
      ghost var rest := sections[..i] + sections[i+1..];
      ghost var without := Contents().(sections := Contents().sections[..i] + Contents().sections[i+1..]);
      SectionOut(State(), i, limit);
      var n := 0;
      assert keys[0..] == keys;
      while n < |keys|
        invariant 0 <= n <= |keys| && sections == old(sections)
        invariant Sound(State().(sections := rest), limit, multiset{section.name} + KeysPtrs(keys[n..]))
        invariant Model(State().(sections := rest)) == without
      {
        FreeFirstKey(State().(sections := rest), limit, multiset{section.name}, keys[n..]);
        assert keys[n..][1..] == keys[n+1..];
        DeleteString(keys[n].name);
        DeleteString(keys[n].value);
        n := n + 1;
      }
      assert keys[n..] == [];
      assert multiset{section.name} + KeysPtrs([]) == multiset{} + multiset{section.name};
      FreeIsSound(State().(sections := rest), limit, multiset{}, section.name);
      DeleteString(section.name);
      sections := sections[..i] + sections[i+1..];
    }

    /** Deletes a key from a section, or the whole section; freed strings are those of what is deleted. */
    method Delete(pSection: Option<string>, key: Option<string>, removeEmpty: bool) returns (deleted: bool)
      requires Valid()
      modifies this`strings, this`sections
      ensures Valid()
      ensures pSection.None? ==> Contents() == old(Contents()) && !deleted
      ensures pSection.Some? ==> (Contents(), deleted) == IniStore.Delete(old(Contents()), pSection.value, key, removeEmpty)
    {
      hide Sound, Text, TextSections, TextSection, TextKeys, Lower, Upper, NameLess, IniMultimap.OrdersOk;
      if pSection.None? {
        return false;
      }
      var section := pSection.value;
      ghost var limit := |data|;
      IniMultimap.DeleteKeepsOrders(Contents(), section, key, removeEmpty);
      var texts := TextSections(sections, data, strings);
      var i := Lower(SectionNames(texts), section);
      if !Has(SectionNames(texts), section) {
        return false;
      }
      ModelKeys(State(), i);
      if key.Some? {
        var names := KeyNames(TextKeys(sections[i].keys, data, strings));
        var j := Lower(names, key.value);
        if !Has(names, key.value) {
          return false;
        }
        EraseGroup(i, j, key.value, limit, multiset{});
        ModelKeys(State(), i);
        if !removeEmpty || sections[i].keys != [] {
          return true;
        }
      }
      EraseSection(i, limit);
      return true;
    }

    // ----------------------------------------------------------------
    // AddEntry, the key

    /** Walks the keys that equal k for the least load order and the comment that goes with it. */
    method FindOldest(i: nat, j: nat, k: string) returns (loadOrder: int, comment: Option<Ptr>)
      requires i < |sections| && Sorted(Contents()) && i < |Contents().sections|
      requires Has(KeyNames(Contents().sections[i].keys), k) && j == Lower(KeyNames(Contents().sections[i].keys), k)
      requires forall n | 0 <= n < |sections[i].keys| :: sections[i].keys[n].order < order
      ensures var eldest := Oldest(KeyGroup(Contents().sections[i].keys, k));
              loadOrder == eldest.order && TextOf(comment, data, strings) == eldest.comment
      ensures Held(comment) <= KeysPtrs(sections[i].keys)
    {
      hide Text, TextOf, NameLess, SameName, Lower, Upper, Has, Oldest, KeysPtrs, TextKey, TextKeys, Held, Model, Sorted, Ascending, KeyGroup;
      var keys := sections[i].keys;
      var texts := TextKeys(keys, data, strings);
      GroupAt(State(), i, k);
      ghost var pick;
      loadOrder, comment, pick := ScanGroup(keys, KeyNames(texts), j, k, order);
      TextKeyOrders(keys, data, strings);
      OldestIsFirstLeast(texts, j, Upper(KeyNames(texts), k), pick);
      TextKeyAt(keys, pick, data, strings);
      CommentHeld(keys, pick);
    }

    /** Puts a key into the table of section i, behind its equals. */
    method InsertKey(i: nat, key: Ptr, value: Ptr, comment: Option<Ptr>, loadOrder: int, ghost limit: nat, ghost holding: multiset<Ptr>)
      requires i < |sections| && Sound(State(), limit, holding + (multiset{key} + multiset{value} + Held(comment)))
      modifies this`sections
      ensures Sound(State(), limit, holding) && |sections| == old(|sections|)
      ensures var before := old(Contents());
              && i < |before.sections|
              && Contents() == PutKeys(before, i, IniStore.InsertKey(before.sections[i].keys,
                                 Key(Text(key, data, strings), TextOf(comment, data, strings), loadOrder, Text(value, data, strings))))
    {
      hide Sound, Text, TextSections, TextSection, TextKeys, Held, KeysPtrs, Upper;
      var entry := Key(key, comment, loadOrder, value);
      var keys := sections[i].keys;
      ModelKeys(State(), i);
      var u := Upper(KeyNames(TextKeys(keys, data, strings)), Text(key, data, strings));
      var keys' := keys[..u] + [entry] + keys[u..];
      TextKeysInsert(keys, u, entry, data, strings);
      assert KeysPtrs(keys') + holding == KeysPtrs(keys) + (holding + (multiset{key} + multiset{value} + Held(comment)));
      KeysMoveIsSound(State(), limit, holding + (multiset{key} + multiset{value} + Held(comment)), i, keys', holding);
      WithKeysModel(State(), i, keys');
      sections := sections[i := sections[i].(keys := keys')];
    }

    /** Gives key j of section i another value; the old one stays where it is. */
    method OverwriteValue(i: nat, j: nat, value: Ptr, ghost limit: nat, ghost holding: multiset<Ptr>)
      requires i < |sections| && j < |sections[i].keys| && Sound(State(), limit, holding + multiset{value})
      modifies this`sections
      ensures Sound(State(), limit, holding) && |sections| == old(|sections|)
      ensures var before := old(Contents());
              && i < |before.sections| && j < |before.sections[i].keys|
              && Contents() == PutKeys(before, i, before.sections[i].keys[j := before.sections[i].keys[j].(value := Text(value, data, strings))])
    {
      hide Sound, Text, TextSections, TextSection, Held, KeysPtrs;
      var keys := sections[i].keys;
      var keys' := keys[j := keys[j].(value := value)];
      ModelKeys(State(), i);
      TextKeysUpdate(keys, j, value, data, strings);
      KeysPtrsUpdate(keys, j, value);
      assert KeysPtrs(keys') + holding <= KeysPtrs(keys) + (holding + multiset{value}) by {
        SumMonotone(KeysPtrs(keys'), KeysPtrs(keys), multiset{value}, holding);
      }
      KeysMoveIsSound(State(), limit, holding + multiset{value}, i, keys', holding);
      WithKeysModel(State(), i, keys');
      sections := sections[i := sections[i].(keys := keys')];
    }

    /** The comment of the replaced key takes the place of the one given, which is freed. */
    method TakeOverComment(comment: Option<Ptr>, pComment: Ptr, ghost limit: nat) returns (copy: Ptr)
      requires Sound(State(), limit, Held(comment)) && pComment in Ptrs(State())
      modifies this`strings, this`next
      ensures Sound(State(), limit, Held(Some(copy))) && Contents() == old(Contents())
      ensures Text(copy, data, strings) == Text(pComment, data, old(strings))
    {
      hide Sound, Text, Model, Ptrs;
      LessHolding(State(), limit, Held(comment), multiset{});
      if comment.Some? {
        assert Held(comment) == multiset{} + multiset{comment.value};
        FreeIsSound(State(), limit, multiset{}, comment.value);
        DeleteString(comment.value);
      }
      SamePtrs(State(), old(State()));
      CopyIsSound(State(), limit, multiset{}, Text(pComment, data, strings));
      copy := CopyString(pComment);
      assert multiset{} + multiset{copy} == Held(Some(copy));
    }

    /** Makes room for a replacement: the keys that equal k go, their least load order stays, and so does its comment if it has one. */
    method ReplaceGroup(i: nat, j: nat, k: string, comment0: Option<Ptr>, ghost limit: nat)
      returns (loadOrder: int, comment: Option<Ptr>)
      requires i < |sections| && Sorted(Contents()) && Sound(State(), limit, Held(comment0))
      requires Has(KeyNames(Contents().sections[i].keys), k) && j == Lower(KeyNames(Contents().sections[i].keys), k)
      requires forall n | 0 <= n < |sections[i].keys| :: sections[i].keys[n].order < order
      modifies this`strings, this`next, this`sections
      ensures Sound(State(), limit, Held(comment)) && |sections| == old(|sections|)
      ensures i < |old(Contents()).sections|
      ensures Contents() == PutKeys(old(Contents()), i, EraseKeys(old(Contents()).sections[i].keys, k))
      ensures var eldest := Oldest(KeyGroup(old(Contents()).sections[i].keys, k));
              && loadOrder == eldest.order
              && TextOf(comment, data, strings) == if eldest.comment.Some? then eldest.comment else TextOf(comment0, data, old(strings))
    {
      hide Sound, Text, TextSections, TextSection, TextKeys, NameLess, Lower, Upper, Oldest, KeyGroup, EraseKeys, KeysPtrs;
      var pComment;
      loadOrder, pComment := FindOldest(i, j, k);
      comment := comment0;
      if pComment.Some? {
        InPtrs(State(), i, pComment.value);
        var copy := TakeOverComment(comment, pComment.value, limit);
        comment := Some(copy);
      }
      HeldIn(comment, Held(comment));
      EraseGroup(i, j, k, limit, Held(comment));
    }

    /** Copies one of the caller's strings into a block of its own. */
    method CopyArg(p: Ptr, ghost limit: nat, ghost hold: multiset<Ptr>) returns (copy: Ptr)
      requires Sound(State(), limit, hold) && p.Caller?
      modifies this`strings, this`next
      ensures Sound(State(), limit, hold + multiset{copy}) && Contents() == old(Contents())
      ensures Text(copy, data, strings) == Text(p, data, old(strings))
      ensures forall q | q in hold :: Text(q, data, strings) == Text(q, data, old(strings))
    {
      hide Sound, Model, Text;
      CopyIsSound(State(), limit, hold, Text(p, data, strings));
      copy := CopyString(p);
    }

    /** Copies of key and value, or the pointers themselves; an existing key needs no copy of its name. */
    method CopyPair(key: Ptr, value: Ptr, comment: Option<Ptr>, needsKey: bool, copy: bool, ghost limit: nat)
      returns (key': Ptr, value': Ptr)
      requires Sound(State(), limit, Held(comment) + InHand(key, value, copy))
      modifies this`strings, this`next
      ensures Sound(State(), limit, Held(comment) + multiset{value'} + (if needsKey then multiset{key'} else multiset{}))
      ensures Contents() == old(Contents())
      ensures needsKey ==> Text(key', data, strings) == Text(key, data, old(strings))
      ensures Text(value', data, strings) == Text(value, data, old(strings))
      ensures TextOf(comment, data, strings) == TextOf(comment, data, old(strings))
      requires copy ==> key.Caller? && value.Caller?
    {
      hide Sound, Model, Held, Text;
      key', value' := key, value;
      ghost var hold := Held(comment) + InHand(key, value, copy);
      HeldIn(comment, hold);
      if copy {
        assert hold == Held(comment);
        if needsKey {
          key' := CopyArg(key, limit, hold);
          hold := hold + multiset{key'};
        }
        CallerText(value, data, old(strings), strings);
        value' := CopyArg(value, limit, hold);
        assert hold + multiset{value'} == Held(comment) + multiset{value'} + (if needsKey then multiset{key'} else multiset{});
      } else {
        LessHolding(State(), limit, hold, Held(comment) + multiset{value'} + (if needsKey then multiset{key'} else multiset{}));
      }
    }

    /** Creates a key with its value, or gives key j the value. */
    method PutPair(i: nat, j: nat, key0: Ptr, value0: Ptr, comment: Option<Ptr>, loadOrder: int, create: bool, copy: bool, ghost limit: nat)
      requires i < |sections| && (!create ==> j < |sections[i].keys|)
      requires Sound(State(), limit, Held(comment) + InHand(key0, value0, copy))
      requires copy ==> key0.Caller? && value0.Caller?
      modifies this`strings, this`next, this`sections
      ensures Sound(State(), limit, multiset{})
      ensures var before, k, v := old(Contents()), Text(key0, data, old(strings)), Text(value0, data, old(strings));
              && i < |before.sections| && (!create ==> j < |before.sections[i].keys|)
              && Contents() == PutKeys(before, i,
                   if create then IniStore.InsertKey(before.sections[i].keys, Key(k, TextOf(comment, data, old(strings)), loadOrder, v))
                   else before.sections[i].keys[j := before.sections[i].keys[j].(value := v)])
    {
      hide Sound, Text, TextSections, TextSection, TextKeys, Held, KeysPtrs, IniStore.InsertKey;
      ModelKeys(State(), i);
      var key, value := CopyPair(key0, value0, comment, create, copy, limit);
      if create {
        assert Held(comment) + multiset{value} + multiset{key} == multiset{} + (multiset{key} + multiset{value} + Held(comment));
        InsertKey(i, key, value, comment, loadOrder, limit, multiset{});
      } else {
        assert Held(comment) + multiset{value} + multiset{} == Held(comment) + multiset{value};
        OverwriteValue(i, j, value, limit, Held(comment));
        LessHolding(State(), limit, Held(comment), multiset{});
      }
    }

    /** Sets a key of section i. */
    method SetPair(i: nat, key0: Ptr, value0: Ptr, comment0: Option<Ptr>, force: bool, copy: bool, ghost limit: nat)
      returns (created: bool)
      requires i < |sections| && Sorted(Contents()) && IniMultimap.OrdersOk(Contents())
      requires Sound(State(), limit, Held(comment0) + InHand(key0, value0, copy))
      requires (copy ==> key0.Caller? && value0.Caller?) && (force ==> copy)
      modifies this`strings, this`next, this`sections, this`order
      ensures Sound(State(), limit, multiset{})
      ensures i < |old(Contents()).sections|
      ensures Contents() == SetInSection(old(Contents()), i, Text(key0, data, old(strings)), Text(value0, data, old(strings)), TextOf(comment0, data, old(strings)), force)
      ensures created == CreatesKey(old(Contents()).sections[i].keys, Text(key0, data, old(strings)), multiKey)
    {
      hide Sound, Text, TextSections, TextSection, TextKeys, Held, NameLess, Lower, Upper, Oldest, KeyGroup, EraseKeys, KeysPtrs,
           IniStore.InsertKey, IniMultimap.OrdersOk;
      ghost var before := Contents();
      var k := Text(key0, data, strings);
      ModelKeys(State(), i);
      OrdersBelowCounter(State(), i);
      order := order + 1;
      CounterIsSound(old(State()), State(), limit, Held(comment0) + InHand(key0, value0, copy));
      var names := KeyNames(TextKeys(sections[i].keys, data, strings));
      var j := Lower(names, k);
      var found := Has(names, k);
      var loadOrder, comment := order, comment0;
      if found && multiKey && force {
        assert Held(comment0) + InHand(key0, value0, copy) == Held(comment0);
        loadOrder, comment := ReplaceGroup(i, j, k, comment0, limit);
        CallerText(key0, data, old(strings), strings);
        CallerText(value0, data, old(strings), strings);
        assert Held(comment) + InHand(key0, value0, copy) == Held(comment);
        found := false;
      }
      created := !found || (multiKey && !force);
      PutPair(i, j, key0, value0, comment, loadOrder, created, copy, limit);
    }

    /** The comment of an entry, copied when the entry is. */
    method CopyComment(comment: Option<Ptr>, copy: bool, ghost limit: nat, ghost others: multiset<Ptr>) returns (c: Option<Ptr>)
      requires Sound(State(), limit, (if copy then multiset{} else Held(comment)) + others)
      requires copy && comment.Some? ==> comment.value.Caller?
      modifies this`strings, this`next
      ensures Sound(State(), limit, Held(c) + others) && Contents() == old(Contents())
      ensures TextOf(c, data, strings) == TextOf(comment, data, old(strings))
      ensures forall p | p in others :: Text(p, data, strings) == Text(p, data, old(strings))
    {
      hide Sound, Model;
      c := comment;
      if copy && comment.Some? {
        assert multiset{} + others == others;
        CopyIsSound(State(), limit, others, Text(comment.value, data, strings));
        var p := CopyString(comment.value);
        c := Some(p);
        assert others + multiset{p} == Held(c) + others;
      }
    }

    /**
      Adds an entry: the section when it is new, and the pair if there is one.
      With copy set every string that stays is copied; otherwise the pointers
      are kept, and must read from the loaded text.
    */
    method AddEntry(section: Ptr, key: Option<Ptr>, value: Option<Ptr>, comment0: Option<Ptr>, force: bool, copy: bool, ghost limit: nat)
      returns (inserted: bool)
      requires Sorted(Contents()) && IniMultimap.OrdersOk(Contents())
      requires Sound(State(), limit, if copy then multiset{} else Args(section, key, value, comment0))
      requires copy ==> CallersOwn(section, key, value, comment0)
      requires force ==> copy
      modifies this`strings, this`next, this`sections, this`order
      ensures ValidUpTo(limit)
      ensures (Contents(), inserted) == IniStore.AddEntry(old(Contents()), Text(section, data, old(strings)),
                                          PairOf(key, value, data, old(strings)), TextOf(comment0, data, old(strings)), force)
    {
      hide Sound, Text, TextSections, TextSection, TextKeys, Held, Lower, Upper, NameLess, Has, SetKey, SetInSection, IniMultimap.OrdersOk;
      ghost var before, pairText := Contents(), PairOf(key, value, data, strings);
      var name := Text(section, data, strings);
      IniMultimap.AddEntryKeepsOrders(before, name, pairText, TextOf(comment0, data, strings), force);
      var alone := key.None? || value.None?;
      SplitArgs(State(), limit, section, key, value, comment0, copy);
      ghost var pair := if alone then multiset{} else InHand(key.value, value.value, copy);
      ghost var others := pair + OwnSection(section, copy);
      var comment := CopyComment(comment0, copy, limit, others);
      ArgText(section, others, data, old(strings), strings);
      if alone {
        NothingInHand(Held(comment), OwnSection(section, copy));
        inserted := EnsureSection(section, comment, copy, limit, multiset{});
      } else {
        ArgText(key.value, others, data, old(strings), strings);
        ArgText(value.value, others, data, old(strings), strings);
        inserted := AddPair(section, name, key.value, value.value, comment, force, copy, limit);
      }
    }

    /** Adds a pair: its section when that is new, then the key. */
    method AddPair(section: Ptr, name: string, key: Ptr, value: Ptr, comment: Option<Ptr>, force: bool, copy: bool, ghost limit: nat)
      returns (inserted: bool)
      requires Sorted(Contents()) && IniMultimap.OrdersOk(Contents())
      requires Sound(State(), limit, Held(comment) + (InHand(key, value, copy) + OwnSection(section, copy)))
      requires (copy ==> section.Caller? && key.Caller? && value.Caller?) && (force ==> copy)
      requires name == Text(section, data, strings)
      modifies this`strings, this`next, this`sections, this`order
      ensures Sound(State(), limit, multiset{})
      ensures (Contents(), inserted) == IniStore.AddEntry(old(Contents()), name,
                Some((Text(key, data, old(strings)), Text(value, data, old(strings)))), TextOf(comment, data, old(strings)), force)
    {
      hide Sound, Text, TextSections, TextSection, TextKeys, Held, Lower, Upper, NameLess, SetKey, IniMultimap.OrdersOk, WithSection, SetInSection;
      ghost var before := Contents();
      ghost var hand := Held(comment) + InHand(key, value, copy);
      assert Held(comment) + (InHand(key, value, copy) + OwnSection(section, copy)) == hand + Held(None) + OwnSection(section, copy) by {
        NothingHeld();
      }
      HeldIn(comment, hand);
      WithSectionSorted(before, name, None);
      IniMultimap.WithSectionKeepsOrders(before, name, None);
      inserted := EnsureSection(section, None, copy, limit, hand);
      ArgText(key, hand, data, old(strings), strings);
      ArgText(value, hand, data, old(strings), strings);
      var i := Lower(SectionNames(TextSections(sections, data, strings)), name);
      var created := SetPair(i, key, value, comment, force, copy, limit);
      inserted := inserted || created;
    }

    method SetValue(section: string, key: Option<string>, value: Option<string>, comment: Option<string>, force: bool) returns (inserted: bool)
      requires Valid()
      modifies this`strings, this`next, this`sections, this`order
      ensures Valid()
      ensures (Contents(), inserted) == IniStore.AddEntry(old(Contents()), section,
                if key.Some? && value.Some? then Some((key.value, value.value)) else None, comment, force)
    {
      hide Sound, Model, Text, IniStore.AddEntry, Sorted, IniMultimap.OrdersOk;
      CallerReads(section, data, strings);
      CallerPair(key, value, data, strings);
      if comment.Some? {
        CallerReads(comment.value, data, strings);
      }
      inserted := AddEntry(Caller(section), FromCaller(key), FromCaller(value), FromCaller(comment), force, true, |data|);
    }

    // ----------------------------------------------------------------
    // Readers

    // The table of a section: its position, if there is one
    method FindTable(section: string) returns (found: bool, keys: seq<Key<string>>)
      requires Sorted(Contents())
      ensures found <==> IniMultimap.HasSection(Contents(), section)
      ensures found ==> keys == KeysOf(Contents(), section) && Ascending(KeyNames(keys))
      ensures !found ==> keys == []
    {
      hide TextSection, Lower, IniMultimap.FindSection;
      IniMultimap.HasIsFound(Contents(), section);
      var texts := TextSections(sections, data, strings);
      var i := Lower(SectionNames(texts), section);
      found := Has(SectionNames(texts), section);
      keys := if found then texts[i].keys else [];
    }

    /** The first value of a key, and whether there are more; no value when section or key is missing. */
    method GetValue(section: Option<string>, key: Option<string>) returns (value: Option<string>, hasMultiple: bool)
      requires Valid()
      ensures section.None? || key.None? ==> value == None && !hasMultiple
      ensures section.Some? && key.Some? ==>
        && value == IniMultimap.Shown(Contents(), section.value, key.value)
        && (hasMultiple <==> multiKey && |IniMultimap.Values(Contents(), section.value, key.value)| > 1)
    {
      hide Sound, Model, Lower, Upper, NameLess, IniMultimap.Matching, IniMultimap.OrdersOk, IniMultimap.FindSection;
      value, hasMultiple := None, false;
      if section.None? || key.None? {
        return;
      }
      var found, keys := FindTable(section.value);
      if !found {
        return;
      }
      var names := KeyNames(keys);
      var j := Lower(names, key.value);
      Zones(names, key.value);
      IniMultimap.GroupIsMatching(keys, key.value);
      if !Has(names, key.value) {
        return;
      }
      if multiKey && j + 1 < |keys| && !NameLess(key.value, names[j + 1]) {
        hasMultiple := true;
      }
      value := Some(keys[j].value);
    }

    /** All entries of a key in order of insertion. */
    method GetAllValues(section: Option<string>, key: Option<string>) returns (found: bool, values: seq<Item>)
      requires Valid()
      ensures found <==> section.Some? && key.Some? && IniMultimap.Values(Contents(), section.value, key.value) != []
      ensures values == if found then ValueItems(KeysOf(Contents(), section.value), key.value, multiKey) else []
    {
      hide Sound, Model, Lower, Upper, NameLess, IniMultimap.Matching, IniMultimap.OrdersOk, IniMultimap.FindSection;
      found, values := false, [];
      if section.None? || key.None? {
        return;
      }
      var has, keys := FindTable(section.value);
      if !has {
        return;
      }
      var names := KeyNames(keys);
      var j := Lower(names, key.value);
      Zones(names, key.value);
      IniMultimap.GroupIsMatching(keys, key.value);
      if !Has(names, key.value) {
        return;
      }
      found := true;
      values := [ToItem(keys[j])];
      if multiKey {
        var n := j + 1;
        while n < |keys| && !NameLess(key.value, names[n])
          invariant j < n <= Upper(names, key.value)
          invariant values == ToItems(keys[j..n])
        {
          assert keys[j..n+1] == keys[j..n] + [keys[n]];
          values := values + [ToItem(keys[n])];
          n := n + 1;
        }
      }
    }

    /** One entry per key name, in table order. */
    method GetAllKeys(section: Option<string>) returns (found: bool, items: seq<Item>)
      requires Valid()
      ensures found <==> section.Some? && IniMultimap.HasSection(Contents(), section.value)
      ensures items == if found then Heads(KeysOf(Contents(), section.value)) else []
    {
      hide Sound, Model, NameLess, IniMultimap.OrdersOk, IniMultimap.FindSection;
      found, items := false, [];
      if section.None? {
        return;
      }
      var keys;
      found, keys := FindTable(section.value);
      items := CollectHeads(keys);
    }

    /** The number of different keys of a section, or -1; entries are counted one by one when keys are single. */
    method GetSectionSize(section: Option<string>) returns (size: int)
      requires Valid()
      ensures section.None? || !IniMultimap.HasSection(Contents(), section.value) ==> size == -1
      ensures section.Some? && IniMultimap.HasSection(Contents(), section.value) ==>
        var keys := KeysOf(Contents(), section.value);
        size == if multiKey then |FoldedNames(keys)| else |keys|
    {
      hide Sound, Model, NameLess, IniMultimap.OrdersOk, IniMultimap.FindSection;
      if section.None? {
        return -1;
      }
      var found, keys := FindTable(section.value);
      if !found {
        return -1;
      }
      if !multiKey || keys == [] {
        NoNames();
        return |keys|;
      }
      HeadsNameEachKeyOnce(keys);
      var items := CollectHeads(keys);
      return |items|;
    }

    // ----------------------------------------------------------------
    // Load

    // While a text is loaded: pointers may reach up to the cursor in the text itself, or anywhere in the text loaded before
    ghost predicate Loading(buf: array<char>, cur: nat, copy: bool)
      reads this, buf
    {
      ValidUpTo(if copy then |data| else cur) && (!copy ==> data == buf[..])
    }

    /** The arguments for AddEntry: pointers into the text, or the caller's strings that are to be copied. */
    method FoundArgs(buf: array<char>, cur: nat, pSection: Option<nat>, r: Pointers, copy: bool,
                     ghost section: string, ghost pair: Option<(string, string)>, ghost comment: Option<string>)
      returns (name: Ptr, key: Option<Ptr>, value: Option<Ptr>, c: Option<Ptr>)
      requires !copy ==> data == buf[..]
      requires SectionPointer(buf, pSection, section, cur) && PairAt(buf, r, pair, cur) && CommentAt(buf, r.comment, comment, cur)
      ensures Text(name, data, strings) == section && PairOf(key, value, data, strings) == pair && TextOf(c, data, strings) == comment
      ensures copy ==> CallersOwn(name, key, value, c)
      ensures !copy ==> NoneOwned(name, key, value, c, data, strings, cur)
    {
      hide Text, Live, Stored, Arg;
      name := if pSection.Some? then Arg(buf, pSection.value, copy) else if copy then Caller("") else Static;
      key, value := None, None;
      if r.pair.Some? {
        key, value := Some(Arg(buf, r.pair.value.0, copy)), Some(Arg(buf, r.pair.value.1, copy));
        ArgReads(buf, r.pair.value.0, pair.value.0, cur, copy, data, strings);
        ArgReads(buf, r.pair.value.1, pair.value.1, cur, copy, data, strings);
      }
      c := if r.comment.Some? then Some(Arg(buf, r.comment.value, copy)) else None;
      if pSection.Some? {
        ArgReads(buf, pSection.value, section, cur, copy, data, strings);
      } else {
        EmptyReads(data, strings, cur);
      }
      if r.comment.Some? {
        ArgReads(buf, r.comment.value, comment.value, cur, copy, data, strings);
      }
    }

    /** The entry that the parser found goes into the tables. */
    method AddFound(buf: array<char>, cur: nat, pSection: Option<nat>, r: Pointers, copy: bool,
                    ghost section: string, ghost pair: Option<(string, string)>, ghost comment: Option<string>)
      requires Loading(buf, cur, copy)
      requires SectionPointer(buf, pSection, section, cur) && PairAt(buf, r, pair, cur) && CommentAt(buf, r.comment, comment, cur)
      modifies this`strings, this`next, this`sections, this`order
      ensures Loading(buf, cur, copy)
      ensures Contents() == IniStore.AddEntry(old(Contents()), section, pair, comment, false).0
    {
      hide Sound, Model, Sorted, IniMultimap.OrdersOk, Text, TextOf, Live, IniStore.AddEntry, Stored, PairAt, CommentAt, SectionPointer, CallersOwn, NoneOwned, Args, PairOf;
      ghost var limit := if copy then |data| else cur;
      var name, key, value, c := FoundArgs(buf, cur, pSection, r, copy, section, pair, comment);
      if !copy {
        HoldArgs(State(), cur, name, key, value, c);
      }
      var inserted := AddEntry(name, key, value, c, false, copy, limit);
    }

    /** The block that the text is parsed in: the text and a NUL; its size is kept for DeleteString. */
    method OpenText(text: string, copy: bool) returns (buf: array<char>)
      requires Valid() && (!copy ==> !loaded)
      modifies this`data
      ensures fresh(buf) && Ahead(buf, Effective(text), 0)
      ensures Loading(buf, 0, copy) && Contents() == old(Contents())
      ensures copy ==> data == old(data)
    {
      hide Sound, Model, Sorted, IniMultimap.OrdersOk, Text, Live;
      buf := new char[|text| + 1](i => if 0 <= i < |text| then text[i] else NUL);
      assert Ahead(buf, Effective(text), 0) by {
        assert FirstOf(text, 0, {NUL}) < |text| ==> text[FirstOf(text, 0, {NUL})] == NUL;
      }
      if !copy {
        FirstDataIsSound(State(), buf[..], 0);
        data := buf[..];
      }
    }

    /** Keeps data the content of the block that is being parsed; pointers into what was parsed before read as before. */
    method Refresh(buf: array<char>, copy: bool, ghost from: nat, ghost cur: nat)
      requires ValidUpTo(if copy then |data| else from)
      requires !copy ==> |data| == buf.Length && from <= cur && from < |data|
      requires !copy ==> (forall k | 0 <= k < from :: buf[k] == data[k]) && (data[from] == NUL ==> buf[from] == NUL)
      modifies this`data
      ensures Loading(buf, cur, copy) && Contents() == old(Contents())
      ensures copy ==> data == old(data)
    {
      hide Sound, Model, Sorted, IniMultimap.OrdersOk;
      if !copy {
        DataIsSound(State(), from, multiset{}, buf[..], cur);
        data := buf[..];
      }
    }

    /** The comment at the start of the text, unless a file comment is known already. */
    method FindFileComment(buf: array<char>, copy: bool, ghost t: string) returns (cur: nat)
      requires Ahead(buf, t, 0) && Loading(buf, 0, copy)
      modifies this`strings, this`next, this`fileComment, this`data, buf
      ensures cur <= |t| && cur == IniMultimap.EntriesStart(old(Contents()), t)
      ensures Ahead(buf, t, cur) && Loading(buf, cur, copy)
      ensures Contents() == IniMultimap.WithFileComment(old(Contents()), t)
      ensures copy ==> data == old(data)
    {
      hide Sound, Sorted, IniMultimap.OrdersOk, Text, Live, TextSections, CommentBlock;
      if fileComment.Some? {
        return 0;
      }
      var ok;
      ok, cur := LoadMultiLineText(buf, 0, None, false, t, None);
      Refresh(buf, copy, 0, cur);
      if ok {
        ghost var text := Join(CommentBlock(t, 0, false).lines);
        ArgReads(buf, 0, text, cur, copy, data, strings);
        SetFileComment(Arg(buf, 0, copy), copy, if copy then |data| else cur);
      }
    }

    method SetFileComment(p: Ptr, copy: bool, ghost limit: nat)
      requires ValidUpTo(limit) && fileComment.None?
      requires if copy then p.Caller? else !p.Owned? && Live(p, data, strings, limit)
      modifies this`strings, this`next, this`fileComment
      ensures ValidUpTo(limit)
      ensures Contents() == old(Contents()).(fileComment := Some(Text(p, data, old(strings))))
    {
      hide Sound, Text, Live, TextSections, Sorted, IniMultimap.OrdersOk;
      var q := p;
      if copy {
        CopyIsSound(State(), limit, multiset{}, Text(p, data, strings));
        q := CopyString(p);
        assert multiset{} + multiset{q} == multiset{q};
      } else {
        HoldUnowned(State(), limit, multiset{p});
      }
      FileCommentIsSound(State(), limit, q);
      fileComment := Some(q);
    }

    /** One turn of the loading loop: the next entry is parsed in place and added. */
    method LoadEntry(buf: array<char>, cur: nat, pSection: Option<nat>, copy: bool, ghost t: string, ghost name: string, ghost goal: Store)
      returns (ok: bool, cur': nat, pSection': Option<nat>, ghost name': string)
      requires Ahead(buf, t, cur) && Loading(buf, cur, copy)
      requires SectionPointer(buf, pSection, name, cur)
      requires Clean(t, cur, multiLine) && IniMultimap.AddAll(Contents(), Entries(t, cur, name, multiLine)) == goal
      modifies this`strings, this`next, this`sections, this`order, this`data, buf
      ensures copy ==> data == old(data)
      ensures !ok ==> Loading(buf, cur, copy) && Contents() == goal
      ensures ok ==> cur < cur' && Ahead(buf, t, cur') && Loading(buf, cur', copy) && SectionPointer(buf, pSection', name', cur')
      ensures ok ==> Clean(t, cur', multiLine) && IniMultimap.AddAll(Contents(), Entries(t, cur', name', multiLine)) == goal
    {
      hide Sound, Model, Sorted, IniMultimap.OrdersOk, IniStore.AddEntry, Find, IniMultimap.AddAll;
      ghost var before, found := Contents(), Find(t, cur, SectionRef.Unchanged, None, multiLine);
      name', pSection' := name, pSection;
      var r;
      ok, cur', r := FindEntry(buf, cur, multiLine, t);
      Refresh(buf, copy, cur, if ok then cur' else cur);
      if !ok {
        NothingToAdd(before);
        return;
      }
      pSection' := if r.section.Some? then r.section else pSection;
      name' := if found.Header? then found.name else NameOf(found.section, name);
      ghost var pair := if found.Header? then None else Some((found.key, found.value));
      AddFound(buf, cur', pSection', r, copy, name', pair, found.comment);
      NextToAdd(before, Entry(name', pair, found.comment), Entries(t, cur', name', multiLine));
    }

    /**
      Loads a text on top of what is there. The leading comment becomes the file
      comment, and every entry is added, as pointers into the text when it is
      the first one and as copies otherwise.
    */
    method Load(text: string)
      requires Valid()
      requires var t := Effective(Payload(text, storeIsUtf8)); Clean(t, IniMultimap.EntriesStart(Contents(), t), multiLine)
      modifies this`strings, this`next, this`sections, this`order, this`fileComment, this`data, this`loaded
      ensures Valid()
      ensures text == "" ==> Contents() == old(Contents()) && loaded == old(loaded)
      ensures text != "" ==> loaded && Contents() == IniMultimap.LoadText(old(Contents()), Effective(Payload(text, storeIsUtf8)), multiLine)
    {
      hide Sound, Model, Sorted, IniMultimap.OrdersOk, IniMultimap.AddAll, Entries, Clean, FirstOf;
      if text == "" {
        return;
      }
      var payload := Payload(text, storeIsUtf8);
      ghost var t := Effective(payload);
      ghost var before := Contents();
      var copy := loaded;
      var buf := OpenText(payload, copy);
      var cur := FindFileComment(buf, copy, t);
      ghost var goal := IniMultimap.LoadText(before, t, multiLine);
      var pSection: Option<nat> := None;
      ghost var name := "";
      var ok := true;
      while ok
        invariant Loading(buf, cur, copy) && copy == loaded
        invariant ok ==> Ahead(buf, t, cur) && SectionPointer(buf, pSection, name, cur)
        invariant ok ==> Clean(t, cur, multiLine) && IniMultimap.AddAll(Contents(), Entries(t, cur, name, multiLine)) == goal
        invariant !ok ==> Contents() == goal
        invariant copy ==> data == old(data)
        decreases ok, |t| - cur
      {
        var next, section;
        ok, next, section, name := LoadEntry(buf, cur, pSection, copy, t, name, goal);
        if ok {
          cur, pSection := next, section;
        }
      }
      if !copy {
        WholeText(State(), cur);
        loaded := true;
      }
    }

    // ----------------------------------------------------------------
    // Save

    method GetAllSections() returns (items: seq<Item>)
      requires Valid()
      ensures items == SectionItems(Contents().sections)
    {
      hide Sound, Sorted, IniMultimap.OrdersOk, TextSection;
      var texts := TextSections(sections, data, strings);
      items := [];
      var n := 0;
      while n < |texts|
        invariant 0 <= n <= |texts|
        invariant items == SectionItems(texts)[..n]
      {
        items := items + [Item(texts[n].name, texts[n].comment, texts[n].order)];
        n := n + 1;
      }
      assert SectionItems(texts)[..n] == SectionItems(texts);
    }

    /** Writes all values of one key. */
    method WriteKey(out: string, section: string, key: string) returns (out': string)
      requires Valid() && IniMultimap.Values(Contents(), section, key) != []
      ensures out' == out + PairsText(key, DocValues(ValueItems(KeysOf(Contents(), section), key, multiKey)), Format(multiLine, spaces))
    {
      hide Sound, Model, Sorted, IniMultimap.OrdersOk, IniMultimap.Matching, IniMultimap.FindSection, ValueItems, PairText;
      var found, values := GetAllValues(Some(section), Some(key));
      ghost var docs, fmt := DocValues(values), Format(multiLine, spaces);
      out' := out;
      var n := 0;
      while n < |values|
        invariant 0 <= n <= |values|
        invariant out' == out + PairsText(key, docs[..n], fmt)
      {
        assert docs[..n+1][..n] == docs[..n];
        out' := WritePair(out', key, values[n], multiLine, spaces);
        n := n + 1;
      }
      assert docs[..n] == docs;
    }

    /** Writes the keys of one section in load order. */
    method WriteKeys(out: string, section: string) returns (out': string)
      requires Valid() && IniMultimap.HasSection(Contents(), section)
      ensures out' == out + KeysText(DocKeys(KeysOf(Contents(), section), multiKey), Format(multiLine, spaces))
    {
      hide Sound, Model, Sorted, IniMultimap.OrdersOk, IniMultimap.Matching, IniMultimap.FindSection, ValueItems, PairsText, Heads, SortByOrder, DocValues;
      var found, items := GetAllKeys(Some(section));
      var sorted := SortByOrder(items);
      ghost var keys := KeysOf(Contents(), section);
      ghost var docs, fmt := DocKeys(keys, multiKey), Format(multiLine, spaces);
      out' := out;
      var n := 0;
      while n < |sorted|
        invariant 0 <= n <= |sorted|
        invariant out' == out + KeysText(docs[..n], fmt)
      {
        assert docs[..n+1][..n] == docs[..n];
        HeadHasValues(Contents(), section, n);
        out' := WriteKey(out', section, sorted[n].item);
        n := n + 1;
      }
      assert docs[..n] == docs;
    }

    /** Writes one section with its keys. */
    method WriteSection(out: string, s: Item, needNewLine: bool) returns (out': string)
      requires Valid() && IniMultimap.HasSection(Contents(), s.item)
      ensures out' == out + SectionText(DocSection(s.item, s.comment, DocKeys(KeysOf(Contents(), s.item), multiKey)), !needNewLine, Format(multiLine, spaces))
    {
      hide Sound, Model, Sorted, IniMultimap.OrdersOk, IniMultimap.FindSection, KeysOf, DocKeys, KeysText;
      out' := WriteHead(out, s, needNewLine);
      ghost var doc := DocSection(s.item, s.comment, DocKeys(KeysOf(Contents(), s.item), multiKey));
      out' := WriteKeys(out', s.item);
      Regroup(out, HeadText(doc, !needNewLine), KeysText(doc.keys, Format(multiLine, spaces)), "");
    }

    /** Writes the store: its sections, keys and values in load order. */
    method Save(addSignature: bool) returns (out: string)
      requires Valid()
      ensures out == (if storeIsUtf8 && addSignature then SIGNATURE else "") + DocText(DocOf(Contents()), Format(multiLine, spaces))
    {
      hide Sound, Model, Sorted, IniMultimap.OrdersOk, IniMultimap.FindSection, IniMultimap.HasSection, SortByOrder, KeysOf, DocKeys, LinesText, KeysText, SectionsText, SectionText, HeadText;
      out := if storeIsUtf8 && addSignature then SIGNATURE else "";
      var items := GetAllSections();
      var sorted := SortByOrder(items);
      ghost var start := out;
      ghost var docs, fmt := DocSections(Contents()), Format(multiLine, spaces);
      var needNewLine := false;
      if fileComment.Some? {
        out := OutputMultiLineText(out, Text(fileComment.value, data, strings));
        needNewLine := true;
      }
      FileCommentText(State());
      ghost var opening := out;
      ghost var first := fileComment.None?;
      var n := 0;
      SectionsNone(first, fmt);
      while n < |sorted|
        invariant 0 <= n <= |sorted|
        invariant needNewLine == !(first && n == 0)
        invariant out == opening + SectionsText(docs[..n], first, fmt)
      {
        SectionsNext(docs, n, first, fmt);
        SectionItemFound(Contents(), n);
        out := WriteSection(out, sorted[n], needNewLine);
        Associate(opening, SectionsText(docs[..n], first, fmt), SectionText(docs[n], first && n == 0, fmt));
        needNewLine := true;
        n := n + 1;
      }
      assert docs[..n] == docs;
    }
  }

  lemma WithSectionIs(st: Store, s: string, comment: Option<string>)
    ensures var ns := SectionNames(st.sections);
            WithSection(st, s, comment) ==
            if Has(ns, s) then st
            else
              st.(sections := st.sections[..Lower(ns, s)] + [Section(s, comment, st.order + 1, [])] + st.sections[Lower(ns, s)..], order := st.order + 1)
  {
  }

  lemma EmptyIsSound(db: Db)
    requires db.sections == [] && db.fileComment == None && db.strings == map[] && db.data == []
    ensures Sound(db, 0, multiset{}) && Model(db) == Store([], None, db.order, db.multiKey)
    ensures Sorted(Model(db)) && IniMultimap.OrdersOk(Model(db))
  {
  }

  lemma MultiKeyIsSound(db: Db, allow: bool)
    ensures Model(db.(multiKey := allow)) == Model(db).(multiKey := allow)
    ensures Sorted(Model(db)) ==> Sorted(Model(db).(multiKey := allow))
    ensures IniMultimap.OrdersOk(Model(db)) ==> IniMultimap.OrdersOk(Model(db).(multiKey := allow))
    ensures forall limit, holding | Sound(db, limit, holding) :: Sound(db.(multiKey := allow), limit, holding)
  {
    hide IniMultimap.Orders, IniMultimap.SectionOrdersOk, IniMultimap.Distinct, Ascending, StrictlyAscending;
  }

  lemma FileCommentText(db: Db)
    ensures Model(db).fileComment == TextOf(db.fileComment, db.data, db.strings) && Model(db).multiKey == db.multiKey
  {
  }

  // A listed section can be looked up by its name
  lemma SectionItemFound(st: Store, n: nat)
    requires Sorted(st) && n < |SortByOrder(SectionItems(st.sections))|
    ensures IniMultimap.HasSection(st, SortByOrder(SectionItems(st.sections))[n].item)
  {
    hide SortByOrder;
    var items := SectionItems(st.sections);
    SortByOrderSorts(items);
    assert SortByOrder(items)[n] in multiset(SortByOrder(items));
    var a :| 0 <= a < |items| && items[a] == SortByOrder(items)[n];
    SectionIsFound(st, a);
  }

  /** Writes what comes before the keys of a section. */
  method WriteHead(out: string, s: Item, needNewLine0: bool) returns (out': string)
    ensures forall keys :: out' == out + HeadText(DocSection(s.item, s.comment, keys), !needNewLine0)
  {
    hide LinesText;
    var needNewLine := needNewLine0;
    out' := out;
    if s.comment.Some? {
      if needNewLine {
        out' := out' + NEWLINE;
        out' := out' + NEWLINE;
      }
      out' := OutputMultiLineText(out', s.comment.value);
      needNewLine := false;
    }
    if needNewLine {
      out' := out' + NEWLINE;
      out' := out' + NEWLINE;
      needNewLine := false;
    }
    if s.item != "" {
      out' := out' + "[";
      out' := out' + s.item;
      out' := out' + "]";
      out' := out' + NEWLINE;
    }
  }

  lemma NothingInHand(a: multiset<Ptr>, b: multiset<Ptr>)
    ensures a + (multiset{} + b) == multiset{} + a + b
  {
  }

  // The text without the UTF-8 signature
  function Payload(text: string, isUtf8: bool): string {
    if isUtf8 && SIGNATURE <= text then text[3..] else text
  }

  // The section name that entries are added to: none so far, or a string of the text
  ghost predicate SectionPointer(buf: array<char>, pSection: Option<nat>, name: string, cur: nat)
    reads buf
  {
    if pSection.None? then name == "" else Stored(buf, pSection.value, name, cur)
  }

  /** Writes a value, as a block of lines when it does not fit on one. */
  method WriteValue(out: string, v: string, multiLine: bool, spaces: bool) returns (out': string)
    ensures out' == out + ValueText(v, Format(multiLine, spaces))
  {
    hide LinesText, IsMultiLineData;
    BlockOpening();
    out' := out;
    var long := false;
    if multiLine {
      long := TestMultiLineData(v);
    }
    if long {
      out' := out' + ("<<<SI-END-OF-MULTILINE-TEXT" + NEWLINE);
      out' := OutputMultiLineText(out', v);
      out' := out' + "SI-END-OF-MULTILINE-TEXT";
      Regroup(out, "<<<SI-END-OF-MULTILINE-TEXT" + NEWLINE, LinesText(v), "SI-END-OF-MULTILINE-TEXT");
    } else {
      out' := out' + v;
    }
  }

  lemma BlockOpening()
    ensures "<<<SI-END-OF-MULTILINE-TEXT" + NEWLINE == "<<<" + END_TAG + NEWLINE && END_TAG == "SI-END-OF-MULTILINE-TEXT"
  {
  }

  lemma Associate(a: string, b: string, c: string)
    ensures a + b + c == a + (b + c)
  {
  }

  lemma Regroup(a: string, b: string, c: string, d: string)
    ensures a + b + c + d == a + (b + c + d)
  {
  }

  /** Writes one key with one value, its comment before it. */
  method WritePair(out: string, key: string, v: Item, multiLine: bool, spaces: bool) returns (out': string)
    ensures out' == out + PairText(key, DocValue(v.item, v.comment), Format(multiLine, spaces))
  {
    hide LinesText, ValueText;
    out' := out;
    if v.comment.Some? {
      out' := out' + NEWLINE;
      out' := OutputMultiLineText(out', v.comment.value);
      Regroup(out, NEWLINE, LinesText(v.comment.value), "");
    }
    assert out' == out + CommentText(v.comment);
    ghost var start := out';
    var equals := if spaces then " = " else "=";
    out' := out' + key;
    out' := out' + equals;
    out' := WriteValue(out', v.item, multiLine, spaces);
    out' := out' + NEWLINE;
    Regroup(start + key, equals, ValueText(v.item, Format(multiLine, spaces)), NEWLINE);
    Regroup(out, CommentText(v.comment), key, equals + ValueText(v.item, Format(multiLine, spaces)) + NEWLINE);
    Regroup(CommentText(v.comment) + key, equals, ValueText(v.item, Format(multiLine, spaces)), NEWLINE);
  }

  /** Writes a text line by line. */
  method OutputMultiLineText(out: string, text: string) returns (out': string)
    ensures out' == out + LinesText(text)
  {
    hide *;
    out' := out;
    var rest := text;
    var more := text != "";
    ghost var done: seq<string> := [];
    StartLines(out, text);
    while more
      invariant more ==> text != "" && done + SplitLines(rest) == SplitLines(text)
      invariant !more ==> text == "" || done == SplitLines(text)
      invariant out' == out + Unlines(done)
      invariant text == "" ==> !more && done == []
      decreases more, |rest|
    {
      var e := FirstOf(rest, 0, {'\n'});
      more := e < |rest|;
      NextLine(out, done, rest);
      out' := out' + rest[..e];
      out' := out' + NEWLINE;
      done := done + [rest[..e]];
      rest := if more then rest[e+1..] else rest;
    }
  }

  lemma StartLines(out: string, text: string)
    ensures out == out + Unlines([]) && [] + SplitLines(text) == SplitLines(text)
    ensures LinesText(text) == if text == "" then Unlines([]) else Unlines(SplitLines(text))
  {
    hide SplitLines;
  }

  // One line more
  lemma NextLine(out: string, done: seq<string>, rest: string)
    ensures var e := FirstOf(rest, 0, {'\n'});
            && out + Unlines(done) + rest[..e] + NEWLINE == out + Unlines(done + [rest[..e]])
            && (e < |rest| ==> done + SplitLines(rest) == (done + [rest[..e]]) + SplitLines(rest[e+1..]))
            && (e == |rest| ==> done + SplitLines(rest) == done + [rest[..e]])
  {
    hide Unlines, FirstOf;
    var e := FirstOf(rest, 0, {'\n'});
    UnlinesSnoc(done, rest[..e]);
    Regroup(out, Unlines(done), rest[..e], NEWLINE);
    if e == |rest| {
      assert rest[..e] == rest;
    }
  }

  /** Looks for white space at the start, a line break inside, and white space at the end, in that order. */
  method TestMultiLineData(v: string) returns (long: bool)
    ensures long == IsMultiLineData(v)
  {
    if v == "" {
      return false;
    }
    if IsSpace(v[0]) {
      return true;
    }
    var i := 0;
    while i < |v|
      invariant 0 <= i <= |v|
      invariant forall k | 0 <= k < i :: !IsNewLineChar(v[k])
    {
      if IsNewLineChar(v[i]) {
        return true;
      }
      i := i + 1;
    }
    return IsSpace(v[i - 1]);
  }

  lemma HeadHasValues(st: Store, section: string, n: nat)
    requires Sorted(st) && IniMultimap.HasSection(st, section)
    requires n < |SortByOrder(Heads(KeysOf(st, section)))|
    ensures IniMultimap.Values(st, section, SortByOrder(Heads(KeysOf(st, section)))[n].item) != []
  {
    hide SortByOrder, Heads;
    var keys := KeysOf(st, section);
    var items := SortByOrder(Heads(keys));
    SortByOrderSorts(Heads(keys));
    assert items[n] in multiset(items);
    var h :| 0 <= h < |Heads(keys)| && Heads(keys)[h] == items[n];
    HeadIsMatched(keys, h);
  }

  lemma NothingToAdd(st: Store)
    requires Sorted(st)
    ensures IniMultimap.AddAll(st, []) == st
  {
  }

  lemma NextToAdd(st: Store, e: Entry, es: seq<Entry>)
    requires Sorted(st)
    ensures var st' := IniStore.AddEntry(st, e.section, e.pair, e.comment, false).0;
            Sorted(st') && IniMultimap.AddAll(st, [e] + es) == IniMultimap.AddAll(st', es)
  {
    IniMultimap.AddEntrySorted(st, e.section, e.pair, e.comment, false);
    assert ([e] + es)[1..] == es;
  }

  // Pointers that reach up to the cursor are good for the whole text
  lemma WholeText(db: Db, cur: nat)
    requires Sound(db, cur, multiset{})
    ensures Sound(db, |db.data|, multiset{})
  {
    hide Ptrs, CStr;
  }

  lemma FileCommentIsSound(db: Db, limit: nat, q: Ptr)
    requires db.fileComment.None? && Sound(db, limit, multiset{q}) && Sorted(Model(db)) && IniMultimap.OrdersOk(Model(db))
    ensures var db' := db.(fileComment := Some(q));
            Sound(db', limit, multiset{}) && Sorted(Model(db')) && IniMultimap.OrdersOk(Model(db'))
  {
    hide Sound, TextSections;
    var db' := db.(fileComment := Some(q));
    assert Ptrs(db') + multiset{} <= Ptrs(db) + multiset{q};
    MoveIsSound(db, limit, multiset{q}, db', multiset{});
  }

  // The pointer to an ended string of the text, or the string itself when it is going to be copied
  function Arg(buf: array<char>, p: nat, copy: bool): Ptr
    reads buf
  {
    if !copy then Data(p)
    else Caller(if p <= buf.Length then CStr(buf[..], p) else "")
  }

  lemma ArgReads(buf: array<char>, p: nat, s: string, cur: nat, copy: bool, data: seq<char>, strings: map<nat, string>)
    requires Stored(buf, p, s, cur) && (!copy ==> data == buf[..])
    ensures Text(Arg(buf, p, copy), data, strings) == s
    ensures copy ==> Arg(buf, p, copy).Caller?
    ensures !copy ==> Arg(buf, p, copy).Data? && Live(Arg(buf, p, copy), data, strings, cur)
  {
    StoredIsLive(buf, p, s, cur, strings);
    StoredReads(buf, p, s, cur);
  }

  lemma EmptyReads(data: seq<char>, strings: map<nat, string>, cur: nat)
    ensures Text(Static, data, strings) == Text(Caller(""), data, strings) == ""
    ensures Live(Static, data, strings, cur)
  {
  }

  // The key and the value that the parser points to
  ghost predicate PairAt(buf: array<char>, r: Pointers, pair: Option<(string, string)>, cur: nat)
    reads buf
  {
    match pair
    case None => r.pair == None
    case Some((k, v)) => r.pair.Some? && Stored(buf, r.pair.value.0, k, cur) && Stored(buf, r.pair.value.1, v, cur)
  }

  // Pointers that are live but not to blocks of their own
  ghost predicate NoneOwned(section: Ptr, key: Option<Ptr>, value: Option<Ptr>, comment: Option<Ptr>, data: seq<char>, strings: map<nat, string>, limit: nat) {
    forall p | p in [section] + AsSeq(key) + AsSeq(value) + AsSeq(comment) :: !p.Owned? && Live(p, data, strings, limit)
  }

  lemma HoldArgs(db: Db, limit: nat, section: Ptr, key: Option<Ptr>, value: Option<Ptr>, comment: Option<Ptr>)
    requires Sound(db, limit, multiset{}) && NoneOwned(section, key, value, comment, db.data, db.strings, limit)
    ensures Sound(db, limit, Args(section, key, value, comment))
  {
    hide Sound, Live;
    forall p | p in Args(section, key, value, comment)
      ensures p in [section] + AsSeq(key) + AsSeq(value) + AsSeq(comment)
    {
    }
    HoldUnowned(db, limit, Args(section, key, value, comment));
  }

  ghost function AsSeq(p: Option<Ptr>): seq<Ptr> {
    if p.Some? then [p.value] else []
  }

  /** Walks a key table, keeping each entry whose name differs from the last one kept. */
  method CollectHeads(keys: seq<Key<string>>) returns (items: seq<Item>)
    requires Ascending(KeyNames(keys))
    ensures items == Heads(keys)
  {
    hide Lexicographic.Less;
    items := [];
    var lastKey: Option<string> := None;
    var n := 0;
    while n < |keys|
      invariant 0 <= n <= |keys|
      invariant items == Heads(keys[..n])
      invariant n == 0 <==> lastKey == None
      invariant n > 0 ==> SameName(lastKey.value, keys[n-1].name)
    {
      HeadsNext(keys, n);
      if lastKey.None? || NameLess(lastKey.value, keys[n].name) {
        items := items + [Item(keys[n].name, keys[n].comment, keys[n].order)];
        lastKey := Some(keys[n].name);
      }
      n := n + 1;
    }
    assert keys[..n] == keys;
  }

  lemma HeadsNext(keys: seq<Key<string>>, n: nat)
    requires n < |keys| && Ascending(KeyNames(keys))
    ensures Heads(keys[..n+1]) == Heads(keys[..n]) +
            (if n == 0 || NameLess(keys[n-1].name, keys[n].name) then [Item(keys[n].name, keys[n].comment, keys[n].order)] else [])
    ensures n > 0 && !NameLess(keys[n-1].name, keys[n].name) ==> SameName(keys[n-1].name, keys[n].name)
  {
    assert keys[..n+1][..n] == keys[..n];
    if n > 0 {
      assert !NameLess(KeyNames(keys)[n], KeyNames(keys)[n-1]);
      NameTrichotomy(keys[n-1].name, keys[n].name);
    }
  }

  lemma CallerReads(s: string, data: seq<char>, strings: map<nat, string>)
    ensures Text(Caller(s), data, strings) == s
  {
  }

  lemma CallerPair(key: Option<string>, value: Option<string>, data: seq<char>, strings: map<nat, string>)
    ensures PairOf(FromCaller(key), FromCaller(value), data, strings)
         == if key.Some? && value.Some? then Some((key.value, value.value)) else None
  {
  }

  function FromCaller(s: Option<string>): Option<Ptr> {
    if s.Some? then Some(Caller(s.value)) else None
  }

  lemma NothingHeld()
    ensures Held(None) == multiset{}
  {
  }

  lemma ArgText(p: Ptr, held: multiset<Ptr>, data: seq<char>, strings: map<nat, string>, strings': map<nat, string>)
    requires p.Caller? || p in held
    requires forall q | q in held :: Text(q, data, strings) == Text(q, data, strings')
    ensures Text(p, data, strings) == Text(p, data, strings')
  {
  }

  // The section pointer is held by the operation unless it is the caller's
  ghost function OwnSection(section: Ptr, copy: bool): multiset<Ptr> {
    if copy then multiset{} else multiset{section}
  }

  lemma SplitArgs(db: Db, limit: nat, section: Ptr, key: Option<Ptr>, value: Option<Ptr>, comment: Option<Ptr>, copy: bool)
    requires Sound(db, limit, if copy then multiset{} else Args(section, key, value, comment))
    ensures var pair := if key.None? || value.None? then multiset{} else InHand(key.value, value.value, copy);
            Sound(db, limit, (if copy then multiset{} else Held(comment)) + (pair + OwnSection(section, copy)))
  {
    var pair := if key.None? || value.None? then multiset{} else InHand(key.value, value.value, copy);
    hide Sound;
    if copy {
      assert multiset{} + (pair + OwnSection(section, copy)) == multiset{};
    } else {
      LessHolding(db, limit, Args(section, key, value, comment), Held(comment) + (pair + OwnSection(section, copy)));
    }
  }

  // All arguments are strings of the caller
  ghost predicate CallersOwn(section: Ptr, key: Option<Ptr>, value: Option<Ptr>, comment: Option<Ptr>) {
    && section.Caller? && (key.Some? ==> key.value.Caller?)
    && (value.Some? ==> value.value.Caller?) && (comment.Some? ==> comment.value.Caller?)
  }

  function PairOf(key: Option<Ptr>, value: Option<Ptr>, data: seq<char>, strings: map<nat, string>): Option<(string, string)> {
    if key.Some? && value.Some? then Some((Text(key.value, data, strings), Text(value.value, data, strings))) else None
  }

  lemma CallerText(p: Ptr, data: seq<char>, strings: map<nat, string>, strings': map<nat, string>)
    requires p.Caller?
    ensures Text(p, data, strings) == Text(p, data, strings')
  {
  }

  // What a running operation holds of a pair: nothing when it will copy it
  ghost function InHand(key: Ptr, value: Ptr, copy: bool): multiset<Ptr> {
    if copy then multiset{} else multiset{key} + multiset{value}
  }

  lemma CounterIsSound(db: Db, db': Db, limit: nat, holding: multiset<Ptr>)
    requires Sound(db, limit, holding) && db' == db.(order := db'.order)
    ensures Sound(db', limit, holding)
  {
    hide Live;
    SamePtrs(db, db');
  }

  lemma OrdersBelowCounter(db: Db, i: nat)
    requires i < |db.sections| && IniMultimap.OrdersOk(Model(db))
    ensures forall n | 0 <= n < |db.sections[i].keys| :: db.sections[i].keys[n].order <= db.order
  {
    hide Text;
    var m := Model(db);
    var keys := m.sections[i].keys;
    IniMultimap.OrdersAt(m.sections, i, m.sections[i]);
    forall n | 0 <= n < |db.sections[i].keys|
      ensures db.sections[i].keys[n].order <= db.order
    {
      IniMultimap.KeyOrderIn(keys, n);
      assert keys[n].order in IniMultimap.Orders(m.sections);
    }
  }

  lemma InPtrs(db: Db, i: nat, p: Ptr)
    requires i < |db.sections| && multiset{p} <= KeysPtrs(db.sections[i].keys)
    ensures p in Ptrs(db)
  {
    hide KeysPtrs, SectionsPtrs;
    PtrsAt(db, i, db.sections[i]);
    assert p in multiset{p};
  }

  lemma SumMonotone(a: multiset<Ptr>, b: multiset<Ptr>, c: multiset<Ptr>, d: multiset<Ptr>)
    requires a <= b + c
    ensures a + d <= b + (d + c)
  {
  }

  ghost function PutKeys(st: Store, i: nat, keys: seq<Key<string>>): Store
    requires i < |st.sections|
  {
    st.(sections := st.sections[i := st.sections[i].(keys := keys)])
  }

  // The first of the entries j to u that has the least load order
  ghost predicate FirstLeast<P>(keys: seq<Key<P>>, j: nat, u: nat, pick: nat) {
    && j <= pick < u <= |keys|
    && (forall n | j <= n < u :: keys[pick].order <= keys[n].order)
    && (forall n | j <= n < pick :: keys[pick].order < keys[n].order)
  }

  /** Walks over the entries of a key, keeping the least load order and its comment. */
  method ScanGroup(keys: seq<Key<Ptr>>, names: seq<string>, j: nat, k: string, order: int)
    returns (loadOrder: int, comment: Option<Ptr>, ghost pick: nat)
    requires |names| == |keys| && Ascending(names) && Has(names, k) && j == Lower(names, k)
    requires forall n | 0 <= n < |keys| :: keys[n].order < order
    ensures FirstLeast(keys, j, Upper(names, k), pick) && loadOrder == keys[pick].order && comment == keys[pick].comment
  {
    hide NameLess, SameName, Lower, Upper, Has, Ascending;
    Zones(names, k);
    loadOrder, comment, pick := order, None, j;
    var n := j;
    while n < |keys| && !NameLess(k, names[n])
      invariant j <= n <= Upper(names, k)
      invariant n == j ==> loadOrder == order
      invariant j < n ==> FirstLeast(keys, j, n, pick) && loadOrder == keys[pick].order && comment == keys[pick].comment
    {
      if keys[n].order < loadOrder {
        loadOrder := keys[n].order;
        comment := keys[n].comment;
        pick := n;
      }
      n := n + 1;
    }
  }

  lemma {:induction false} OldestIsFirstLeast(keys: seq<Key<string>>, j: nat, u: nat, pick: nat)
    requires FirstLeast(keys, j, u, pick)
    ensures Oldest(keys[j..u]) == keys[pick]
    decreases u
  {
    hide Oldest;
    var last := u - 1;
    assert keys[j..u] == keys[j..last] + [keys[last]];
    OldestSnoc(keys[j..last], keys[last]);
    if j < last {
      if pick == last {
        OldestInside(keys[j..last]);
      } else {
        OldestIsFirstLeast(keys, j, last, pick);
      }
    }
  }

  lemma OldestInside(g: seq<Key<string>>)
    requires g != []
    ensures exists n | 0 <= n < |g| :: g[n] == Oldest(g)
  {
    assert Oldest(g) in g;
  }

  // The group of a key as a stretch of its table
  lemma GroupAt(db: Db, i: nat, k: string)
    requires i < |db.sections| && Sorted(Model(db))
    ensures var texts := TextKeys(db.sections[i].keys, db.data, db.strings);
            var names := KeyNames(texts);
            && i < |Model(db).sections| && Model(db).sections[i].keys == texts && Ascending(names)
            && Lower(names, k) <= Upper(names, k) && KeyGroup(texts, k) == texts[Lower(names, k)..Upper(names, k)]
  {
    hide Lower, Upper, NameLess, TextKeys, Ascending, Sorted, Model;
    ModelKeys(db, i);
    KeysSorted(Model(db), i);
    Zones(KeyNames(TextKeys(db.sections[i].keys, db.data, db.strings)), k);
  }

  lemma TextKeyOrders(keys: seq<Key<Ptr>>, data: seq<char>, strings: map<nat, string>)
    ensures var texts := TextKeys(keys, data, strings);
            && |texts| == |keys|
            && forall j, u, pick :: FirstLeast(keys, j, u, pick) ==> FirstLeast(texts, j, u, pick)
  {
  }

  lemma TextKeyAt(keys: seq<Key<Ptr>>, n: nat, data: seq<char>, strings: map<nat, string>)
    requires n < |keys|
    ensures n < |TextKeys(keys, data, strings)|
    ensures var k := TextKeys(keys, data, strings)[n];
            k.order == keys[n].order && k.comment == TextOf(keys[n].comment, data, strings)
  {
  }

  lemma OldestSnoc(g: seq<Key<string>>, k: Key<string>)
    ensures Oldest(g + [k]) == if g == [] || k.order < Oldest(g).order then k else Oldest(g)
  {
    assert (g + [k])[..|g|] == g;
  }

  lemma CommentHeld(keys: seq<Key<Ptr>>, n: nat)
    requires n < |keys|
    ensures Held(keys[n].comment) <= KeysPtrs(keys)
  {
    hide KeysPtrs, Held;
    KeysPtrsErase(keys, n);
  }

  // A section set apart from the table: its pointers are in the operation's hands, its comment is let go
  lemma SectionOut(db: Db, i: nat, limit: nat)
    requires i < |db.sections| && Sound(db, limit, multiset{})
    ensures var db' := db.(sections := db.sections[..i] + db.sections[i+1..]);
            && Sound(db', limit, multiset{db.sections[i].name} + KeysPtrs(db.sections[i].keys))
            && i < |Model(db).sections|
            && Model(db') == Model(db).(sections := Model(db).sections[..i] + Model(db).sections[i+1..])
  {
    hide Text, TextSection, SectionsPtrs, Held, Sound, KeysPtrs;
    var db' := db.(sections := db.sections[..i] + db.sections[i+1..]);
    PtrsAt(db, i, db.sections[i]);
    var held := multiset{db.sections[i].name} + KeysPtrs(db.sections[i].keys);
    assert SectionPtrs(db.sections[i]) == held + Held(db.sections[i].comment);
    assert Ptrs(db') + held <= Ptrs(db) + multiset{};
    MoveIsSound(db, limit, multiset{}, db', held);
  }

  lemma FreeFirstKey(db: Db, limit: nat, holding: multiset<Ptr>, keys: seq<Key<Ptr>>)
    requires keys != [] && Sound(db, limit, holding + KeysPtrs(keys))
    ensures var db' := Freed(Freed(db, keys[0].name), keys[0].value);
            Sound(db', limit, holding + KeysPtrs(keys[1..])) && Model(db') == Model(db)
  {
    hide Sound, Held, KeysPtrs;
    var key := keys[0];
    var rest := holding + KeysPtrs(keys[1..]);
    KeysPtrsErase(keys, 0);
    assert keys[..0] + keys[0+1..] == keys[1..];
    assert holding + KeysPtrs(keys) == (rest + Held(key.comment) + multiset{key.value}) + multiset{key.name};
    FreeIsSound(db, limit, rest + Held(key.comment) + multiset{key.value}, key.name);
    FreeIsSound(Freed(db, key.name), limit, rest + Held(key.comment), key.value);
    LessHolding(Freed(Freed(db, key.name), key.value), limit, rest + Held(key.comment), rest);
  }

  // The store without the keys j to n of section i
  ghost function Erased(st: Store, i: nat, j: nat, n: nat): Store
    requires i < |st.sections| && j <= n <= |st.sections[i].keys|
  {
    var keys := st.sections[i].keys;
    st.(sections := st.sections[i := st.sections[i].(keys := keys[..j] + keys[n..])])
  }

  lemma ErasedNone(st: Store, i: nat, j: nat)
    requires i < |st.sections| && j <= |st.sections[i].keys|
    ensures Erased(st, i, j, j) == st
  {
    var keys := st.sections[i].keys;
    assert keys[..j] + keys[j..] == keys;
    assert st.sections[i := st.sections[i]] == st.sections;
  }

  lemma ErasedAll(st: Store, i: nat, k: string)
    requires i < |st.sections| && Ascending(KeyNames(st.sections[i].keys))
    ensures var ns := KeyNames(st.sections[i].keys);
            && Lower(ns, k) <= Upper(ns, k)
            && Erased(st, i, Lower(ns, k), Upper(ns, k))
            == st.(sections := st.sections[i := st.sections[i].(keys := EraseKeys(st.sections[i].keys, k))])
  {
    hide Lower, Upper;
    Zones(KeyNames(st.sections[i].keys), k);
  }

  lemma ErasedNext(st: Store, i: nat, j: nat, n: nat)
    requires i < |st.sections| && j <= n < |st.sections[i].keys|
    ensures WithoutKey(Erased(st, i, j, n), i, j) == Erased(st, i, j, n + 1)
    ensures |Erased(st, i, j, n + 1).sections| == |st.sections|
    ensures var keys := Erased(st, i, j, n + 1).sections[i].keys;
            |keys| == |st.sections[i].keys| - (n + 1 - j) && (j < |keys| ==> keys[j] == st.sections[i].keys[n + 1])
  {
    var keys := st.sections[i].keys;
    assert (keys[..j] + keys[n..])[..j] + (keys[..j] + keys[n..])[j+1..] == keys[..j] + keys[n+1..];
  }

  // The state after a key is freed and erased
  ghost function ErasedKey(db: Db, i: nat, j: nat): Db
    requires i < |db.sections| && j < |db.sections[i].keys|
  {
    var keys := db.sections[i].keys;
    Freed(Freed(WithKeys(db, i, keys[..j] + keys[j+1..]), keys[j].name), keys[j].value)
  }

  lemma EraseKeyIsSound(db: Db, i: nat, j: nat, limit: nat, holding: multiset<Ptr>)
    requires i < |db.sections| && j < |db.sections[i].keys| && Sound(db, limit, holding)
    ensures Sound(ErasedKey(db, i, j), limit, holding)
    ensures Model(ErasedKey(db, i, j)) == WithoutKey(Model(db), i, j)
    ensures forall p | p in holding :: Text(p, db.data, ErasedKey(db, i, j).strings) == Text(p, db.data, db.strings)
  {
    hide Sound, Text, TextSections, TextSection, Held, KeysPtrs;
    var keys := db.sections[i].keys;
    var key := keys[j];
    var keys' := keys[..j] + keys[j+1..];
    KeysPtrsErase(keys, j);
    assert KeysPtrs(keys') + (holding + KeyPtrs(key)) == KeysPtrs(keys) + holding;
    KeysMoveIsSound(db, limit, holding, i, keys', holding + KeyPtrs(key));
    var db1 := WithKeys(db, i, keys');
    WithKeysModel(db, i, keys');
    TextKeysErase(keys, j, db.data, db.strings);
    var rest := holding + Held(key.comment);
    assert holding + KeyPtrs(key) == (rest + multiset{key.value}) + multiset{key.name};
    FreeIsSound(db1, limit, rest + multiset{key.value}, key.name);
    var db2 := Freed(db1, key.name);
    FreeIsSound(db2, limit, rest, key.value);
    LessHolding(Freed(db2, key.value), limit, rest, holding);
    ModelKeys(db, i);
  }

  lemma ModelKeys(db: Db, i: nat)
    requires i < |db.sections|
    ensures |Model(db).sections| == |db.sections|
    ensures Model(db).sections[i].keys == TextKeys(db.sections[i].keys, db.data, db.strings)
  {
  }

  ghost function WithoutKey(st: Store, i: nat, j: nat): Store
    requires i < |st.sections| && j < |st.sections[i].keys|
  {
    var keys := st.sections[i].keys;
    st.(sections := st.sections[i := st.sections[i].(keys := keys[..j] + keys[j+1..])])
  }

  lemma HeldIn(p: Option<Ptr>, m: multiset<Ptr>)
    requires Held(p) <= m
    ensures p.Some? ==> p.value in m
  {
    if p.Some? {
      assert p.value in Held(p);
    }
  }

  lemma NewSection(s: Section<Ptr>, data: seq<char>, strings: map<nat, string>)
    requires s.keys == []
    ensures SectionPtrs(s) == multiset{s.name} + Held(s.comment)
    ensures TextSection(s, data, strings) == Section(Text(s.name, data, strings), TextOf(s.comment, data, strings), s.order, [])
  {
  }
}
