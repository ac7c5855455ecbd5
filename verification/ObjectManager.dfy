/**
  ObjectManager<ClientModuleName>: a vector kept sorted by host name and searched
  with std::lower_bound, used as a map from host to module name; and the registry
  maintenance of Module that runs on top of it.

  The lock that every method takes is the subject of module CriticalSection;
  under it the methods are atomic, so they are modelled as sequential code.
*/
module ObjectManager {
  import opened Options
  import opened Lexicographic

  // Equality and order look at the host only
  datatype ClientModuleName = ClientModuleName(moduleName: string, hostClient: string)

  ghost predicate Sorted(s: seq<ClientModuleName>) {
    forall i, j | 0 <= i < j < |s| :: Less(s[i].hostClient, s[j].hostClient)
  }

  ghost predicate AllBelow(a: seq<ClientModuleName>, b: seq<ClientModuleName>) {
    forall i, j | 0 <= i < |a| && 0 <= j < |b| :: Less(a[i].hostClient, b[j].hostClient)
  }

  lemma SortedJoin(a: seq<ClientModuleName>, b: seq<ClientModuleName>)
    requires Sorted(a) && Sorted(b) && AllBelow(a, b)
    ensures Sorted(a + b)
  {
    var s := a + b;
    forall i, j | 0 <= i < j < |s|
      ensures Less(s[i].hostClient, s[j].hostClient)
    {
      if j < |a| {
        assert Less(a[i].hostClient, a[j].hostClient);
      } else if i < |a| {
        assert Less(a[i].hostClient, b[j - |a|].hostClient);
      } else {
        assert Less(b[i - |a|].hostClient, b[j - |a|].hostClient);
      }
    }
  }

  // The middle element of a sorted vector may be replaced by any that fits between its neighbours
  lemma SortedThree(a: seq<ClientModuleName>, o: ClientModuleName, b: seq<ClientModuleName>)
    requires Sorted(a) && Sorted(b)
    requires AllBelow(a, [o]) && AllBelow([o], b)
    ensures Sorted(a + [o] + b)
  {
    forall i, j | 0 <= i < |a| && 0 <= j < |b|
      ensures Less(a[i].hostClient, b[j].hostClient)
    {
      assert Less(a[i].hostClient, [o][0].hostClient) && Less([o][0].hostClient, b[j].hostClient);
      Transitive(a[i].hostClient, o.hostClient, b[j].hostClient);
    }
    SortedJoin(a, [o]);
    SortedJoin(a + [o], b);
  }

  /** The map that a vector stands for. */
  ghost function ToMap(s: seq<ClientModuleName>): map<string, string> {
    if s == [] then map[]
    else ToMap(s[..|s|-1])[s[|s|-1].hostClient := s[|s|-1].moduleName]
  }

  lemma {:induction false} ToMapAppend(a: seq<ClientModuleName>, b: seq<ClientModuleName>)
    ensures ToMap(a + b) == ToMap(a) + ToMap(b)
    decreases |b|
  {
    if b == [] {
      assert a + b == a;
    } else {
      ToMapAppend(a, b[..|b|-1]);
      assert (a + b)[..|a + b| - 1] == a + b[..|b|-1];
    }
  }

  lemma MapMiddle(a: map<string, string>, h: string, n: string, b: map<string, string>)
    ensures a + map[h := n] + b == a[h := n] + b
    ensures h !in b ==> a[h := n] + b == (a + b)[h := n]
    ensures h !in b && h !in a ==> a + b == (a[h := n] + b) - {h}
  {
  }

  // An element between two pieces that do not mention its host is one binding of the map
  lemma ToMapThree(a: seq<ClientModuleName>, o: ClientModuleName, b: seq<ClientModuleName>)
    requires o.hostClient !in ToMap(b)
    ensures ToMap(a + [o] + b) == ToMap(a + b)[o.hostClient := o.moduleName]
    ensures o.hostClient !in ToMap(a) ==> ToMap(a + b) == ToMap(a + [o] + b) - {o.hostClient}
  {
    ToMapAppend(a, b);
    ToMapAppend(a + [o], b);
    ToMapAppend(a, [o]);
    assert [o][..0] == [];
    MapMiddle(ToMap(a), o.hostClient, o.moduleName, ToMap(b));
  }

  lemma {:induction false} ToMapKeys(s: seq<ClientModuleName>, host: string)
    ensures host in ToMap(s) <==> exists i | 0 <= i < |s| :: s[i].hostClient == host
    decreases |s|
  {
    if s != [] {
      var p := s[..|s|-1];
      ToMapKeys(p, host);
      if i :| 0 <= i < |p| && p[i].hostClient == host {
        assert s[i].hostClient == host;
      }
      if i :| 0 <= i < |s| && s[i].hostClient == host {
        if i < |p| {
          assert p[i].hostClient == host;
        }
      }
    }
  }

  lemma NotAKey(s: seq<ClientModuleName>, host: string)
    requires forall i | 0 <= i < |s| :: s[i].hostClient != host
    ensures host !in ToMap(s)
  {
    ToMapKeys(s, host);
  }

  /** std::lower_bound on the host: the first position whose host is not below it. */
  function LowerBound(s: seq<ClientModuleName>, host: string): (k: nat)
    ensures k <= |s|
    ensures forall i | 0 <= i < k :: Less(s[i].hostClient, host)
    ensures k < |s| ==> !Less(s[k].hostClient, host)
  {
    if s == [] || !Less(s[0].hostClient, host) then 0 else 1 + LowerBound(s[1..], host)
  }

  // The test that follows every lower_bound: is the object of this host at that position?
  predicate FoundAt(s: seq<ClientModuleName>, k: nat, host: string) {
    k < |s| && s[k].hostClient == host
  }

  lemma OthersDiffer(s: seq<ClientModuleName>, k: nat)
    requires Sorted(s) && k < |s|
    ensures s[k].hostClient !in ToMap(s[..k]) && s[k].hostClient !in ToMap(s[k+1..])
  {
    Irreflexive(s[k].hostClient);
    NotAKey(s[..k], s[k].hostClient);
    NotAKey(s[k+1..], s[k].hostClient);
  }

  // A vector cut at one of its elements, whose host the rest does not repeat
  lemma CutAt(s: seq<ClientModuleName>, k: nat)
    requires k < |s| && s[k].hostClient !in ToMap(s[k+1..])
    ensures ToMap(s) == ToMap(s[..k] + s[k+1..])[s[k].hostClient := s[k].moduleName]
  {
    assert s == s[..k] + [s[k]] + s[k+1..];
    ToMapThree(s[..k], s[k], s[k+1..]);
  }

  lemma FoundIffMember(s: seq<ClientModuleName>, host: string)
    requires Sorted(s)
    ensures FoundAt(s, LowerBound(s, host), host) <==> host in ToMap(s)
    ensures FoundAt(s, LowerBound(s, host), host) ==> ToMap(s)[host] == s[LowerBound(s, host)].moduleName
  {
    var k := LowerBound(s, host);
    ToMapKeys(s, host);
    Irreflexive(host);
    if FoundAt(s, k, host) {
      OthersDiffer(s, k);
      CutAt(s, k);
    }
  }

  // Everything at or after a missed lower bound lies strictly above the host
  lemma AboveLowerBound(s: seq<ClientModuleName>, host: string)
    requires Sorted(s) && !FoundAt(s, LowerBound(s, host), host)
    ensures forall j | LowerBound(s, host) <= j < |s| :: Less(host, s[j].hostClient)
  {
    var k := LowerBound(s, host);
    if k < |s| {
      Trichotomy(s[k].hostClient, host);
      forall j | k < j < |s|
        ensures Less(host, s[j].hostClient)
      {
        Transitive(host, s[k].hostClient, s[j].hostClient);
      }
    }
  }

  lemma InsertKeepsSorted(s: seq<ClientModuleName>, o: ClientModuleName)
    requires Sorted(s) && !FoundAt(s, LowerBound(s, o.hostClient), o.hostClient)
    ensures var k := LowerBound(s, o.hostClient); Sorted(s[..k] + [o] + s[k..])
  {
    var k := LowerBound(s, o.hostClient);
    AboveLowerBound(s, o.hostClient);
    SortedThree(s[..k], o, s[k..]);
  }

  lemma InsertIsMapInsert(s: seq<ClientModuleName>, o: ClientModuleName)
    requires Sorted(s) && !FoundAt(s, LowerBound(s, o.hostClient), o.hostClient)
    ensures var k := LowerBound(s, o.hostClient);
            ToMap(s[..k] + [o] + s[k..]) == ToMap(s)[o.hostClient := o.moduleName]
  {
    var k := LowerBound(s, o.hostClient);
    AboveLowerBound(s, o.hostClient);
    Irreflexive(o.hostClient);
    NotAKey(s[k..], o.hostClient);
    assert s == s[..k] + s[k..];
    ToMapThree(s[..k], o, s[k..]);
  }

  lemma UpdateKeepsSorted(s: seq<ClientModuleName>, k: nat, o: ClientModuleName)
    requires Sorted(s) && FoundAt(s, k, o.hostClient)
    ensures Sorted(s[k := o])
  {
  }

  lemma UpdateIsMapUpdate(s: seq<ClientModuleName>, k: nat, o: ClientModuleName)
    requires Sorted(s) && FoundAt(s, k, o.hostClient)
    ensures ToMap(s[k := o]) == ToMap(s)[o.hostClient := o.moduleName]
  {
    hide ToMap;
    OthersDiffer(s, k);
    CutAt(s, k);
    ToMapThree(s[..k], o, s[k+1..]);
    assert s[k := o] == s[..k] + [o] + s[k+1..];
  }

  lemma EraseKeepsSorted(s: seq<ClientModuleName>, k: nat)
    requires Sorted(s) && k < |s|
    ensures Sorted(s[..k] + s[k+1..])
  {
    SortedJoin(s[..k], s[k+1..]);
  }

  lemma EraseIsMapRemove(s: seq<ClientModuleName>, k: nat)
    requires Sorted(s) && k < |s|
    ensures ToMap(s[..k] + s[k+1..]) == ToMap(s) - {s[k].hostClient}
  {
    OthersDiffer(s, k);
    assert s == s[..k] + [s[k]] + s[k+1..];
    ToMapThree(s[..k], s[k], s[k+1..]);
  }

  lemma HeadIsSmallestKey(s: seq<ClientModuleName>, host: string)
    requires Sorted(s) && s != []
    ensures s[0].hostClient in ToMap(s) && ToMap(s)[s[0].hostClient] == s[0].moduleName
    ensures host in ToMap(s) ==> host == s[0].hostClient || Less(s[0].hostClient, host)
  {
    OthersDiffer(s, 0);
    CutAt(s, 0);
    ToMapKeys(s, host);
  }

  lemma TailMap(s: seq<ClientModuleName>)
    requires Sorted(s) && s != []
    ensures Sorted(s[1..]) && ToMap(s[1..]) == ToMap(s) - {s[0].hostClient}
  {
    hide ToMap;
    EraseIsMapRemove(s, 0);
    assert s[..0] + s[0+1..] == s[1..];
  }

  /** A sorted vector is determined by its map, so iterating it shows nothing but the map. */
  lemma {:induction false} SortedVectorIsCanonical(s: seq<ClientModuleName>, s': seq<ClientModuleName>)
    requires Sorted(s) && Sorted(s') && ToMap(s) == ToMap(s')
    ensures s == s'
    decreases |s|
  {
    if s == [] || s' == [] {
      if s != [] { ToMapKeys(s, s[0].hostClient); }
      if s' != [] { ToMapKeys(s', s'[0].hostClient); }
    } else {
      HeadIsSmallestKey(s, s'[0].hostClient);
      HeadIsSmallestKey(s', s[0].hostClient);
      Trichotomy(s[0].hostClient, s'[0].hostClient);
      TailMap(s);
      TailMap(s');
      SortedVectorIsCanonical(s[1..], s'[1..]);
    }
  }

  // A functor that may carry state: its verdict can depend on the objects it was shown before
  type Functor = (seq<ClientModuleName>, ClientModuleName) -> bool

  /** What CheckObjects leaves of rest when the functor has already been shown the objects of seen. */
  function Kept(func: Functor, seen: seq<ClientModuleName>, rest: seq<ClientModuleName>): seq<ClientModuleName>
    decreases |rest|
  {
    if rest == [] then []
    else (if func(seen, rest[0]) then [] else [rest[0]]) + Kept(func, seen + [rest[0]], rest[1..])
  }

  /** Whatever the functor decides, the survivors stay sorted and are exactly the objects it did not condemn. */
  ghost predicate Survivors(func: Functor, all: seq<ClientModuleName>, n: nat, kept: map<string, string>)
    requires n <= |all|
  {
    && (forall i | n <= i < |all| :: all[i].hostClient in kept <==> !func(all[..i], all[i]))
    && (forall h | h in kept :: h in ToMap(all[n..]) && kept[h] == ToMap(all[n..])[h])
  }

  lemma {:induction false} KeptIsFilter(func: Functor, all: seq<ClientModuleName>, n: nat)
    requires Sorted(all) && n <= |all|
    ensures var kept := Kept(func, all[..n], all[n..]);
            && Sorted(kept)
            && Survivors(func, all, n, ToMap(kept))
            && forall i | 0 <= i < |kept| :: kept[i] in all[n..]
    decreases |all| - n
  {
    if n < |all| {
      KeptIsFilter(func, all, n + 1);
      var kept' := Kept(func, all[..n+1], all[n+1..]);
      assert all[n..][1..] == all[n+1..] && all[..n] + [all[n]] == all[..n+1];
      assert AllBelow([all[n]], kept');
      if !func(all[..n], all[n]) {
        SortedJoin([all[n]], kept');
      } else {
        assert Kept(func, all[..n], all[n..]) == kept';
      }
      OthersDiffer(all, n);
      Irreflexive(all[n].hostClient);
      assert all[n..] == [all[n]] + all[n+1..];
      HeadBinding(all[n], all[n+1..]);
      HeadBinding(all[n], kept');
      SurvivorsStep(func, all, n, ToMap(kept'));
    }
  }

  lemma SurvivorsStep(func: Functor, all: seq<ClientModuleName>, n: nat, m: map<string, string>)
    requires n < |all| && Survivors(func, all, n + 1, m)
    requires forall i | n < i < |all| :: all[i].hostClient != all[n].hostClient
    requires all[n].hostClient !in ToMap(all[n+1..])
    requires ToMap(all[n..]) == ToMap(all[n+1..])[all[n].hostClient := all[n].moduleName]
    ensures Survivors(func, all, n, if func(all[..n], all[n]) then m else m[all[n].hostClient := all[n].moduleName])
  {
  }

  lemma HeadBinding(o: ClientModuleName, s: seq<ClientModuleName>)
    requires o.hostClient !in ToMap(s)
    ensures ToMap([o] + s) == ToMap(s)[o.hostClient := o.moduleName]
  {
    ToMapThree([], o, s);
    assert [] + [o] + s == [o] + s && [] + s == s;
  }

  // One turn of the CheckObjects loop: the next object is dropped, or joins those done with
  lemma CheckStep(func: Functor, all: seq<ClientModuleName>, n: nat, done: seq<ClientModuleName>)
    requires n < |all|
    ensures var objects := done + all[n..];
            && objects[|done|] == all[n]
            && objects[..|done|] + objects[|done|+1..] == done + all[n+1..]
            && objects == done + [all[n]] + all[n+1..]
            && all[..n] + [all[n]] == all[..n+1]
    ensures done + Kept(func, all[..n], all[n..])
         == (if func(all[..n], all[n]) then done else done + [all[n]]) + Kept(func, all[..n+1], all[n+1..])
  {
    assert all[n..] == [all[n]] + all[n+1..] && all[..n] + [all[n]] == all[..n+1];
  }

  // When every object has been shown, what is left is what the functor spared
  lemma CheckEnd(func: Functor, all: seq<ClientModuleName>, done: seq<ClientModuleName>, left: seq<ClientModuleName>)
    requires Sorted(all) && left == done + all[|all|..] && done + Kept(func, all, all[|all|..]) == Kept(func, [], all)
    ensures Sorted(left) && Survivors(func, all, 0, ToMap(left))
  {
    hide Sorted, ToMap, Survivors;
    assert all[|all|..] == [] && done + [] == done;
    assert all[..0] == [] && all[0..] == all;
    KeptIsFilter(func, all, 0);
  }

  class ObjectManager {
    var objects: seq<ClientModuleName>

    ghost predicate Valid()
      reads this
    {
      Sorted(objects)
    }

    ghost function Registry(): map<string, string>
      requires Valid()
      reads this
    {
      ToMap(objects)
    }

    constructor ()
      ensures Valid() && Registry() == map[]
    {
      objects := [];
    }

    method AddObject(obj: ClientModuleName) returns (res: bool)
      requires Valid()
      modifies this
      ensures Valid()
      ensures res == (obj.hostClient !in old(Registry()))
      ensures Registry() == if res then old(Registry())[obj.hostClient := obj.moduleName] else old(Registry())
    {
      res := false;
      var it := LowerBound(objects, obj.hostClient);
      FoundIffMember(objects, obj.hostClient);
      if it < |objects| && objects[it].hostClient != obj.hostClient {
        InsertIsMapInsert(objects, obj);
        InsertKeepsSorted(objects, obj);
        res := true;
        objects := objects[..it] + [obj] + objects[it..];
      } else if it == |objects| {
        InsertIsMapInsert(objects, obj);
        InsertKeepsSorted(objects, obj);
        assert objects[..it] + [obj] + objects[it..] == objects + [obj];
        res := true;
        objects := objects + [obj];
      }
    }

    method RemoveObject(obj: ClientModuleName) returns (res: bool)
      requires Valid()
      modifies this
      ensures Valid()
      ensures res == (obj.hostClient in old(Registry()))
      ensures Registry() == old(Registry()) - {obj.hostClient}
    {
      var it := LowerBound(objects, obj.hostClient);
      FoundIffMember(objects, obj.hostClient);
      if it < |objects| && objects[it].hostClient == obj.hostClient {
        EraseIsMapRemove(objects, it);
        EraseKeepsSorted(objects, it);
        objects := objects[..it] + objects[it+1..];
        return true;
      }
      return false;
    }

    method GetObject(obj: ClientModuleName) returns (res: Option<ClientModuleName>)
      requires Valid()
      ensures obj.hostClient in Registry() ==> res == Some(ClientModuleName(Registry()[obj.hostClient], obj.hostClient))
      ensures obj.hostClient !in Registry() ==> res == None
    {
      res := None;
      var it := LowerBound(objects, obj.hostClient);
      FoundIffMember(objects, obj.hostClient);
      if it < |objects| && objects[it].hostClient == obj.hostClient {
        res := Some(objects[it]);
      }
    }

    method UpdateObject(obj: ClientModuleName) returns (res: bool)
      requires Valid()
      modifies this
      ensures Valid()
      ensures res == (obj.hostClient in old(Registry()))
      ensures Registry() == if res then old(Registry())[obj.hostClient := obj.moduleName] else old(Registry())
    {
      res := false;
      var it := LowerBound(objects, obj.hostClient);
      FoundIffMember(objects, obj.hostClient);
      if it < |objects| && objects[it].hostClient == obj.hostClient {
        UpdateIsMapUpdate(objects, it, obj);
        UpdateKeepsSorted(objects, it, obj);
        objects := objects[it := obj];
        res := true;
      }
    }

    method GetObjectList() returns (list: seq<ClientModuleName>)
      requires Valid()
      ensures Sorted(list) && ToMap(list) == Registry()
    {
      list := objects;
    }

    /** Shows every object to the functor once, in order, and erases in place those it condemns. */
    method CheckObjects(func: Functor) returns (shown: seq<ClientModuleName>)
      requires Valid()
      modifies this
      ensures Valid()
      ensures shown == old(objects)
      ensures Survivors(func, shown, 0, Registry())
    {
      hide Sorted, Kept, ToMap, Survivors;
      ghost var all := objects;
      ghost var done := [];
      shown := [];
      var i := 0;
      assert all[..0] == [] && all[0..] == all;
      while i < |objects|
        invariant |done| == i && |shown| <= |all| && shown == all[..|shown|]
        invariant objects == done + all[|shown|..]
        invariant done + Kept(func, shown, all[|shown|..]) == Kept(func, [], all)
        decreases |all| - |shown|
      {
        var o := objects[i];
        CheckStep(func, all, |shown|, done);
        if func(shown, o) {
          objects := objects[..i] + objects[i+1..];
        } else {
          done := done + [o];
          i := i + 1;
        }
        shown := shown + [o];
      }
      assert shown == all;
      CheckEnd(func, all, done, objects);
    }
  }
}
