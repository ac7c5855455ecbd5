/**
  The registry maintenance of Module: who is known on the server side and on the
  client side, and how a changed module list prunes both.

  GetExistingModules is an operating-system-facing call; its answer is a
  parameter. Messages to other modules are returned instead of sent.
*/
module Modules {
  import opened ObjectManager

  datatype ModuleName = ModuleName(name: string, host: string)

  const CLIENT_MODULE_NAME := "Client"

  ghost function Hosts(names: seq<ModuleName>): set<string> {
    set n | n in names :: n.host
  }

  ghost function HostsOf(clients: seq<ClientModuleName>): set<string> {
    set c | c in clients :: c.hostClient
  }

  ghost function Restrict(m: map<string, string>, hosts: set<string>): map<string, string> {
    map h | h in m && h in hosts :: m[h]
  }

  /** The registry of a client name list on top of a registry; a host already known keeps its module name. */
  ghost function AddAll(m: map<string, string>, list: seq<ClientModuleName>): map<string, string>
    decreases |list|
  {
    if list == [] then m
    else
      var m' := AddAll(m, list[..|list|-1]);
      var c := list[|list|-1];
      if c.hostClient in m' then m' else m'[c.hostClient := c.moduleName]
  }

  // The first place in the list that names its host
  ghost predicate NamesFirst(list: seq<ClientModuleName>, k: nat)
    requires k < |list|
  {
    forall j | 0 <= j < k :: list[j].hostClient != list[k].hostClient
  }

  /**
    Adding a list never forgets or renames a known host, makes exactly the listed
    hosts known besides, and gives each of those the name listed for it first.
  */
  lemma {:induction false} AddAllKeepsKnown(m: map<string, string>, list: seq<ClientModuleName>)
    ensures var m' := AddAll(m, list);
            && m'.Keys == m.Keys + HostsOf(list)
            && (forall h | h in m :: m'[h] == m[h])
            && (forall k | 0 <= k < |list| && list[k].hostClient !in m && NamesFirst(list, k) ::
                  m'[list[k].hostClient] == list[k].moduleName)
    decreases |list|
  {
    hide HostsOf;
    if list == [] {
      NoHosts();
    } else {
      var n := |list| - 1;
      var p, c := list[..n], list[n];
      AddAllKeepsKnown(m, p);
      HostsOfNext(list, n);
      assert list[..n+1] == list;
      forall k | 0 <= k < |list| && list[k].hostClient !in m && NamesFirst(list, k)
        ensures list[k].hostClient in AddAll(m, list) && AddAll(m, list)[list[k].hostClient] == list[k].moduleName
      {
        HostListed(list, k);
        if k < n {
          HostListed(p, k);
          assert list[k] == p[k] && NamesFirst(p, k);
        } else {
          NewHost(list);
        }
      }
    }
  }

  lemma NoHosts()
    ensures HostsOf([]) == {}
  {
  }

  lemma HostListed(list: seq<ClientModuleName>, k: nat)
    requires k < |list|
    ensures list[k].hostClient in HostsOf(list)
  {
  }

  lemma NewHost(list: seq<ClientModuleName>)
    requires list != [] && NamesFirst(list, |list| - 1)
    ensures list[|list|-1].hostClient !in HostsOf(list[..|list|-1])
  {
  }

  // The modules that a client list is sent to: the client connections that have a host
  function Recipients(names: seq<ModuleName>): (r: seq<ModuleName>)
    ensures forall n :: n in r <==> n in names && n.host != "" && n.name == CLIENT_MODULE_NAME
    decreases |names|
  {
    if names == [] then []
    else
      var n := names[|names|-1];
      Recipients(names[..|names|-1]) + (if n.host == "" || n.name != CLIENT_MODULE_NAME then [] else [n])
  }

  lemma RecipientsOfOne(n: ModuleName)
    ensures Recipients([n]) == if n.host != "" && n.name == "Client" then [n] else []
  {
    assert [n][..0] == [];
  }

  lemma NextRecipient(names: seq<ModuleName>, n: ModuleName)
    ensures Recipients(names + [n]) == Recipients(names) + Recipients([n])
  {
    assert (names + [n])[..|names|] == names;
    RecipientsOfOne(n);
  }

  lemma NoRecipients()
    ensures Recipients([]) == []
  {
  }

  /** The list goes out once for each of these connections, in their order. */
  lemma {:induction false} RecipientsInOrder(a: seq<ModuleName>, b: seq<ModuleName>)
    ensures Recipients(a + b) == Recipients(a) + Recipients(b)
    decreases |b|
  {
    hide Recipients;
    if b == [] {
      NoRecipients();
      assert a + b == a;
    } else {
      var p, n := b[..|b|-1], b[|b|-1];
      RecipientsInOrder(a, p);
      NextRecipient(a + p, n);
      NextRecipient(p, n);
      assert p + [n] == b && (a + p) + [n] == a + b;
    }
  }

  lemma {:induction false} RecipientsCount(names: seq<ModuleName>, n: ModuleName)
    ensures multiset(Recipients(names))[n] == if n.host != "" && n.name == "Client" then multiset(names)[n] else 0
    decreases |names|
  {
    hide Recipients;
    if names == [] {
      NoRecipients();
    } else {
      var p, x := names[..|names|-1], names[|names|-1];
      RecipientsCount(p, n);
      NextRecipient(p, x);
      RecipientsOfOne(x);
      assert names == p + [x];
    }
  }

  /** What is left of a registry: the hosts that some module of the list has, with their names. */
  lemma RestrictKeeps(m: map<string, string>, names: seq<ModuleName>, host: string)
    ensures host in Restrict(m, Hosts(names)) <==> host in m && exists i | 0 <= i < |names| :: names[i].host == host
    ensures host in Restrict(m, Hosts(names)) ==> Restrict(m, Hosts(names))[host] == m[host]
  {
    if i :| 0 <= i < |names| && names[i].host == host {
      assert names[i] in names;
    }
  }

  lemma HostsOfNext(clients: seq<ClientModuleName>, k: nat)
    requires k < |clients|
    ensures HostsOf(clients[..k+1]) == HostsOf(clients[..k]) + {clients[k].hostClient}
  {
    assert clients[..k+1] == clients[..k] + [clients[k]];
  }

  class Module {
    const clientsNameOnServer: ObjectManager
    const clientsNameOnClient: ObjectManager

    ghost predicate Valid()
      reads this, clientsNameOnServer, clientsNameOnClient
    {
      clientsNameOnServer != clientsNameOnClient && clientsNameOnServer.Valid() && clientsNameOnClient.Valid()
    }

    constructor ()
      ensures Valid() && fresh(clientsNameOnServer) && fresh(clientsNameOnClient)
      ensures clientsNameOnServer.Registry() == clientsNameOnClient.Registry() == map[]
    {
      clientsNameOnServer := new ObjectManager();
      clientsNameOnClient := new ObjectManager();
    }

    /** Prunes both registries to the hosts that still have a module. */
    method OnModuleListChanged(names: seq<ModuleName>)
      requires Valid()
      modifies clientsNameOnServer, clientsNameOnClient
      ensures Valid()
      ensures clientsNameOnServer.Registry() == Restrict(old(clientsNameOnServer.Registry()), Hosts(names))
      ensures clientsNameOnClient.Registry() == Restrict(old(clientsNameOnClient.Registry()), Hosts(names))
    {
      Prune(clientsNameOnServer, names);
      Prune(clientsNameOnClient, names);
    }

    static method Prune(registry: ObjectManager, names: seq<ModuleName>)
      requires registry.Valid()
      modifies registry
      ensures registry.Valid()
      ensures registry.Registry() == Restrict(old(registry.Registry()), Hosts(names))
    {
      ghost var m := registry.Registry();
      var clients := registry.GetObjectList();
      var it := 0;
      while it < |clients|
        invariant 0 <= it <= |clients| && registry.Valid()
        invariant registry.Registry() == m - (HostsOf(clients[..it]) - Hosts(names))
      {
        var bFind := IsLive(clients[it].hostClient, names);
        if !bFind {
          var removed := registry.RemoveObject(clients[it]);
        }
        HostsOfNext(clients, it);
        it := it + 1;
      }
      assert clients[..it] == clients;
      ListedHosts(clients);
    }

    static method IsLive(host: string, names: seq<ModuleName>) returns (bFind: bool)
      ensures bFind <==> host in Hosts(names)
    {
      bFind := false;
      var i := 0;
      while i < |names|
        invariant 0 <= i <= |names|
        invariant bFind <==> exists j | 0 <= j < i :: names[j].host == host
      {
        if host == names[i].host {
          bFind := true;
        }
        i := i + 1;
      }
    }

    /** A client announced itself: its host is mapped to its new name, and every client connection is sent the whole registry. */
    method OnClientName(ipcName: string, hostName: string, names: seq<ModuleName>)
      returns (list: seq<ClientModuleName>, sentTo: seq<ModuleName>)
      requires Valid()
      modifies clientsNameOnServer
      ensures Valid()
      ensures clientsNameOnServer.Registry() == old(clientsNameOnServer.Registry())[hostName := ipcName]
      ensures Sorted(list) && ToMap(list) == clientsNameOnServer.Registry()
      ensures sentTo == Recipients(names)
    {
      var clientName := ClientModuleName(ipcName, hostName);
      var added := clientsNameOnServer.AddObject(clientName);
      if !added {
        var updated := clientsNameOnServer.UpdateObject(clientName);
      }

      var clients := clientsNameOnServer.GetObjectList();
      list := [];
      var it := 0;
      while it < |clients|
        invariant 0 <= it <= |clients| && list == clients[..it]
      {
        list := list + [ClientModuleName(clients[it].moduleName, clients[it].hostClient)];
        it := it + 1;
      }
      assert clients[..it] == clients;

      sentTo := [];
      var i := 0;
      while i < |names|
        invariant 0 <= i <= |names| && sentTo == Recipients(names[..i])
      {
        assert names[..i+1][..i] == names[..i];
        if !(|names[i].host| == 0 || names[i].name != CLIENT_MODULE_NAME) {
          sentTo := sentTo + [names[i]];
        }
        i := i + 1;
      }
      assert names[..i] == names;
    }

    method OnClientNameList(nameList: seq<ClientModuleName>)
      requires Valid()
      modifies clientsNameOnClient
      ensures Valid()
      ensures clientsNameOnClient.Registry() == AddAll(old(clientsNameOnClient.Registry()), nameList)
    {
      var i := 0;
      while i < |nameList|
        invariant 0 <= i <= |nameList| && Valid()
        invariant clientsNameOnClient.Registry() == AddAll(old(clientsNameOnClient.Registry()), nameList[..i])
      {
        assert nameList[..i+1][..i] == nameList[..i];
        var added := clientsNameOnClient.AddObject(nameList[i]);
        i := i + 1;
      }
      assert nameList[..i] == nameList;
    }
  }

  lemma {:induction false} ListedHosts(clients: seq<ClientModuleName>)
    ensures HostsOf(clients) == ToMap(clients).Keys
  {
    forall h
      ensures h in HostsOf(clients) <==> h in ToMap(clients)
    {
      ToMapKeys(clients, h);
      if i :| 0 <= i < |clients| && clients[i].hostClient == h {
        assert clients[i] in clients;
      }
    }
  }
}
