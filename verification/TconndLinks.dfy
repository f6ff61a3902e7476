/**
 The linked memory of tconnd: the two pools and the three global lists, on heap nodes, with the operations the engine
 makes on them. Every socket carries one node for each list it can be on. `Now` is what the links say, as long as they
 are sound; each operation keeps them sound and changes exactly its part of it.
 */
module TconndLinks {
  import opened Basics
  import opened TlibcList
  import Mempool
  import P = MempoolSpec

  /** `gone` is a socket whose node was unlinked from the pending list and still shows where it was. */
  datatype Listed = Listed(pending: seq<nat>, package: seq<nat>, readable: seq<nat>, gone: Option<nat>)

  /** g_pending_socket_list, g_package_socket_list and the readable list. */
  class Lists {
    const pending: NodeList
    const package: NodeList
    const readable: NodeList
    ghost var gone: Option<nat>
    ghost const repr: set<object>

    /** The lists share no node. */
    ghost predicate Apart() {
      && pending in repr && package in repr && readable in repr && this !in repr
      && pending.repr <= repr && package.repr <= repr && readable.repr <= repr
      && pending != package && pending != readable && package != readable
      && pending.repr !! package.repr && pending.repr !! readable.repr && package.repr !! readable.repr
      && |pending.nodes| == |package.nodes| == |readable.nodes|
    }

    ghost function Now(): Option<Listed>
      reads this, repr
    {
      if Apart()
         && (forall l {:trigger l.Valid()} :: l in {pending, package, readable} ==> l.Valid())
         && (forall x {:trigger pending.Gone(x)} :: gone == Some(x) ==> pending.Gone(x))
      then
        Some(Listed(pending.ids, package.ids, readable.ids, gone))
      else None
    }

    ghost predicate AllValid()
      reads this, repr
    {
      Apart() && pending.Valid() && package.Valid() && readable.Valid()
    }

    /** Where a walk over one of the lists stands after k steps, and where it goes from there. */
    lemma Walks(list: NodeList, k: nat)
      requires Now().Some? && list in {pending, package, readable} && k <= |list.ids|
      ensures |list.chain| == |list.ids| && (list.Place(k) == list.head <==> k == |list.ids|)
      ensures list.head.next == list.Place(0)
      ensures k < |list.ids| ==>
        && list.ids[k] < |list.nodes| && list.Place(k) == list.nodes[list.ids[k]] && list.Place(k).owner == list.ids[k]
        && list.Place(k).next == list.Place(k + 1)
    {
      assert list.Valid();
      list.Walking(k);
    }

    static method NewList(n: nat) returns (list: NodeList)
      ensures list.Valid() && list.ids == [] && |list.nodes| == n && fresh(list) && fresh(list.repr)
    {
      var nodes := Mempool.Pool.NewNodes(n);
      list := new NodeList(nodes);
    }

    constructor (n: nat)
      ensures Now() == Some(Listed([], [], [], None)) && fresh(repr) && |pending.nodes| == n
    {
      var list1 := NewList(n);
      var list2 := NewList(n);
      var list3 := NewList(n);
      pending, package, readable := list1, list2, list3;
      gone := None;
      repr := {list1, list2, list3} + list1.repr + list2.repr + list3.repr;
    }

    method AppendPending(id: nat)
      requires Now().Some? && id < |pending.nodes| && id !in Now().value.pending
      modifies this, repr
      ensures Now() == Some(old(Now().value).(pending := old(Now().value).pending + [id], gone := None))
    {
      assert AllValid();
      pending.PushBack(id);
      assert AllValid();
      gone := None;
    }

    method UnlinkPending(id: nat)
      requires Now().Some? && id in Now().value.pending
      modifies this, repr
      ensures Now() == Some(old(Now().value).(pending := Unlink(old(Now().value).pending, id), gone := Some(id)))
    {
      assert AllValid();
      pending.Remove(id);
      assert AllValid();
      gone := Some(id);
    }

    /** As the destructor does it: the node may have been unlinked by a failed accept just before. */
    method UnlinkPendingAgain(id: nat)
      requires Now().Some? && (id in Now().value.pending || Now().value.gone == Some(id))
      modifies this, repr
      ensures Now() == Some(old(Now().value).(pending := Unlink(old(Now().value).pending, id), gone := None))
    {
      assert AllValid();
      pending.RemoveAgain(id);
      assert AllValid();
      gone := None;
    }

    method AppendPackage(id: nat)
      requires Now().Some? && id < |package.nodes| && id !in Now().value.package
      modifies repr
      ensures Now() == Some(old(Now().value).(package := old(Now().value).package + [id]))
    {
      assert AllValid();
      package.PushBack(id);
      assert AllValid();
    }

    method UnlinkPackage(id: nat)
      requires Now().Some? && id in Now().value.package
      modifies repr
      ensures Now() == Some(old(Now().value).(package := Unlink(old(Now().value).package, id)))
    {
      assert AllValid();
      package.Remove(id);
      assert AllValid();
    }

    method AppendReadable(id: nat)
      requires Now().Some? && id < |readable.nodes| && id !in Now().value.readable
      modifies repr
      ensures Now() == Some(old(Now().value).(readable := old(Now().value).readable + [id]))
    {
      assert AllValid();
      readable.PushBack(id);
      assert AllValid();
    }

    method UnlinkReadable(id: nat)
      requires Now().Some? && id in Now().value.readable
      modifies repr
      ensures Now() == Some(old(Now().value).(readable := Unlink(old(Now().value).readable, id)))
    {
      assert AllValid();
      readable.Remove(id);
      assert AllValid();
    }

    /** tlibc_list_init on the nodes of a socket that is on none of the lists. */
    method InitNodes(id: nat)
      requires Now().Some? && id < |pending.nodes|
      requires id !in Now().value.pending && id !in Now().value.package && id !in Now().value.readable
      modifies this, repr
      ensures Now() == Some(old(Now().value).(gone := None))
    {
      assert AllValid();
      readable.InitNode(id);
      package.InitNode(id);
      pending.InitNode(id);
      assert AllValid();
      gone := None;
    }
  }

  /** The local list of process_input_tbus, threaded through the sockets' nodes for it. */
  class LocalList {
    const list: NodeList
    ghost const repr: set<object>

    ghost predicate Whole() {
      list in repr && list.repr <= repr && this !in repr
    }

    ghost function Now(): Option<seq<nat>>
      reads this, repr
    {
      if Whole() && (forall l {:trigger l.Valid()} :: l in {list} ==> l.Valid()) then Some(list.ids) else None
    }

    /** tlibc_list_init on the local head. */
    constructor (nodes: seq<Link>)
      requires forall i :: 0 <= i < |nodes| ==> nodes[i].owner == i
      ensures Now() == Some([]) && list.nodes == nodes && fresh(list) && fresh(list.head)
      ensures forall o :: o in repr ==> o == list || o == list.head || o in nodes
    {
      var l := new NodeList(nodes);
      list := l;
      repr := {l} + l.repr;
    }

    method Append(id: nat)
      requires Now().Some? && id < |list.nodes| && id !in Now().value
      modifies repr
      ensures Now() == Some(old(Now().value) + [id])
    {
      assert list.Valid();
      list.PushBack(id);
      assert list.Valid();
    }

    method Unlink(id: nat)
      requires Now().Some? && id in Now().value
      modifies repr
      ensures Now() == Some(Basics.Unlink(old(Now().value), id))
    {
      assert list.Valid();
      list.Remove(id);
      assert list.Valid();
    }

    lemma Walks(k: nat)
      requires Now().Some? && k <= |Now().value|
      ensures list.ids == Now().value && |list.chain| == |list.ids|
      ensures (list.Place(k) == list.head <==> k == |list.ids|) && list.head.next == list.Place(0)
      ensures k < |list.ids| ==> list.Place(k).owner == list.ids[k] && list.Place(k).next == list.Place(k + 1)
    {
      assert list.Valid();
      list.Walking(k);
    }
  }

  datatype Pooled = Pooled(sockets: P.Pool, packages: P.Pool)

  /** g_socket_pool and g_package_pool. */
  class Pools {
    const sockets: Mempool.Pool
    const packages: Mempool.Pool
    ghost const repr: set<object>

    ghost predicate Inside(p: Mempool.Pool) {
      && p in repr && p.sns in repr && p.unusedList in repr && p.usedList in repr
      && p.unusedList.repr <= repr && p.usedList.repr <= repr
    }

    /** The pools share no node. */
    static ghost predicate Apart(a: Mempool.Pool, b: Mempool.Pool) {
      && a != b && a.sns != b.sns
      && a.unusedList != b.unusedList && a.unusedList != b.usedList
      && a.usedList != b.unusedList && a.usedList != b.usedList
      && a.unusedList.repr !! b.unusedList.repr && a.unusedList.repr !! b.usedList.repr
      && a.usedList.repr !! b.unusedList.repr && a.usedList.repr !! b.usedList.repr
    }

    ghost function Now(): Option<Pooled>
      reads this, repr
    {
      if Inside(sockets) && Inside(packages) && this !in repr && Apart(sockets, packages)
         && (forall p {:trigger p.Valid()} :: p in {sockets, packages} ==> p.Valid())
      then
        Some(Pooled(sockets.View(), packages.View()))
      else None
    }

    static ghost function Pieces(p: Mempool.Pool): set<object> {
      {p, p.sns, p.unusedList, p.usedList} + p.unusedList.repr + p.usedList.repr
    }

    constructor (a: Mempool.Pool, b: Mempool.Pool)
      requires a.Valid() && b.Valid() && Apart(a, b)
      ensures repr == Pieces(a) + Pieces(b) && Now() == Some(Pooled(a.View(), b.View()))
    {
      sockets, packages := a, b;
      repr := Pieces(a) + Pieces(b);
    }

    static method Create(connections: nat, packageConnections: nat) returns (pools: Pools)
      ensures fresh(pools) && fresh(pools.repr)
      ensures pools.Now() == Some(Pooled(P.Init(connections), P.Init(packageConnections)))
    {
      var a := NewPool(connections);
      var b := NewPool(packageConnections);
      pools := new Pools(a, b);
    }

    static method NewPool(n: nat) returns (pool: Mempool.Pool)
      ensures pool.Valid() && fresh(Pieces(pool)) && pool.View() == P.Init(n)
    {
      pool := new Mempool.Pool(n);
    }

    method AllocSocket() returns (id: nat)
      requires Now().Some? && !P.Empty(Now().value.sockets)
      modifies repr
      ensures old(Now().value).sockets.unused[0] < |old(Now().value).sockets.sns|
      ensures var was := old(Now().value); var (pool, slot) := P.Alloc(was.sockets);
        id == slot && Now() == Some(was.(sockets := pool))
    {
      assert sockets.Valid() && packages.Valid();
      id := sockets.Alloc();
      assert sockets.Valid() && packages.Valid();
    }

    method FreeSocket(id: nat)
      requires Now().Some? && id in Now().value.sockets.used
      modifies repr
      ensures id < |old(Now().value).sockets.sns|
      ensures Now() == Some(old(Now().value).(sockets := P.Free(old(Now().value).sockets, id)))
    {
      assert sockets.Valid() && packages.Valid();
      sockets.Free(id);
      assert sockets.Valid() && packages.Valid();
    }

    method AllocPackage() returns (b: nat)
      requires Now().Some? && !P.Empty(Now().value.packages)
      modifies repr
      ensures old(Now().value).packages.unused[0] < |old(Now().value).packages.sns|
      ensures var was := old(Now().value); var (pool, slot) := P.Alloc(was.packages);
        b == slot && Now() == Some(was.(packages := pool))
    {
      assert sockets.Valid() && packages.Valid();
      b := packages.Alloc();
      assert sockets.Valid() && packages.Valid();
    }

    method FreePackage(b: nat)
      requires Now().Some? && b in Now().value.packages.used
      modifies repr
      ensures b < |old(Now().value).packages.sns|
      ensures Now() == Some(old(Now().value).(packages := P.Free(old(Now().value).packages, b)))
    {
      assert sockets.Valid() && packages.Valid();
      packages.Free(b);
      assert sockets.Valid() && packages.Valid();
    }
  }

  /** What all the links say. */
  datatype Memory = Memory(pools: Pooled, lists: Listed)

  class Links {
    const pools: Pools
    const lists: Lists
    ghost const repr: set<object>

    ghost predicate Apart() {
      && pools in repr && lists in repr && pools.repr <= repr && lists.repr <= repr && this !in repr
      && pools !in lists.repr && lists !in pools.repr && pools.repr !! lists.repr
    }

    ghost function Now(): Option<Memory>
      reads this, repr
    {
      if Apart() && pools.Now().Some? && lists.Now().Some? then
        Some(Memory(pools.Now().value, lists.Now().value))
      else None
    }

    /** How many sockets have list nodes. */
    ghost function Nodes(): nat {
      |lists.pending.nodes|
    }

    constructor (pools: Pools, lists: Lists, ghost all: set<object>)
      requires pools.Now().Some? && lists.Now().Some?
      requires pools !in lists.repr && lists !in pools.repr && pools.repr !! lists.repr
      requires pools in all && lists in all && pools.repr <= all && lists.repr <= all
      ensures repr == all && this.lists == lists
      ensures Now() == Some(Memory(old(pools.Now().value), old(lists.Now().value)))
    {
      this.pools, this.lists := pools, lists;
      repr := all;
    }

    static ghost function Everything(pools: Pools, lists: Lists): set<object> {
      {pools, lists} + pools.repr + lists.repr
    }

    static method NewLists(connections: nat, pools: Pools) returns (lists: Lists)
      requires pools.Now().Some?
      ensures lists.Now() == Some(Listed([], [], [], None)) && |lists.pending.nodes| == connections
      ensures fresh(lists) && fresh(lists.repr) && pools.Now() == old(pools.Now())
      ensures pools !in lists.repr && lists !in pools.repr && pools.repr !! lists.repr
    {
      lists := new Lists(connections);
    }

    static method Create(connections: nat, packageConnections: nat) returns (links: Links)
      ensures fresh(links) && fresh(links.repr) && links.Nodes() == connections
      ensures links.Now() ==
        Some(Memory(Pooled(P.Init(connections), P.Init(packageConnections)), Listed([], [], [], None)))
    {
      var a := Pools.Create(connections, packageConnections);
      var b := NewLists(connections, a);
      ghost var all := Everything(a, b);
      assert fresh(all);
      links := new Links(a, b, all);
    }

    method AllocSocket() returns (id: nat)
      requires Now().Some? && !P.Empty(Now().value.pools.sockets)
      modifies repr
      ensures old(Now().value).pools.sockets.unused[0] < |old(Now().value).pools.sockets.sns|
      ensures var was := old(Now().value); var (pool, slot) := P.Alloc(was.pools.sockets);
        id == slot && Now() == Some(was.(pools := was.pools.(sockets := pool)))
    {
      id := pools.AllocSocket();
      assert lists.Now() == old(lists.Now());
    }

    method FreeSocket(id: nat)
      requires Now().Some? && id in Now().value.pools.sockets.used
      modifies repr
      ensures id < |old(Now().value).pools.sockets.sns|
      ensures var was := old(Now().value);
        Now() == Some(was.(pools := was.pools.(sockets := P.Free(was.pools.sockets, id))))
    {
      pools.FreeSocket(id);
      assert lists.Now() == old(lists.Now());
    }

    method AllocPackage() returns (b: nat)
      requires Now().Some? && !P.Empty(Now().value.pools.packages)
      modifies repr
      ensures old(Now().value).pools.packages.unused[0] < |old(Now().value).pools.packages.sns|
      ensures var was := old(Now().value); var (pool, slot) := P.Alloc(was.pools.packages);
        b == slot && Now() == Some(was.(pools := was.pools.(packages := pool)))
    {
      b := pools.AllocPackage();
      assert lists.Now() == old(lists.Now());
    }

    method FreePackage(b: nat)
      requires Now().Some? && b in Now().value.pools.packages.used
      modifies repr
      ensures b < |old(Now().value).pools.packages.sns|
      ensures var was := old(Now().value);
        Now() == Some(was.(pools := was.pools.(packages := P.Free(was.pools.packages, b))))
    {
      pools.FreePackage(b);
      assert lists.Now() == old(lists.Now());
    }

    method AppendPending(id: nat)
      requires Now().Some? && id < Nodes() && id !in Now().value.lists.pending
      modifies repr
      ensures var was := old(Now().value);
        Now() == Some(was.(lists := was.lists.(pending := was.lists.pending + [id], gone := None)))
    {
      lists.AppendPending(id);
      assert pools.Now() == old(pools.Now());
    }

    method UnlinkPending(id: nat)
      requires Now().Some? && id in Now().value.lists.pending
      modifies repr
      ensures var was := old(Now().value);
        Now() == Some(was.(lists := was.lists.(pending := Unlink(was.lists.pending, id), gone := Some(id))))
    {
      lists.UnlinkPending(id);
      assert pools.Now() == old(pools.Now());
    }

    method AppendPackage(id: nat)
      requires Now().Some? && id < Nodes() && id !in Now().value.lists.package
      modifies repr
      ensures var was := old(Now().value);
        Now() == Some(was.(lists := was.lists.(package := was.lists.package + [id])))
    {
      lists.AppendPackage(id);
      assert pools.Now() == old(pools.Now());
    }

    method UnlinkPackage(id: nat)
      requires Now().Some? && id in Now().value.lists.package
      modifies repr
      ensures var was := old(Now().value);
        Now() == Some(was.(lists := was.lists.(package := Unlink(was.lists.package, id))))
    {
      lists.UnlinkPackage(id);
      assert pools.Now() == old(pools.Now());
    }

    method AppendReadable(id: nat)
      requires Now().Some? && id < Nodes() && id !in Now().value.lists.readable
      modifies repr
      ensures var was := old(Now().value);
        Now() == Some(was.(lists := was.lists.(readable := was.lists.readable + [id])))
    {
      lists.AppendReadable(id);
      assert pools.Now() == old(pools.Now());
    }

    method UnlinkReadable(id: nat)
      requires Now().Some? && id in Now().value.lists.readable
      modifies repr
      ensures var was := old(Now().value);
        Now() == Some(was.(lists := was.lists.(readable := Unlink(was.lists.readable, id))))
    {
      lists.UnlinkReadable(id);
      assert pools.Now() == old(pools.Now());
    }

    /** As the destructor does it: the node may have been unlinked by a failed accept just before. */
    method UnlinkPendingAgain(id: nat)
      requires Now().Some? && (id in Now().value.lists.pending || Now().value.lists.gone == Some(id))
      modifies repr
      ensures var was := old(Now().value);
        Now() == Some(was.(lists := was.lists.(pending := Unlink(was.lists.pending, id), gone := None)))
    {
      lists.UnlinkPendingAgain(id);
      assert pools.Now() == old(pools.Now());
    }

    method InitNodes(id: nat)
      requires Now().Some? && id < Nodes()
      requires var l := Now().value.lists; id !in l.pending && id !in l.package && id !in l.readable
      modifies repr
      ensures var was := old(Now().value); Now() == Some(was.(lists := was.lists.(gone := None)))
    {
      lists.InitNodes(id);
      assert pools.Now() == old(pools.Now());
    }

    // ----- reading the links -----

    lemma WhatListsSay()
      requires Now().Some?
      ensures lists.pending.Valid() && lists.pending.ids == Now().value.lists.pending
      ensures lists.package.Valid() && lists.package.ids == Now().value.lists.package
      ensures lists.readable.Valid() && lists.readable.ids == Now().value.lists.readable
    {
      assert lists.AllValid();
    }

    method SocketsEmpty() returns (empty: bool)
      requires Now().Some?
      ensures empty == P.Empty(Now().value.pools.sockets)
    {
      assert pools.sockets.Valid();
      empty := pools.sockets.IsEmpty();
    }

    /** tlibc_mempool_over */
    method SocketsOver() returns (over: bool)
      requires Now().Some?
      ensures over == P.Over(Now().value.pools.sockets)
    {
      over := pools.sockets.sn == P.INVALID_ID;
    }

    method PackagesEmpty() returns (empty: bool)
      requires Now().Some?
      ensures empty == P.Empty(Now().value.pools.packages)
    {
      assert pools.packages.Valid();
      empty := pools.packages.IsEmpty();
    }

    /** The two tests of a handle. */
    method Test(id: nat, sn: nat) returns (ok: bool)
      requires Now().Some?
      ensures ok == P.Passes(Now().value.pools.sockets, id, sn)
    {
      assert pools.sockets.Valid();
      ok := pools.sockets.Test(id, sn);
    }

    method Sn(id: nat) returns (sn: nat)
      requires Now().Some? && id < |Now().value.pools.sockets.sns|
      ensures sn == Now().value.pools.sockets.sns[id]
    {
      sn := pools.sockets.sns[id];
    }

    /** The first holder of a package buffer. */
    method FirstPackage() returns (id: Option<nat>)
      requires Now().Some?
      ensures var list := Now().value.lists.package; id == if list == [] then None else Some(list[0])
    {
      WhatListsSay();
      lists.package.Walking(0);
      var first := lists.package.head.next;
      id := if first == lists.package.head then None else Some(first.owner);
    }
  }
}
