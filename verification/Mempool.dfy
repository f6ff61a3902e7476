/**
 tlibc_mempool (tutils/include/tlibc_mempool.h) on real list nodes. Every slot carries two nodes, one for the
 unused and one for the used list; alloc and free move it between the lists and stamp its serial number.
 The class is proved to implement the abstract pool of MempoolSpec.
 */
module Mempool {
  import opened Basics
  import opened TlibcList
  import P = MempoolSpec

  class Pool {
    var sn: nat
    /** The serial numbers stamped on the slots. */
    const sns: array<nat>
    const unusedList: NodeList
    const usedList: NodeList
    var unusedNum: nat
    var usedNum: nat

    /** The abstract pool. */
    ghost function View(): P.Pool
      reads this, sns, unusedList, usedList
    {
      P.Pool(sn, sns[..], unusedList.ids, usedList.ids)
    }

    /** The two lists share no node. */
    ghost predicate Separate() {
      unusedList != usedList && unusedList.repr !! usedList.repr
    }

    ghost predicate Valid()
      reads this, sns, unusedList, unusedList.repr, usedList, usedList.repr
    {
      && Separate() && unusedList.Valid() && usedList.Valid()
      && |unusedList.nodes| == |usedList.nodes| == sns.Length
      && P.Partition(View())
      && unusedNum == |unusedList.ids| && usedNum == |usedList.ids|
    }

    static method NewNodes(n: nat) returns (nodes: seq<Link>)
      ensures |nodes| == n && fresh(nodes) && forall i :: 0 <= i < n ==> nodes[i].owner == i
    {
      nodes := [];
      while |nodes| < n
        invariant |nodes| <= n && fresh(nodes)
        invariant forall i :: 0 <= i < |nodes| ==> nodes[i].owner == i
      {
        var node := new Link(|nodes|);
        nodes := nodes + [node];
      }
    }

    /** The loop of tlibc_mempool_init. */
    static method Fill(list: NodeList)
      requires list.Valid() && list.ids == []
      modifies list, list.repr
      ensures list.Valid() && list.ids == P.Init(|list.nodes|).unused
    {
      ghost var goal := P.Init(|list.nodes|).unused;
      assert forall i :: 0 <= i < |list.nodes| ==> goal[i] == i;
      var i := 0;
      while i < |list.nodes|
        invariant i <= |list.nodes|
        invariant list.Valid() && list.ids == goal[..i]
      {
        list.PushBack(i);
        assert goal[..i] + [i] == goal[..i + 1];
        i := i + 1;
      }
      assert goal[..|list.nodes|] == goal;
    }

    static method NewEmptyList(n: nat) returns (list: NodeList)
      ensures fresh(list) && fresh(list.repr) && list.Valid() && |list.nodes| == n && list.ids == []
    {
      var nodes := NewNodes(n);
      list := new NodeList(nodes);
    }

    static method NewList(n: nat) returns (list: NodeList)
      ensures fresh(list) && fresh(list.repr) && list.Valid() && |list.nodes| == n && list.ids == P.Init(n).unused
    {
      list := NewEmptyList(n);
      Fill(list);
    }

    /** tlibc_mempool_init: every slot is appended to the unused list, in slot order, and stamped invalid. */
    constructor (unitNum: nat)
      ensures Valid() && View() == P.Init(unitNum)
      ensures fresh(sns) && fresh(unusedList) && fresh(usedList) && fresh(unusedList.repr) && fresh(usedList.repr)
    {
      var unused := NewList(unitNum);
      var used := NewEmptyList(unitNum);
      unusedList, usedList := unused, used;
      sns := new nat[unitNum](_ => P.INVALID_ID);
      sn, unusedNum, usedNum := 0, unitNum, 0;
      new;
      P.InitPartitions(unitNum);
      assert sns[..] == P.Init(unitNum).sns;
    }

    /** tlibc_mempool_empty */
    method IsEmpty() returns (empty: bool)
      requires Valid()
      ensures empty == P.Empty(View())
    {
      empty := unusedList.IsEmpty();
    }

    /** tlibc_mempool_id_test and tlibc_mempool_ptr_test, as process_input_tbus makes them. */
    method Test(id: nat, no: nat) returns (ok: bool)
      requires Valid()
      ensures ok == P.Passes(View(), id, no)
    {
      ok := id < sns.Length && sns[id] != P.INVALID_ID && sns[id] == no;
    }

    /** A slot goes from one list to the front of the other. */
    static method Move(from: NodeList, to: NodeList, id: nat)
      requires from.Valid() && to.Valid() && from != to && from.repr !! to.repr && |from.nodes| == |to.nodes|
      requires id in from.ids && id !in to.ids
      modifies from, from.repr, to, to.repr
      ensures from.Valid() && to.Valid() && from.ids == Unlink(old(from.ids), id) && to.ids == [id] + old(to.ids)
    {
      from.Remove(id);
      assert to.Valid();
      to.PushFront(id);
    }

    /** tlibc_mempool_alloc */
    method Alloc() returns (id: nat)
      requires Valid() && !P.Empty(View())
      modifies this, sns, unusedList, unusedList.repr, usedList, usedList.repr
      ensures Valid() && old(View()).unused[0] < |old(View()).sns| && (View(), id) == P.Alloc(old(View()))
    {
      ghost var before := View();
      P.AllocPartitions(before);
      id := unusedList.FirstOwner();
      TakeFirst(id);
      Stamp(id);
      assert View() == P.Alloc(before).0;
    }

    method TakeFirst(id: nat)
      requires Valid() && !P.Empty(View()) && id == View().unused[0]
      modifies this`unusedNum, this`usedNum, unusedList, unusedList.repr, usedList, usedList.repr
      ensures Valid() && unusedList.ids == old(unusedList.ids)[1..] && usedList.ids == [id] + old(usedList.ids)
    {
      P.AllocPartitions(View());
      Move(unusedList, usedList, id);
      unusedNum := unusedNum - 1;
      usedNum := usedNum + 1;
    }

    method Stamp(id: nat)
      requires Valid() && id < sns.Length
      modifies this`sn, sns
      ensures Valid() && sns[..] == old(sns[..])[id := old(sn)] && sn == (old(sn) + 1) % (UINT64_MAX + 1)
    {
      sns[id] := sn;
      sn := (sn + 1) % (UINT64_MAX + 1);
    }

    /** tlibc_mempool_free */
    method Free(id: nat)
      requires Valid() && id in View().used
      modifies this, sns, unusedList, unusedList.repr, usedList, usedList.repr
      ensures Valid() && id < |old(View()).sns| && View() == P.Free(old(View()), id)
    {
      ghost var before := View();
      P.FreePartitions(before, id);
      Move(usedList, unusedList, id);
      usedNum := usedNum - 1;
      unusedNum := unusedNum + 1;
      sns[id] := P.INVALID_ID;
      assert View() == P.Free(before, id);
    }
  }
}
