/**
 The intrusive doubly linked list (tutils/include/tlibc_list.h) on real nodes. `Ring(head, s)` ties the
 links of a list to the sequence of its nodes, and the operations are proved to do to that sequence what the
 value-level models of the other modules say.
 */
module TlibcList {
  import opened Basics

  /** tlibc_list_head_t. `owner` is the index of the record the node is embedded in, which the C code
      recovers by pointer arithmetic (TLIBC_CONTAINER_OF). */
  class Link {
    var next: Link
    var prev: Link
    const owner: nat
    /** Which of the record's list nodes this is. */
    ghost const member: nat

    /** A node as tlibc_list_init leaves it. */
    constructor (owner: nat, ghost member: nat := 0)
      ensures next == this && prev == this && this.owner == owner && this.member == member
    {
      this.owner := owner;
      this.member := member;
      next, prev := this, this;
    }

    /** tlibc_list_init */
    method Init()
      modifies this
      ensures Ring(this, [])
    {
      next := this;
      prev := this;
    }

    /** __tlibc_list_add */
    method InsertBetween(before: Link, after: Link)
      requires this != before && this != after
      modifies this, before`next, after`prev
      ensures next == after && prev == before && before.next == this && after.prev == this
    {
      this.next := after;
      this.prev := before;
      this.next.prev := this;
      this.prev.next := this;
    }

    /** tlibc_list_add: the node becomes the first of the list. */
    method Add(head: Link, ghost s: seq<Link>)
      requires Ring(head, s) && this != head && this !in s
      modifies this, head, s
      ensures Ring(head, [this] + s)
    {
      InsertBetween(head, head.next);
      assert forall i :: 0 <= i < |s| ==> ([this] + s)[i + 1] == s[i];
    }

    /** tlibc_list_add_tail: the node becomes the last of the list. */
    method AddTail(head: Link, ghost s: seq<Link>)
      requires Ring(head, s) && this != head && this !in s
      modifies this, head, s
      ensures Ring(head, s + [this])
    {
      InsertBetween(head.prev, head);
    }

    /** The node's own links still enclose the gap it left, as they do right after it was unlinked. */
    ghost predicate Detached(head: Link, s: seq<Link>)
      reads this, head, s
    {
      this != head && this !in s
      && (prev == head || prev in s) && (next == head || next in s)
      && prev.next == next && next.prev == prev
    }

    /** tlibc_list_del, the macro itself: it joins the node's neighbours and writes nothing else. */
    method Del()
      modifies prev`next, next`prev
      ensures old(prev).next == old(next) && old(next).prev == old(prev)
    {
      var before, after := prev, next;
      after.prev := before;
      before.next := after;
    }

    /** tlibc_list_del on a member: the list loses that node, and the node, whose own links stay as they were,
        keeps leading to its old successor. */
    method DelFrom(ghost head: Link, ghost s: seq<Link>, ghost k: nat)
      requires Ring(head, s) && k < |s| && s[k] == this
      modifies head, s
      ensures Ring(head, CutOut(s, k)) && Detached(head, CutOut(s, k))
      ensures next == old(next) && prev == old(prev)
    {
      NeighboursOf(head, s, k);
      Del();
      RingWithout(head, s, k);
      CutOutDistinct(s, k);
    }

    /** tlibc_list_del on a node that was just unlinked changes nothing at all. */
    method DelAgain(ghost head: Link, ghost s: seq<Link>)
      requires Ring(head, s) && Detached(head, s)
      modifies head, s
      ensures Ring(head, s)
      ensures forall n: Link :: allocated(n) && old(allocated(n)) ==> n.next == old(n.next) && n.prev == old(n.prev)
    {
      Del();
    }

    /** tlibc_list_del on node k, or on a node that was just unlinked. */
    method DelIfOn(ghost head: Link, ghost s: seq<Link>, ghost k: nat)
      requires Ring(head, s) && (if k < |s| then s[k] == this else Detached(head, s))
      modifies head, s
      ensures Ring(head, if k < |s| then CutOut(s, k) else s)
    {
      if k < |s| {
        NeighboursOf(head, s, k);
      }
      Del();
      if k < |s| {
        RingWithout(head, s, k);
      }
    }

    /** A failed accept: unlinked by tconnd_socket_on_cmd_accept and once more by the destructor. The list is
        the old one without the node, and well formed. */
    method DelTwice(ghost head: Link, ghost s: seq<Link>, ghost k: nat)
      requires Ring(head, s) && k < |s| && s[k] == this
      modifies head, s
      ensures Ring(head, CutOut(s, k))
    {
      DelFrom(head, s, k);
      CutOutDistinct(s, k);
      DelAgain(head, CutOut(s, k));
    }
  }

  ghost function Next(head: Link, s: seq<Link>, i: int): Link
    requires -1 <= i < |s|
  {
    if i + 1 < |s| then s[i + 1] else head
  }

  ghost function Prev(head: Link, s: seq<Link>, i: int): Link
    requires 0 <= i <= |s|
  {
    if i == 0 then head else s[i - 1]
  }

  /** The nodes `s`, in this order, form the circular list with the given head. */
  ghost predicate Ring(head: Link, s: seq<Link>)
    reads head, s
  {
    && head !in s && Distinct(s)
    && head.next == Next(head, s, -1) && head.prev == Prev(head, s, |s|)
    && (forall i {:trigger s[i].next} :: 0 <= i < |s| ==> s[i].next == Next(head, s, i))
    && (forall i {:trigger s[i].prev} :: 0 <= i < |s| ==> s[i].prev == Prev(head, s, i))
  }

  lemma NeighboursOf(head: Link, s: seq<Link>, k: nat)
    requires Ring(head, s) && k < |s|
    ensures s[k].prev == Prev(head, s, k) && s[k].next == Next(head, s, k)
    ensures forall i :: 0 <= i < |s| ==> (s[i] == s[k].prev <==> i + 1 == k) && (s[i] == s[k].next <==> i == k + 1)
    ensures (head == s[k].prev <==> k == 0) && (head == s[k].next <==> k == |s| - 1)
    ensures s[k].prev != s[k] && s[k].next != s[k]
  {
  }

  /** The list's links after node k's neighbours have been joined. */
  ghost predicate Bypassed(head: Link, s: seq<Link>, k: nat)
    requires k < |s|
    reads head, s
  {
    && head !in s && Distinct(s)
    && head.next == (if k == 0 then Next(head, s, 0) else Next(head, s, -1))
    && head.prev == (if k == |s| - 1 then Prev(head, s, k) else Prev(head, s, |s|))
    && (forall i {:trigger s[i].next} :: 0 <= i < |s| && i != k ==>
          s[i].next == (if i + 1 == k then Next(head, s, k) else Next(head, s, i)))
    && (forall i {:trigger s[i].prev} :: 0 <= i < |s| && i != k ==>
          s[i].prev == (if i == k + 1 then Prev(head, s, k) else Prev(head, s, i)))
  }

  lemma RingWithout(head: Link, s: seq<Link>, k: nat)
    requires k < |s| && Bypassed(head, s, k)
    ensures Ring(head, CutOut(s, k))
  {
    var u := CutOut(s, k);
    assert forall i :: 0 <= i < |u| ==> u[i] == s[if i < k then i else i + 1];
    CutOutDistinct(s, k);
    forall i | 0 <= i < |u| ensures u[i].next == Next(head, u, i) && u[i].prev == Prev(head, u, i) {
      var j := if i < k then i else i + 1;
      assert u[i] == s[j];
    }
  }

  // ----- a list threaded through an array of records -----

  /** One list whose nodes are embedded in an array of records; `ids` are the records on it, in order, and
      `chain` their nodes. */
  class NodeList {
    const head: Link
    const nodes: seq<Link>
    ghost var ids: seq<nat>
    ghost var chain: seq<Link>
    /** The head and all the nodes, on the list or not. */
    ghost const repr: set<Link>

    ghost predicate Layout() {
      head !in nodes && head in repr && forall i :: 0 <= i < |nodes| ==> nodes[i].owner == i && nodes[i] in repr
    }

    ghost predicate Chained(s: seq<nat>, c: seq<Link>) {
      |c| == |s| && forall i :: 0 <= i < |s| ==> s[i] < |nodes| && c[i] == nodes[s[i]]
    }

    ghost predicate Valid()
      reads this, repr
    {
      Layout() && Distinct(ids) && Chained(ids, chain) && Ring(head, chain)
    }

    constructor (nodes: seq<Link>)
      requires forall i :: 0 <= i < |nodes| ==> nodes[i].owner == i
      ensures Valid() && ids == [] && this.nodes == nodes && fresh(head)
      ensures repr == {head} + set n | n in nodes
    {
      this.nodes := nodes;
      head := new Link(0);
      ids, chain := [], [];
      repr := {head} + set n | n in nodes;
    }

    lemma NotOn(id: nat)
      requires Valid() && id < |nodes| && id !in ids
      ensures nodes[id] != head && nodes[id] !in chain
    {
      assert forall i :: 0 <= i < |chain| ==> chain[i].owner == ids[i];
    }

    /** Where a walk over the list stands after k steps. */
    ghost function Place(k: nat): Link
      requires k <= |chain|
      reads this
    {
      if k < |chain| then chain[k] else head
    }

    lemma Walking(k: nat)
      requires Valid() && k <= |chain|
      ensures |chain| == |ids| && (Place(k) == head <==> k == |chain|) && head.next == Place(0)
      ensures k < |chain| ==> Place(k).owner == ids[k] && Place(k) in repr && Place(k).next == Place(k + 1)
    {
      if k < |chain| {
        assert chain[k] in chain;
      }
    }

    method IsEmpty() returns (empty: bool)
      requires Valid()
      ensures empty == (ids == [])
    {
      empty := head.next == head;
    }

    method PushFront(id: nat)
      requires Valid() && id < |nodes| && id !in ids
      modifies this, repr
      ensures Valid() && ids == [id] + old(ids)
    {
      NotOn(id);
      nodes[id].Add(head, chain);
      ids, chain := [id] + ids, [nodes[id]] + chain;
    }

    method PushBack(id: nat)
      requires Valid() && id < |nodes| && id !in ids
      modifies this, repr
      ensures Valid() && ids == old(ids) + [id]
    {
      NotOn(id);
      nodes[id].AddTail(head, chain);
      ids, chain := ids + [id], chain + [nodes[id]];
    }

    /** Whose the first node is. */
    method FirstOwner() returns (id: nat)
      requires Valid() && ids != []
      ensures id == ids[0]
    {
      id := head.next.owner;
    }

    lemma CutChained(k: nat)
      requires Chained(ids, chain) && k < |ids|
      ensures Chained(CutOut(ids, k), CutOut(chain, k))
    {
      var s, c := CutOut(ids, k), CutOut(chain, k);
      forall i | 0 <= i < |s| ensures s[i] == ids[if i < k then i else i + 1] && c[i] == chain[if i < k then i else i + 1] {
      }
    }

    /** tlibc_list_del on the node of record `id`. */
    method Remove(id: nat)
      requires Valid() && id in ids
      modifies this, repr
      ensures Valid() && ids == Unlink(old(ids), id) && Gone(id)
      ensures id < |nodes| && nodes[id].next == old(nodes[id].next)
    {
      ghost var k := UnlinkIndex(ids, id);
      nodes[id].DelFrom(head, chain, k);
      CutLists(k);
    }

    /** Node k has been unlinked. */
    ghost method CutLists(k: nat)
      requires Layout() && Distinct(ids) && Chained(ids, chain) && k < |ids| && Ring(head, CutOut(chain, k))
      modifies this`ids, this`chain
      ensures Valid() && ids == CutOut(old(ids), k) && chain == CutOut(old(chain), k)
    {
      CutChained(k);
      CutOutDistinct(ids, k);
      ids, chain := CutOut(ids, k), CutOut(chain, k);
    }

    /** The node of record `id` was unlinked, and the list has not changed around the gap since. */
    ghost predicate Gone(id: nat)
      reads this, repr
    {
      Layout() && Chained(ids, chain) && id < |nodes| && nodes[id].Detached(head, chain)
    }

    method DelNode(id: nat, ghost k: nat)
      requires Valid() && id < |nodes| && (if k < |ids| then ids[k] == id else Gone(id))
      modifies this, repr
      ensures Valid() && ids == if k < |old(ids)| then CutOut(old(ids), k) else old(ids)
    {
      nodes[id].DelIfOn(head, chain, k);
      if k < |ids| {
        CutLists(k);
      }
    }

    /** tlibc_list_del on the node of record `id`, whether it is on the list or was unlinked just before. */
    method RemoveAgain(id: nat)
      requires Valid() && (id in ids || Gone(id))
      modifies this, repr
      ensures Valid() && ids == Unlink(old(ids), id)
    {
      ghost var k := |ids|;
      if id in ids {
        k := UnlinkIndex(ids, id);
      } else {
        UnlinkAbsent(ids, id);
      }
      DelNode(id, k);
    }

    /** tlibc_list_init on the node of a record that is not on the list. */
    method InitNode(id: nat)
      requires Valid() && id < |nodes| && id !in ids
      modifies repr
      ensures Valid()
    {
      NotOn(id);
      nodes[id].Init();
    }
  }

  // ----- a list whose members come from outside -----

  /** A list head together with the nodes currently on it. */
  class Chain {
    const head: Link
    ghost var links: seq<Link>
    /** The head and the nodes on the list: all that the list's links depend on. */
    ghost var foot: set<Link>

    ghost predicate Valid()
      reads this, foot
    {
      head in foot && (forall n :: n in links ==> n in foot) && (forall n :: n in foot ==> n == head || n in links)
      && Ring(head, links)
    }

    constructor (owner: nat, ghost member: nat)
      ensures Valid() && links == [] && foot == {head} && fresh(head)
      ensures head.owner == owner && head.member == member
    {
      head := new Link(owner, member);
      links := [];
      foot := {head};
    }

    /** tlibc_list_init and tlibc_list_add_tail of a node that is on no list. */
    method Enlist(node: Link)
      requires Valid() && node !in foot
      modifies this, foot, node
      ensures Valid() && links == old(links) + [node] && foot == old(foot) + {node}
    {
      node.Init();
      Append(node);
    }

    /** tlibc_list_add_tail of a node that is on no list, whatever its stale links say. */
    method Append(node: Link)
      requires Valid() && node !in foot
      modifies this, foot, node
      ensures Valid() && links == old(links) + [node] && foot == old(foot) + {node}
    {
      node.AddTail(head, links);
      links, foot := links + [node], foot + {node};
    }

    /** tlibc_list_del of a member. */
    method Delete(node: Link, ghost k: nat)
      requires Valid() && k < |links| && links[k] == node
      modifies this, foot
      ensures Valid() && links == CutOut(old(links), k) && foot == old(foot) - {node}
      ensures forall n :: n in links <==> n in old(links) && n != node
    {
      CutOutDistinct(links, k);
      node.DelFrom(head, links, k);
      links, foot := CutOut(links, k), foot - {node};
    }

    /** tlibc_list_init: the members are let go, their own links stay as they are. */
    method Reset()
      requires Valid()
      modifies this, head
      ensures Valid() && links == [] && foot == {head}
    {
      head.Init();
      links, foot := [], {head};
    }
  }
}
