/**
 The global invariant of the tconnd engine, and the proof that every step keeps it.

 `Core` says that both pools are partitioned, that the three global lists hold exactly the sockets they
 should, that the package buffers in use are in bijection with the sockets that hold one, and that the
 two lists with deadlines are sorted by them. `Inv` adds what holds between calls: no socket has queued
 output or is marked writable.
 */
module TconndOwnership {
  import opened Basics
  import opened Sip
  import opened TconndState
  import F = Framing
  import P = MempoolSpec

  ghost predicate StatusOk(used: seq<nat>, sockets: seq<Socket>) {
    forall id :: 0 <= id < |sockets| && id in used ==>
      && (sockets[id].status == SynSent || sockets[id].status == Established)
      && (sockets[id].status == SynSent ==> sockets[id].packageBuff.None? && !sockets[id].readable)
  }

  ghost predicate PendingOk(used: seq<nat>, sockets: seq<Socket>, list: seq<nat>) {
    && Distinct(list) && Below(list, |sockets|)
    && forall id :: 0 <= id < |sockets| ==> (id in list <==> id in used && sockets[id].status == SynSent)
  }

  /** The sockets on the package list are exactly the live ones that hold a package buffer. */
  ghost predicate PackageOk(used: seq<nat>, sockets: seq<Socket>, list: seq<nat>) {
    && Distinct(list) && Below(list, |sockets|)
    && forall id :: 0 <= id < |sockets| ==> (id in list <==> id in used && sockets[id].packageBuff.Some?)
  }

  ghost predicate ReadableOk(used: seq<nat>, sockets: seq<Socket>, list: seq<nat>) {
    && Distinct(list) && Below(list, |sockets|)
    && forall id :: 0 <= id < |sockets| ==> (id in list <==> id in used && sockets[id].readable)
  }

  ghost predicate HoldsBuffer(sockets: seq<Socket>, id: nat, b: nat) {
    id < |sockets| && sockets[id].packageBuff == Some(b)
  }

  /** Holding is a bijection between the package list and the used package buffers. */
  ghost predicate Owners(sockets: seq<Socket>, list: seq<nat>, usedBuffs: seq<nat>) {
    && (forall id, b :: id in list && HoldsBuffer(sockets, id, b) ==> b in usedBuffs)
    && (forall i, j, b :: i in list && j in list && HoldsBuffer(sockets, i, b) && HoldsBuffer(sockets, j, b) ==> i == j)
    && (forall b :: b in usedBuffs ==> exists id :: id in list && HoldsBuffer(sockets, id, b))
  }

  /** The list is sorted by its deadlines, none of them later than `latest`. */
  ghost predicate Sorted(d: Deadline, sockets: seq<Socket>, list: seq<nat>, latest: nat) {
    && Below(list, |sockets|)
    && (forall i, j :: 0 <= i < j < |list| ==> Due(d, sockets[list[i]]) <= Due(d, sockets[list[j]]))
    && (forall i :: 0 <= i < |list| ==> Due(d, sockets[list[i]]) <= latest)
  }

  ghost predicate PoolsOk(st: State) {
    Shape(st) && P.Partition(st.socketPool) && P.Stamped(st.socketPool) && P.Partition(st.packagePool)
  }

  ghost predicate Core(st: State) {
    && PoolsOk(st)
    && StatusOk(st.socketPool.used, st.sockets)
    && PendingOk(st.socketPool.used, st.sockets, st.pendingList)
    && PackageOk(st.socketPool.used, st.sockets, st.packageList)
    && ReadableOk(st.socketPool.used, st.sockets, st.readableList)
    && Owners(st.sockets, st.packageList, st.packagePool.used)
    && Sorted(Pending, st.sockets, st.pendingList, st.curTicks + st.config.acceptTicksLimit)
    && Sorted(Package, st.sockets, st.packageList, st.curTicks + st.config.packageTicksLimit)
  }

  /** A socket's output queue: within TCONND_SOCKET_OP_LIST_MAX entries, none empty, and counted exactly. */
  ghost predicate QueueOk(s: Socket) {
    && |s.iov| <= IOV_MAX
    && (forall i :: 0 <= i < |s.iov| ==> |s.iov[i]| > 0)
    && s.iovTotalSize == |Flatten(s.iov)| <= SSIZE_MAX
  }

  ghost predicate Quiet(st: State) {
    Shape(st) && forall id :: 0 <= id < |st.sockets| && id in st.socketPool.used ==>
      st.sockets[id].iov == [] && st.sockets[id].iovTotalSize == 0 && !st.sockets[id].writable
  }

  ghost predicate Inv(st: State) {
    Core(st) && Quiet(st)
  }

  /** A live handle is exactly a used slot with its current serial number. */
  lemma LiveIsUsed(st: State, h: Cid)
    requires PoolsOk(st)
    ensures Live(st, h) <==> h.id < |st.sockets| && h.id in st.socketPool.used && h == CidOf(st, h.id)
  {
  }

  /** What the destructor of an established socket gives back is there to be given back. */
  ghost predicate Owned(st: State, id: nat) {
    && id < |st.sockets| && id in st.socketPool.used
    && (st.sockets[id].packageBuff.Some? ==>
          id in st.packageList && st.sockets[id].packageBuff.value in st.packagePool.used)
    && (st.sockets[id].readable ==> id in st.readableList)
  }

  lemma CoreOwns(st: State, id: nat)
    requires Core(st) && id < |st.sockets| && id in st.socketPool.used
    ensures Owned(st, id) && (st.sockets[id].status == SynSent ==> id in st.pendingList)
  {
    if st.sockets[id].packageBuff.Some? {
      assert HoldsBuffer(st.sockets, id, st.sockets[id].packageBuff.value);
    }
  }

  // ----- removal from a list -----

  lemma CutSorted(d: Deadline, sockets: seq<Socket>, list: seq<nat>, k: nat, latest: nat)
    requires Sorted(d, sockets, list, latest) && k < |list|
    ensures Sorted(d, sockets, CutOut(list, k), latest)
  {
    var u := CutOut(list, k);
    forall i | 0 <= i < |u| ensures u[i] == list[if i < k then i else i + 1] {
    }
  }

  lemma UnlinkSorted(d: Deadline, sockets: seq<Socket>, list: seq<nat>, id: nat, latest: nat)
    requires Sorted(d, sockets, list, latest)
    ensures Sorted(d, sockets, Unlink(list, id), latest)
  {
    if id in list {
      var k := UnlinkIndex(list, id);
      CutSorted(d, sockets, list, k, latest);
    } else {
      UnlinkAbsent(list, id);
    }
  }

  /** Sortedness only reads the deadlines of the members. */
  lemma SameDeadlinesSorted(d: Deadline, sockets: seq<Socket>, sockets': seq<Socket>, list: seq<nat>, latest: nat, latest': nat)
    requires Sorted(d, sockets, list, latest) && latest <= latest' && |sockets| <= |sockets'|
    requires forall i :: 0 <= i < |list| ==> Due(d, sockets'[list[i]]) == Due(d, sockets[list[i]])
    ensures Sorted(d, sockets', list, latest')
  {
  }

  lemma UnlinkPending(used: seq<nat>, used': seq<nat>, sockets: seq<Socket>, list: seq<nat>, id: nat)
    requires PendingOk(used, sockets, list)
    requires forall x :: x in used' <==> x in used && x != id
    ensures PendingOk(used', sockets, Unlink(list, id))
  {
    StaysBelow(list, id, |sockets|);
    UnlinkDistinct(list, id);
  }

  lemma UnlinkReadable(used: seq<nat>, used': seq<nat>, sockets: seq<Socket>, list: seq<nat>, id: nat)
    requires ReadableOk(used, sockets, list)
    requires forall x :: x in used' <==> x in used && x != id
    ensures ReadableOk(used', sockets, Unlink(list, id))
  {
    StaysBelow(list, id, |sockets|);
    UnlinkDistinct(list, id);
  }

  lemma UnlinkPackage(used: seq<nat>, sockets: seq<Socket>, list: seq<nat>, id: nat)
    requires PackageOk(used, sockets, list)
    requires id < |sockets|
    ensures PackageOk(used, sockets[id := sockets[id].(packageBuff := None)], Unlink(list, id))
  {
    StaysBelow(list, id, |sockets|);
    UnlinkDistinct(list, id);
  }

  lemma UnlinkOwner(sockets: seq<Socket>, list: seq<nat>, usedBuffs: seq<nat>, id: nat, b: nat)
    requires Distinct(list) && Distinct(usedBuffs) && Owners(sockets, list, usedBuffs)
    requires id in list && HoldsBuffer(sockets, id, b)
    ensures Owners(sockets[id := sockets[id].(packageBuff := None)], Unlink(list, id), Unlink(usedBuffs, b))
  {
    UnlinkDistinct(list, id);
    UnlinkDistinct(usedBuffs, b);
    var sockets' := sockets[id := sockets[id].(packageBuff := None)];
    forall c | c in Unlink(usedBuffs, b)
      ensures exists x :: x in Unlink(list, id) && HoldsBuffer(sockets', x, c)
    {
      var x :| x in list && HoldsBuffer(sockets, x, c);
      assert HoldsBuffer(sockets', x, c);
    }
    forall x, c | x in Unlink(list, id) && HoldsBuffer(sockets', x, c) ensures HoldsBuffer(sockets, x, c) {
    }
  }

  // ----- the primitive steps keep Core -----

  /** Giving a package buffer back never frees a buffer that is not in use, and keeps everything else. */
  lemma DropPackageKeepsCore(st: State, id: nat)
    requires Core(st) && id in st.socketPool.used && id < |st.sockets| && st.sockets[id].packageBuff.Some?
    ensures Core(DropPackage(st, id))
    ensures st.sockets[id].packageBuff.value in st.packagePool.used
  {
    var b := st.sockets[id].packageBuff.value;
    assert id in st.packageList && HoldsBuffer(st.sockets, id, b);
    var st1 := DropPackage(st, id);
    P.FreePartitions(st.packagePool, b);
    UnlinkPackage(st.socketPool.used, st.sockets, st.packageList, id);
    UnlinkOwner(st.sockets, st.packageList, st.packagePool.used, id, b);
    var pending, package := st.curTicks + st.config.acceptTicksLimit, st.curTicks + st.config.packageTicksLimit;
    SameDeadlinesSorted(Pending, st.sockets, st1.sockets, st.pendingList, pending, pending);
    SameDeadlinesSorted(Package, st.sockets, st1.sockets, st.packageList, package, package);
    UnlinkSorted(Package, st1.sockets, st.packageList, id, package);
  }

  /** Without a package buffer, deleting amounts to leaving the other two lists and freeing the slot. */
  lemma DeleteBareParts(st: State, id: nat)
    requires Core(st) && id in st.socketPool.used && id < |st.sockets| && st.sockets[id].packageBuff.None?
    ensures Delete(st, id) == st.(pendingList := Unlink(st.pendingList, id),
                                  readableList := Unlink(st.readableList, id),
                                  socketPool := P.Free(st.socketPool, id))
  {
    if st.sockets[id].status == SynSent {
      UnlinkAbsent(st.readableList, id);
    } else {
      UnlinkAbsent(st.pendingList, id);
      if !st.sockets[id].readable {
        UnlinkAbsent(st.readableList, id);
      }
    }
  }

  lemma DeleteBareKeepsCore(st: State, id: nat)
    requires Core(st) && id in st.socketPool.used && id < |st.sockets| && st.sockets[id].packageBuff.None?
    ensures Core(Delete(st, id))
  {
    var used' := P.Free(st.socketPool, id).used;
    DeleteBareParts(st, id);
    P.FreePartitions(st.socketPool, id);
    P.FreeStamps(st.socketPool, id);
    UnlinkPending(st.socketPool.used, used', st.sockets, st.pendingList, id);
    UnlinkSorted(Pending, st.sockets, st.pendingList, id, st.curTicks + st.config.acceptTicksLimit);
    UnlinkReadable(st.socketPool.used, used', st.sockets, st.readableList, id);
    assert PackageOk(used', st.sockets, st.packageList);
  }

  /** tconnd_socket_delete on a live socket frees what the socket owns, once, and unlinks it everywhere. */
  lemma DeleteKeepsCore(st: State, id: nat)
    requires Core(st) && id in st.socketPool.used && id < |st.sockets|
    ensures Core(Delete(st, id))
    ensures forall x :: x in Delete(st, id).socketPool.used <==> x in st.socketPool.used && x != id
  {
    P.FreePartitions(st.socketPool, id);
    if st.sockets[id].packageBuff.Some? {
      var st1 := DropPackage(st, id);
      DropPackageKeepsCore(st, id);
      DeleteBareKeepsCore(st1, id);
      assert Delete(st, id) == Delete(st1, id);
    } else {
      DeleteBareKeepsCore(st, id);
    }
  }

  /** States that differ at most in the record of what the outside world has seen, and in the bytes held
      in the package buffers. */
  ghost predicate SameEngine(a: State, b: State) {
    && a.config == b.config && a.curTicks == b.curTicks
    && a.socketPool == b.socketPool && a.sockets == b.sockets
    && a.packagePool == b.packagePool && |a.buffs| == |b.buffs|
    && a.pendingList == b.pendingList && a.packageList == b.packageList && a.readableList == b.readableList
  }

  lemma CoreIgnoresRecords(a: State, b: State)
    requires Core(a) && SameEngine(a, b)
    ensures Core(b)
    ensures Quiet(a) ==> Quiet(b)
  {
  }

  /** What Core reads of a socket. */
  ghost predicate SameRole(a: Socket, b: Socket) {
    && a.status == b.status && a.packageBuff == b.packageBuff && a.readable == b.readable
    && a.pendingTicks == b.pendingTicks && a.packageTicks == b.packageTicks
  }

  /** Queued output and the writable flag do not matter to Core. */
  lemma CoreIgnoresQueues(st: State, id: nat, s: Socket)
    requires Core(st) && id < |st.sockets| && SameRole(st.sockets[id], s)
    ensures Core(SetSocket(st, id, s))
  {
    var sockets' := st.sockets[id := s];
    assert forall x :: 0 <= x < |sockets'| ==> SameRole(st.sockets[x], sockets'[x]);
    assert forall x, b :: HoldsBuffer(sockets', x, b) <==> HoldsBuffer(st.sockets, x, b);
  }

  /** The node of a socket whose accept failed is unlinked twice, by tconnd_socket_on_cmd_accept and again
      by the destructor; the second time changes nothing. */
  lemma UnlinkedTwice(st: State, id: nat)
    requires Core(st) && id < |st.sockets| && st.sockets[id].status == SynSent
    ensures var st1 := st.(pendingList := Unlink(st.pendingList, id)); Shape(st1) && Delete(st1, id) == Delete(st, id)
  {
    StaysBelow(st.pendingList, id, |st.sockets|);
    UnlinkDistinct(st.pendingList, id);
    UnlinkAbsent(Unlink(st.pendingList, id), id);
  }

  /** The part of a successful accept that Core sees. */
  function Establish(st: State, id: nat): (r: State)
    requires Shape(st) && id < |st.sockets|
    ensures Shape(r)
  {
    StaysBelow(st.pendingList, id, |st.sockets|);
    st.(pendingList := Unlink(st.pendingList, id),
        sockets := st.sockets[id := st.sockets[id].(status := Established)])
  }

  lemma EstablishKeepsCore(st: State, id: nat)
    requires Core(st) && id in st.socketPool.used && id < |st.sockets| && st.sockets[id].status == SynSent
    ensures Core(Establish(st, id))
  {
    var st1 := Establish(st, id);
    UnlinkDistinct(st.pendingList, id);
    var pending, package := st.curTicks + st.config.acceptTicksLimit, st.curTicks + st.config.packageTicksLimit;
    UnlinkSorted(Pending, st.sockets, st.pendingList, id, pending);
    SameDeadlinesSorted(Pending, st.sockets, st1.sockets, st1.pendingList, pending, pending);
    SameDeadlinesSorted(Package, st.sockets, st1.sockets, st1.packageList, package, package);
    assert forall x, b :: HoldsBuffer(st1.sockets, x, b) <==> HoldsBuffer(st.sockets, x, b);
  }

  ghost predicate ListsOk(st: State) {
    && StatusOk(st.socketPool.used, st.sockets)
    && PendingOk(st.socketPool.used, st.sockets, st.pendingList)
    && PackageOk(st.socketPool.used, st.sockets, st.packageList)
    && ReadableOk(st.socketPool.used, st.sockets, st.readableList)
  }

  lemma CachePackageKeepsLists(st: State, id: nat, tail: Bytes)
    requires Core(st) && id in st.socketPool.used && id < |st.sockets|
    requires st.sockets[id].status == Established && st.sockets[id].packageBuff.None?
    requires !P.Empty(st.packagePool)
    ensures PoolsOk(CachePackage(st, id, tail)) && ListsOk(CachePackage(st, id, tail))
  {
    P.AllocPartitions(st.packagePool);
    assert id !in st.packageList;
  }

  lemma CachePackageKeepsOwners(st: State, id: nat, tail: Bytes)
    requires Core(st) && id in st.socketPool.used && id < |st.sockets|
    requires st.sockets[id].status == Established && st.sockets[id].packageBuff.None?
    requires !P.Empty(st.packagePool)
    ensures var r := CachePackage(st, id, tail); Owners(r.sockets, r.packageList, r.packagePool.used)
  {
    var (pool, b) := P.Alloc(st.packagePool);
    var st1 := CachePackage(st, id, tail);
    P.AllocPartitions(st.packagePool);
    assert forall x, c :: x != id ==> (HoldsBuffer(st1.sockets, x, c) <==> HoldsBuffer(st.sockets, x, c));
    assert HoldsBuffer(st1.sockets, id, b);
    forall c | c in pool.used ensures exists x :: x in st1.packageList && HoldsBuffer(st1.sockets, x, c) {
      if c == b {
        assert id in st1.packageList;
      } else {
        var x :| x in st.packageList && HoldsBuffer(st.sockets, x, c);
        assert x in st1.packageList && HoldsBuffer(st1.sockets, x, c);
      }
    }
  }

  /** Caching a tail takes a free buffer and appends the socket to the end of the package list. */
  lemma CachePackageKeepsCore(st: State, id: nat, tail: Bytes)
    requires Core(st) && id in st.socketPool.used && id < |st.sockets|
    requires st.sockets[id].status == Established && st.sockets[id].packageBuff.None?
    requires !P.Empty(st.packagePool)
    ensures Core(CachePackage(st, id, tail))
  {
    CachePackageKeepsLists(st, id, tail);
    CachePackageKeepsOwners(st, id, tail);
  }

  lemma AdmitKeepsLists(st: State)
    requires Core(st) && !P.Empty(st.socketPool)
    ensures var st1 := Admit(st);
      && StatusOk(st1.socketPool.used, st1.sockets)
      && PendingOk(st1.socketPool.used, st1.sockets, st1.pendingList)
      && PackageOk(st1.socketPool.used, st1.sockets, st1.packageList)
      && ReadableOk(st1.socketPool.used, st1.sockets, st1.readableList)
  {
    var id := P.Alloc(st.socketPool).1;
    P.AllocPartitions(st.socketPool);
    assert id !in st.pendingList && id !in st.packageList && id !in st.readableList;
  }

  /** A new connection is appended to the end of the pending list. */
  lemma AdmitKeepsCore(st: State)
    requires Core(st) && !P.Empty(st.socketPool) && !P.Over(st.socketPool)
    ensures Core(Admit(st))
  {
    var st1 := Admit(st);
    var id := P.Alloc(st.socketPool).1;
    P.AllocPartitions(st.socketPool);
    P.AllocStamps(st.socketPool);
    AdmitKeepsLists(st);
    assert id !in st.pendingList && id !in st.packageList;
    assert forall x, b :: x in st.packageList ==> (HoldsBuffer(st1.sockets, x, b) <==> HoldsBuffer(st.sockets, x, b));
    var pending, package := st.curTicks + st.config.acceptTicksLimit, st.curTicks + st.config.packageTicksLimit;
    SameDeadlinesSorted(Pending, st.sockets, st1.sockets, st.pendingList, pending, pending);
    SameDeadlinesSorted(Package, st.sockets, st1.sockets, st.packageList, package, package);
  }

  lemma ListenKeepsInv(st: State, io: ListenIo)
    requires Inv(st)
    ensures Inv(Listen(st, io).0)
  {
    var (st1, ret) := Listen(st, io);
    if ret == NoError {
      AdmitKeepsCore(st);
      P.AllocPartitions(st.socketPool);
      CoreIgnoresRecords(Admit(st), st1);
      assert forall id :: 0 <= id < |st.sockets| ==> st1.sockets[id] == st.sockets[id] || st1.sockets[id].iov == [];
    }
  }
}
