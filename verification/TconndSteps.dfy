/**
 Every call of the engine keeps the global invariant: the two loops of process_input_tbus, the receive
 path, the two loops of tconnd_timer_process, the listener and the epoll driver, as long as what it serves is live.
 */
module TconndSteps {
  import opened Basics
  import opened Sip
  import opened TconndState
  import opened TconndOwnership
  import F = Framing
  import P = MempoolSpec

  // ----- process_input_tbus -----

  /** The engine inside process_input_tbus: the local writable list holds exactly the live sockets marked
      writable, each once, and only those have queued output. */
  ghost predicate WorkInv(w: Work) {
    && Core(w.st) && Distinct(w.writable) && Below(w.writable, |w.st.sockets|)
    && Queued(w.st.socketPool.used, w.st.sockets, w.writable)
  }

  ghost predicate Queued(used: seq<nat>, sockets: seq<Socket>, writable: seq<nat>) {
    forall id :: 0 <= id < |sockets| ==>
      && (id in writable <==> id in used && sockets[id].writable)
      && (id in used ==> QueueOk(sockets[id]))
      && (id in used && !sockets[id].writable ==> sockets[id].iov == [])
  }

  lemma QuietIsWork(st: State)
    requires Core(st)
    ensures Quiet(st) <==> WorkInv(Work(st, []))
  {
    assert forall id :: 0 <= id < |st.sockets| && st.sockets[id].iov == [] ==> Flatten(st.sockets[id].iov) == [];
  }

  /** A call touched only one socket, and that one only in its queue. */
  ghost predicate OnlyQueueOf(a: State, b: State, id: nat) {
    && Shape(a) && Shape(b) && id < |a.sockets| == |b.sockets|
    && a.config == b.config && a.curTicks == b.curTicks
    && a.socketPool == b.socketPool && a.packagePool == b.packagePool && a.buffs == b.buffs
    && a.pendingList == b.pendingList && a.packageList == b.packageList && a.readableList == b.readableList
    && b.sockets == a.sockets[id := b.sockets[id]] && SameRole(a.sockets[id], b.sockets[id])
    && a.sockets[id].writable == b.sockets[id].writable
    && a.outbox == b.outbox && a.received == b.received
  }

  lemma OnlyQueueKeepsCore(a: State, b: State, id: nat)
    requires Core(a) && OnlyQueueOf(a, b, id)
    ensures Core(b)
  {
    CoreIgnoresQueues(a, id, b.sockets[id]);
    CoreIgnoresRecords(SetSocket(a, id, b.sockets[id]), b);
  }

  /** tconnd_socket_flush: after success nothing is queued. */
  lemma FlushKeeps(st: State, id: nat, os: Os)
    requires Shape(st) && id < |st.sockets| && QueueOk(st.sockets[id])
    ensures var (st1, ret) := Flush(st, id, os);
      && OnlyQueueOf(st, st1, id) && QueueOk(st1.sockets[id])
      && (ret == NoError || ret == Close)
      && (ret == NoError ==> st1.sockets[id].iov == [] && st1.sockets[id].iovTotalSize == 0)
  {
    assert Flatten<Byte>([]) == [];
  }

  /** tconnd_socket_on_cmd_send: the assertion on iov_num never fires, the counted size stays exact, and a
      non-empty body of representable size is refused only when the flush it needed failed. */
  lemma SendKeeps(st: State, id: nat, body: Bytes, os: Os)
    requires Shape(st) && id < |st.sockets| && QueueOk(st.sockets[id])
    ensures var (st1, ret) := OnCmdSend(st, id, body, os);
      && OnlyQueueOf(st, st1, id) && QueueOk(st1.sockets[id]) && (ret == NoError || ret == Close)
      && (ret == Close && 0 < |body| <= SSIZE_MAX ==> Flush(st, id, os).1 == Close)
  {
    FlushKeeps(st, id, os);
    if 0 < |body| <= SSIZE_MAX {
      var s := st.sockets[id];
      var (st1, ret) :=
        if |s.iov| >= IOV_MAX || s.iovTotalSize > SSIZE_MAX - |body| then Flush(st, id, os) else (st, NoError);
      if ret == NoError {
        FlattenSnoc(st1.sockets[id].iov, body);
      }
    }
  }

  /** The socket is gone, every other one is as before. */
  ghost predicate Removed(a: State, b: State, id: nat) {
    && Shape(a) && Core(b) && id < |a.sockets| == |b.sockets|
    && (forall x :: x in b.socketPool.used <==> x in a.socketPool.used && x != id)
    && b.socketPool.sns == a.socketPool.sns[id := P.INVALID_ID] && b.socketPool.sn == a.socketPool.sn
    && (forall x :: 0 <= x < |a.sockets| && x != id ==> b.sockets[x] == a.sockets[x])
    && b.config == a.config && b.curTicks == a.curTicks
  }

  lemma DeleteFrame(st: State, id: nat)
    requires Core(st) && id < |st.sockets| && id in st.socketPool.used
    ensures Removed(st, Delete(st, id), id)
  {
    DeleteKeepsCore(st, id);
  }

  lemma DestructIgnoresCalls(st: State, id: nat, calls: nat)
    requires Shape(st) && id < |st.sockets|
    ensures Destruct(st.(calls := calls), id) == Destruct(st, id).(calls := calls)
  {
  }

  lemma DeleteIgnoresCalls(st: State, id: nat, calls: nat)
    requires Shape(st) && id < |st.sockets|
    ensures Delete(st.(calls := calls), id) == Delete(st, id).(calls := calls)
  {
    DestructIgnoresCalls(st, id, calls);
  }

  /** What a call of tconnd_socket_push_pkg leaves behind, seen from the loop that made it. `base` is the
      state whose deletion is performed when the call asked for it. */
  ghost predicate Pushed(st: State, st1: State, ret: Ret, id: nat) {
    && Core(st) && Shape(st1) && id < |st.sockets| == |st1.sockets|
    && (ret == NoError || ret == Close)
    && st1.socketPool == st.socketPool && st1.config == st.config && st1.curTicks == st.curTicks
    && st1.sockets == st.sockets[id := st1.sockets[id]]
    && st1.sockets[id].writable == st.sockets[id].writable && QueueOk(st1.sockets[id])
    && (Core(st1) || (ret == Close && st.sockets[id].status == SynSent
          && st1 == st.(pendingList := Unlink(st.pendingList, id), calls := st1.calls)))
    && (ret == NoError ==> Core(st1))
  }

  lemma AcceptPushes(st: State, id: nat, os: Os)
    requires Core(st) && id < |st.sockets| && id in st.socketPool.used && QueueOk(st.sockets[id])
    ensures var (st1, ret) := OnCmdAccept(st, id, os); Pushed(st, st1, ret, id)
  {
    var (st1, ret) := OnCmdAccept(st, id, os);
    if st.sockets[id].status == SynSent && ret == NoError {
      EstablishKeepsCore(st, id);
      CoreIgnoresRecords(Establish(st, id), st1);
    }
  }

  lemma PushPushes(st: State, id: nat, cmd: nat, body: Bytes, os: Os)
    requires Core(st) && id < |st.sockets| && id in st.socketPool.used && QueueOk(st.sockets[id])
    ensures var (st1, ret) := PushPkg(st, id, cmd, body, os); Pushed(st, st1, ret, id)
  {
    var (st1, ret) := PushPkg(st, id, cmd, body, os);
    if cmd == CMD_ACCEPT {
      AcceptPushes(st, id, os);
    } else {
      FlushKeeps(st, id, os);
      SendKeeps(st, id, body, os);
      OnlyQueueKeepsCore(st, st1, id);
    }
  }

  /** Deleting after a push that returned E_TLIBC_CLOSE. */
  lemma DeletePushed(st: State, st1: State, id: nat)
    requires Pushed(st, st1, Close, id) && id in st.socketPool.used
    ensures Removed(st, Delete(SetSocket(st1, id, st1.sockets[id].(writable := false)), id), id)
  {
    if Core(st1) {
      CoreIgnoresQueues(st1, id, st1.sockets[id].(writable := false));
      DeleteFrame(SetSocket(st1, id, st1.sockets[id].(writable := false)), id);
    } else {
      DeleteHalfway(st, st1, id);
    }
  }

  /** The socket was unlinked by a failed accept. */
  lemma DeleteHalfway(st: State, st1: State, id: nat)
    requires Pushed(st, st1, Close, id) && id in st.socketPool.used && !Core(st1)
    ensures Removed(st, Delete(SetSocket(st1, id, st1.sockets[id].(writable := false)), id), id)
  {
    var s := st1.sockets[id].(writable := false);
    var whole, unmarked := SetSocket(st, id, s), SetSocket(st1, id, s);
    CoreIgnoresQueues(st, id, s);
    UnlinkedTwice(whole, id);
    DeleteFrame(whole, id);
    var halfway := whole.(pendingList := Unlink(whole.pendingList, id));
    assert unmarked == halfway.(calls := st1.calls);
    DeleteIgnoresCalls(halfway, id, st1.calls);
    CoreIgnoresRecords(Delete(whole, id), Delete(unmarked, id));
  }

  lemma QueuedWithout(used: seq<nat>, used': seq<nat>, sockets: seq<Socket>, sockets': seq<Socket>, writable: seq<nat>, id: nat)
    requires Queued(used, sockets, writable) && Distinct(writable) && |sockets'| == |sockets|
    requires forall x :: x in used' <==> x in used && x != id
    requires forall x :: 0 <= x < |sockets| && x != id ==> sockets'[x] == sockets[x]
    ensures Queued(used', sockets', Unlink(writable, id))
  {
    UnlinkDistinct(writable, id);
  }

  lemma QueuedWith(used: seq<nat>, sockets: seq<Socket>, writable: seq<nat>, id: nat, s: Socket)
    requires Queued(used, sockets, writable) && Distinct(writable) && Below(writable, |sockets|)
    requires id < |sockets| && id in used && QueueOk(s) && s.writable
    ensures var writable' := if sockets[id].writable then writable else writable + [id];
      Queued(used, sockets[id := s], writable') && Distinct(writable') && Below(writable', |sockets|)
  {
  }

  /** Both branches of the inner loop that delete: a socket not marked writable is on no writable list. */
  lemma DeliverDeletesOnce(w: Work, d: Delivery, os: Os)
    requires WorkShape(w) && Live(w.st, d.cid) && PushPkg(w.st, d.cid.id, d.cmd, d.body, os).1 == Close
    requires !PushPkg(w.st, d.cid.id, d.cmd, d.body, os).0.sockets[d.cid.id].writable ==> d.cid.id !in w.writable
    ensures var id := d.cid.id; var st1 := PushPkg(w.st, id, d.cmd, d.body, os).0;
      Deliver(w, d, os) == Work(Delete(SetSocket(st1, id, st1.sockets[id].(writable := false)), id), Unlink(w.writable, id))
  {
    var id := d.cid.id;
    var st1 := PushPkg(w.st, id, d.cmd, d.body, os).0;
    if !st1.sockets[id].writable {
      assert SetSocket(st1, id, st1.sockets[id].(writable := false)) == st1;
      UnlinkAbsent(w.writable, id);
    }
  }

  lemma DeliverDeletes(w: Work, d: Delivery, os: Os)
    requires WorkInv(w) && Live(w.st, d.cid) && PushPkg(w.st, d.cid.id, d.cmd, d.body, os).1 == Close
    ensures Removed(w.st, Deliver(w, d, os).st, d.cid.id)
    ensures Deliver(w, d, os).writable == Unlink(w.writable, d.cid.id)
  {
    var id := d.cid.id;
    PushPushes(w.st, id, d.cmd, d.body, os);
    DeletePushed(w.st, PushPkg(w.st, id, d.cmd, d.body, os).0, id);
    DeliverDeletesOnce(w, d, os);
  }

  /** The branch of the inner loop that keeps the socket marks it writable. */
  lemma DeliverMarks(w: Work, d: Delivery, os: Os)
    requires WorkInv(w) && Live(w.st, d.cid) && PushPkg(w.st, d.cid.id, d.cmd, d.body, os).1 != Close
    ensures var id := d.cid.id; var r := Deliver(w, d, os); var st1 := PushPkg(w.st, id, d.cmd, d.body, os).0;
      && Core(r.st) && r.st == SetSocket(st1, id, st1.sockets[id].(writable := true))
      && r.st.socketPool == w.st.socketPool && r.st.sockets == w.st.sockets[id := r.st.sockets[id]]
      && QueueOk(r.st.sockets[id]) && r.st.sockets[id].writable
      && r.writable == if w.st.sockets[id].writable then w.writable else w.writable + [id]
  {
    var id := d.cid.id;
    var st1 := PushPkg(w.st, id, d.cmd, d.body, os).0;
    PushPushes(w.st, id, d.cmd, d.body, os);
    CoreIgnoresQueues(st1, id, st1.sockets[id].(writable := true));
  }

  lemma DeliverKeeps(w: Work, d: Delivery, os: Os)
    requires WorkInv(w)
    ensures WorkInv(Deliver(w, d, os))
  {
    if Live(w.st, d.cid) {
      var id := d.cid.id;
      var r := Deliver(w, d, os);
      if PushPkg(w.st, id, d.cmd, d.body, os).1 == Close {
        DeliverDeletes(w, d, os);
        UnlinkDistinct(w.writable, id);
        QueuedWithout(w.st.socketPool.used, r.st.socketPool.used, w.st.sockets, r.st.sockets, w.writable, id);
      } else {
        DeliverMarks(w, d, os);
        QueuedWith(w.st.socketPool.used, w.st.sockets, w.writable, id, r.st.sockets[id]);
      }
    }
  }

  lemma {:induction false} DeliverAllAppend(w: Work, a: seq<Delivery>, b: seq<Delivery>, os: Os)
    requires WorkShape(w)
    ensures DeliverAll(w, a + b, os) == DeliverAll(DeliverAll(w, a, os), b, os)
    decreases |a|
  {
    if a == [] {
      assert a + b == b;
    } else {
      assert (a + b)[1..] == a[1..] + b;
      DeliverAllAppend(Deliver(w, a[0], os), a[1..], b, os);
    }
  }

  lemma {:induction false} DeliverAllKeeps(w: Work, ds: seq<Delivery>, os: Os)
    requires WorkInv(w)
    ensures WorkInv(DeliverAll(w, ds, os))
    decreases |ds|
  {
    if ds != [] {
      DeliverKeeps(w, ds[0], os);
      DeliverAllKeeps(Deliver(w, ds[0], os), ds[1..], os);
    }
  }

  /** One turn of the flush loop either removes the socket or leaves it with nothing queued. */
  lemma FlushOneOutcome(st: State, id: nat, os: Os)
    requires Core(st) && id < |st.sockets| && id in st.socketPool.used && QueueOk(st.sockets[id])
    ensures var r := FlushOne(st, id, os);
      && (Flush(st, id, os).1 == Close ==> Removed(st, r, id))
      && (Flush(st, id, os).1 != Close ==>
            && Core(r) && r.socketPool == st.socketPool && r.sockets == st.sockets[id := r.sockets[id]]
            && r.sockets[id].iov == [] && r.sockets[id].iovTotalSize == 0 && !r.sockets[id].writable)
  {
    var (st1, ret) := Flush(st, id, os);
    FlushKeeps(st, id, os);
    OnlyQueueKeepsCore(st, st1, id);
    var s := st1.sockets[id].(writable := false);
    CoreIgnoresQueues(st1, id, s);
    if ret == Close {
      DeleteFrame(SetSocket(st1, id, s), id);
    }
  }

  /** The flush loop takes exactly the head off the list of sockets still to be flushed. */
  lemma FlushOneKeeps(st: State, writable: seq<nat>, os: Os)
    requires WorkInv(Work(st, writable)) && writable != []
    ensures WorkInv(Work(FlushOne(st, writable[0], os), writable[1..]))
  {
    var id := writable[0];
    assert id in writable;
    var r := FlushOne(st, id, os);
    FlushOneOutcome(st, id, os);
    assert forall x :: x in writable <==> x == id || x in writable[1..];
    if Flush(st, id, os).1 == Close {
      QueuedWithout(st.socketPool.used, r.socketPool.used, st.sockets, r.sockets, writable, id);
      assert Unlink(writable, id) == writable[1..];
    }
  }

  lemma {:induction false} FlushAllKeeps(st: State, writable: seq<nat>, os: Os)
    requires WorkInv(Work(st, writable))
    ensures Inv(FlushAll(st, writable, os))
    decreases |writable|
  {
    if writable == [] {
      QuietIsWork(st);
    } else {
      FlushOneKeeps(st, writable, os);
      FlushAllKeeps(FlushOne(st, writable[0], os), writable[1..], os);
    }
  }

  /** process_input_tbus keeps the invariant. In particular, when it hands the bus memory back no live
      socket has an iov entry left that points into it, and none is marked writable. */
  lemma ProcessInputKeepsInv(st: State, batch: seq<Bytes>, os: Os)
    requires Inv(st)
    ensures Inv(ProcessInput(st, batch, os))
  {
    QuietIsWork(st);
    DeliverAllKeeps(Work(st, []), Deliveries(batch), os);
    var w := DeliverAll(Work(st, []), Deliveries(batch), os);
    FlushAllKeeps(w.st, w.writable, os);
  }

  // ----- receive -----

  lemma DeleteKeepsInv(st: State, id: nat)
    requires Inv(st) && id < |st.sockets| && id in st.socketPool.used
    ensures Inv(Delete(st, id)) && Removed(st, Delete(st, id), id)
  {
    DeleteFrame(st, id);
  }

  lemma TakeInKeepsInv(st: State, id: nat, chunk: Bytes)
    requires Inv(st) && id < |st.sockets| && id in st.socketPool.used
    ensures var r := TakeIn(st, id, chunk);
      Inv(r) && r.socketPool == st.socketPool && r.sockets == st.sockets[id := st.sockets[id].(packageBuff := None)]
  {
    var h := CidOf(st, id);
    var st1 := st.(received := st.received[h := At(st.received, h) + chunk]);
    CoreIgnoresRecords(st, st1);
    if st1.sockets[id].packageBuff.Some? {
      DropPackageKeepsCore(st1, id);
    }
  }

  lemma EmitKeepsInv(st: State, id: nat, buf: Bytes, pos: nat)
    requires Inv(st) && id < |st.sockets| && id in st.socketPool.used
    requires st.sockets[id].status == Established && st.sockets[id].packageBuff.None?
    requires pos <= |buf| && !P.Empty(st.packagePool)
    ensures var r := Emit(st, id, buf, pos); Inv(r) && r.socketPool == st.socketPool
  {
    if |buf| - pos > 0 {
      var st1 := CachePackage(st, id, buf[pos..]);
      CachePackageKeepsCore(st, id, buf[pos..]);
      assert Quiet(st1);
      CoreIgnoresRecords(st1, Emit(st, id, buf, pos));
    } else {
      CoreIgnoresRecords(st, Emit(st, id, buf, pos));
    }
  }

  /** tconnd_socket_recv, whatever it returns. The allocation for the tail never meets an empty pool: a pool
      with no free buffer was refused at the start, and freeing the socket's own buffer only adds one. */
  lemma RecvKeepsInv(st: State, id: nat, io: RecvIo)
    requires Inv(st) && id < |st.sockets| && id in st.socketPool.used && st.sockets[id].status == Established
    ensures var (st1, ret) := Recv(st, id, io);
      && Inv(st1) && st1.socketPool == st.socketPool
      && (ret == NotEnoughSpace || ret == NoMemory || ret == Errno ==> st1 == st)
  {
    var (st1, ret) := Recv(st, id, io);
    if io.busSpace >= REQ_SIZE + |Cached(st, id)| + 1 && !P.Empty(st.packagePool) && !io.outcome.Eagain? {
      var chunk := Received(io, |Cached(st, id)|);
      if chunk == [] {
        CoreIgnoresRecords(st, st1);
      } else {
        TakeInKeepsInv(st, id, chunk);
        var cut := F.CutFrom(Cached(st, id) + chunk, 0, st.config.packageSize);
        if ret == NoError {
          EmitKeepsInv(TakeIn(st, id, chunk), id, Cached(st, id) + chunk, cut.pos);
        }
      }
    }
  }

  /** A change of the readable flag and the readable list that agree with each other. */
  lemma ReadableKeepsInv(st: State, id: nat, flag: bool, list: seq<nat>)
    requires Inv(st) && id < |st.sockets| && Below(list, |st.sockets|)
    requires flag ==> st.sockets[id].status == Established
    requires ReadableOk(st.socketPool.used, st.sockets[id := st.sockets[id].(readable := flag)], list)
    ensures Inv(SetSocket(st, id, st.sockets[id].(readable := flag)).(readableList := list))
  {
    FlagKeepsOwners(st, id, flag);
    FlagKeepsLists(st, id, flag);
  }

  lemma FlagKeepsLists(st: State, id: nat, flag: bool)
    requires Inv(st) && id < |st.sockets| && (flag ==> st.sockets[id].status == Established)
    ensures var sockets := st.sockets[id := st.sockets[id].(readable := flag)];
      && StatusOk(st.socketPool.used, sockets) && PendingOk(st.socketPool.used, sockets, st.pendingList)
      && PackageOk(st.socketPool.used, sockets, st.packageList)
  {
  }

  lemma FlagKeepsOwners(st: State, id: nat, flag: bool)
    requires Core(st) && id < |st.sockets|
    ensures var sockets := st.sockets[id := st.sockets[id].(readable := flag)];
      && Owners(sockets, st.packageList, st.packagePool.used)
      && Sorted(Pending, sockets, st.pendingList, st.curTicks + st.config.acceptTicksLimit)
      && Sorted(Package, sockets, st.packageList, st.curTicks + st.config.packageTicksLimit)
  {
    var sockets := st.sockets[id := st.sockets[id].(readable := flag)];
    var pending, package := st.curTicks + st.config.acceptTicksLimit, st.curTicks + st.config.packageTicksLimit;
    SameDeadlinesSorted(Pending, st.sockets, sockets, st.pendingList, pending, pending);
    SameDeadlinesSorted(Package, st.sockets, sockets, st.packageList, package, package);
    assert forall x, b :: HoldsBuffer(sockets, x, b) <==> HoldsBuffer(st.sockets, x, b);
  }

  lemma StopReadingKeepsInv(st: State, id: nat)
    requires Inv(st) && id < |st.sockets|
    ensures Inv(StopReading(st, id))
  {
    UnlinkDistinct(st.readableList, id);
    StaysBelow(st.readableList, id, |st.sockets|);
    ReadableKeepsInv(st, id, false, Unlink(st.readableList, id));
  }

  lemma NotifyKeepsInv(st: State, id: nat)
    requires Inv(st) && Enabled(st, Readable(id))
    ensures Inv(Notify(st, id))
  {
    ReadableKeepsInv(st, id, true, st.readableList + [id]);
  }

  lemma EvictKeepsInv(st: State)
    requires Inv(st) && st.packageList != []
    ensures st.packageList[0] < |st.sockets| && Inv(Delete(st, st.packageList[0]))
  {
    assert st.packageList[0] in st.packageList;
    DeleteKeepsInv(st, st.packageList[0]);
  }

  lemma ReadableIsEstablished(st: State, id: nat)
    requires Core(st) && id < |st.sockets| && id in st.readableList
    ensures id in st.socketPool.used && st.sockets[id].status == Established
  {
  }

  lemma ServeKeepsInv(st: State, id: nat, io: RecvIo)
    requires Inv(st) && Enabled(st, Receive(id, io))
    ensures Inv(Serve(st, id, io))
  {
    var (st1, ret) := Recv(st, id, io);
    ReadableIsEstablished(st, id);
    RecvKeepsInv(st, id, io);
    match ret
    case Close => DeleteKeepsInv(st1, id);
    case NoMemory =>
      if st.packageList != [] {
        EvictKeepsInv(st);
      }
    case Errno => StopReadingKeepsInv(st1, id);
    case _ =>
  }

  // ----- timer -----

  /** The reference reading of a deadline: a live socket whose time is up, wherever it stands in the list. */
  ghost predicate Overdue(d: Deadline, st: State, id: nat) {
    && id < |st.sockets| && id in st.socketPool.used && Due(d, st.sockets[id]) <= st.curTicks
    && (if d.Pending? then st.sockets[id].status == SynSent else st.sockets[id].packageBuff.Some?)
  }

  lemma ListedOrNot(d: Deadline, st: State, id: nat)
    requires Core(st) && id < |st.sockets|
    ensures Overdue(d, st, id) <==> id in ListOf(d, st) && Due(d, st.sockets[id]) <= st.curTicks
  {
  }

  /** Deleting the head of a deadline list leaves the rest of that list, which is what the saved next
      pointer leads to, and decides nothing about any other socket. */
  lemma DeleteHead(d: Deadline, st: State)
    requires Inv(st) && ListOf(d, st) != []
    ensures var id := ListOf(d, st)[0]; var r := Delete(st, id);
      && id in st.socketPool.used && ListOf(d, r) == ListOf(d, st)[1..] && Inv(r) && Removed(st, r, id)
      && (forall x :: x != id ==> (Overdue(d, r, x) <==> Overdue(d, st, x)))
  {
    var id := ListOf(d, st)[0];
    assert id in ListOf(d, st);
    DeleteKeepsInv(st, id);
  }

  lemma HeadDecides(d: Deadline, st: State)
    requires Core(st)
    ensures var list := ListOf(d, st);
      if list == [] || Due(d, st.sockets[list[0]]) > st.curTicks then forall id :: !Overdue(d, st, id)
      else Overdue(d, st, list[0])
  {
    var list := ListOf(d, st);
    if list == [] || Due(d, st.sockets[list[0]]) > st.curTicks {
      forall id | Overdue(d, st, id) ensures false {
        ListedOrNot(d, st, id);
      }
    } else {
      assert list[0] in list;
      ListedOrNot(d, st, list[0]);
    }
  }

  /** What a scan of every socket for one deadline would do: a socket is gone if and only if it was overdue,
      and every other socket is as before. */
  ghost predicate Swept(d: Deadline, st: State, r: State) {
    && |r.sockets| == |st.sockets| && r.curTicks == st.curTicks && r.config == st.config
    && (forall id :: 0 <= id < |st.sockets| ==>
          (id in r.socketPool.used <==> id in st.socketPool.used && !Overdue(d, st, id)))
    && (forall id :: 0 <= id < |st.sockets| && id in r.socketPool.used ==> r.sockets[id] == st.sockets[id])
  }

  lemma SweptStep(d: Deadline, st: State, st1: State, r: State, id: nat)
    requires Removed(st, st1, id) && Overdue(d, st, id) && Swept(d, st1, r)
    requires forall x :: x != id ==> (Overdue(d, st1, x) <==> Overdue(d, st, x))
    ensures Swept(d, st, r)
  {
  }

  /** The loop that stops at the first unexpired entry deletes exactly what the full scan would. */
  lemma {:induction false} ExpireIsFullScan(d: Deadline, st: State)
    requires Inv(st)
    ensures Inv(Expire(d, st, ListOf(d, st))) && Swept(d, st, Expire(d, st, ListOf(d, st)))
    decreases |ListOf(d, st)|
  {
    HeadDecides(d, st);
    var list := ListOf(d, st);
    if list != [] && Due(d, st.sockets[list[0]]) <= st.curTicks {
      var st1 := Delete(st, list[0]);
      DeleteHead(d, st);
      ExpireIsFullScan(d, st1);
      SweptStep(d, st, st1, Expire(d, st1, ListOf(d, st1)), list[0]);
    }
  }

  lemma SweptTwice(st: State, st1: State, r: State)
    requires Core(st) && Swept(Pending, st, st1) && Swept(Package, st1, r)
    ensures forall id :: 0 <= id < |st.sockets| ==>
      (id in r.socketPool.used <==>
         id in st.socketPool.used && !Overdue(Pending, st, id) && !Overdue(Package, st, id))
    ensures forall id :: 0 <= id < |st.sockets| && id in r.socketPool.used ==> r.sockets[id] == st.sockets[id]
  {
  }

  /** tconnd_timer_process as a whole: gone are exactly the pending sockets nobody accepted in time and the
      holders of a package buffer that was not completed in time. */
  lemma TimerIsExact(st: State)
    requires Inv(st)
    ensures Inv(TimerProcess(st))
    ensures var r := TimerProcess(st);
      && r.curTicks == st.curTicks && r.config == st.config && |r.sockets| == |st.sockets|
      && (forall id :: 0 <= id < |st.sockets| ==>
            (id in r.socketPool.used <==>
               id in st.socketPool.used && !Overdue(Pending, st, id) && !Overdue(Package, st, id)))
      && (forall id :: 0 <= id < |st.sockets| && id in r.socketPool.used ==> r.sockets[id] == st.sockets[id])
  {
    ExpireIsFullScan(Pending, st);
    var st1 := Expire(Pending, st, st.pendingList);
    ExpireIsFullScan(Package, st1);
    SweptTwice(st, st1, TimerProcess(st));
  }

  // ----- runs -----

  lemma StartHasInv(config: Config)
    ensures Inv(Start(config))
  {
    P.InitPartitions(config.connections);
    P.InitPartitions(config.packageConnections);
  }

  lemma ApplyKeepsInv(st: State, step: Step)
    requires Inv(st) && Enabled(st, step)
    ensures Inv(Apply(st, step))
  {
    match step
    case Tick(c) =>
    case Accept(io) => ListenKeepsInv(st, io);
    case Readable(id) => NotifyKeepsInv(st, id);
    case Receive(id, io) => ServeKeepsInv(st, id, io);
    case Input(batch, os) => ProcessInputKeepsInv(st, batch, os);
    case Timer => TimerIsExact(st);
  }

  /** Calls on live sockets, in any order, keep the global invariant. Which runs of the main loop consist of such calls
      is the subject of TconndLoop. */
  lemma {:induction false} RunKeepsInv(st: State, steps: seq<Step>)
    requires Inv(st) && Run(st, steps).Some?
    ensures Inv(Run(st, steps).value)
    decreases |steps|
  {
    if steps != [] {
      ApplyKeepsInv(st, steps[0]);
      RunKeepsInv(Apply(st, steps[0]), steps[1..]);
    }
  }
}
