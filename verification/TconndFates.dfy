/**
 Who stays and who goes: the exact conditions, on what the state holds and what the operating system answers, under which
 a connection is admitted, survives a message addressed to it, and survives the flush at the end of the batch.
 */
module TconndFates {
  import opened Basics
  import opened Sip
  import opened TconndState
  import opened TconndOwnership
  import opened TconndSteps
  import P = MempoolSpec

  // ----- admission -----

  /** There is bus space for the connect message, a slot, a serial number, and a connection. */
  predicate Welcome(st: State, io: ListenIo) {
    io.accepted && io.busSpace >= REQ_SIZE && st.socketPool.unused != [] && st.socketPool.sn != P.INVALID_ID
  }

  /** Exactly then a connection is admitted: a live handle that was not live before, waiting to be accepted until its
      deadline, at the end of the pending list, announced on the bus. Otherwise nothing happens. */
  lemma AdmitsExactly(st: State, io: ListenIo)
    requires Core(st)
    ensures !Welcome(st, io) ==> Listen(st, io).0 == st
    ensures Welcome(st, io) ==>
      var r, h := Listen(st, io).0, Cid(st.socketPool.unused[0], st.socketPool.sn);
      && h.id < |st.sockets| && !Live(st, h) && Live(r, h)
      && (forall g :: g != h ==> (Live(r, g) <==> Live(st, g)))
      && r.sockets == st.sockets[h.id := Socket(
           SynSent, st.curTicks + st.config.acceptTicksLimit, 0, None, false, false, [], 0)]
      && r.pendingList == st.pendingList + [h.id] && r.outbox == st.outbox + [Req(CMD_CONNECT, h, [])]
      && r == st.(socketPool := r.socketPool, sockets := r.sockets, pendingList := r.pendingList, outbox := r.outbox)
  {
    if Welcome(st, io) {
      P.AllocPartitions(st.socketPool);
    }
  }

  /** What tconnd_listen answers, and so whether the pass over the readable list goes on. */
  lemma ListenAnswers(st: State, io: ListenIo)
    requires Shape(st)
    ensures Listen(st, io).1 ==
      if io.busSpace < REQ_SIZE then NotEnoughSpace
      else if st.socketPool.sn == P.INVALID_ID then Error
      else if st.socketPool.unused == [] then TooManySocket
      else if Welcome(st, io) then NoError
      else Errno
  {
  }

  /** tconnd_socket_new succeeds when tconnd_listen relies on it, and what it makes is what is admitted. */
  lemma AdmitsNew(st: State, io: ListenIo)
    requires Core(st)
    ensures New(st).1.None? <==> st.socketPool.unused == [] || st.socketPool.sn == P.INVALID_ID
    ensures New(st).1.None? ==> New(st).0 == st
    ensures Welcome(st, io) ==>
      var (made, id) := New(st); var r := Listen(st, io).0;
      && id == Some(st.socketPool.unused[0]) && made.socketPool == r.socketPool
      && made == st.(socketPool := made.socketPool, sockets := made.sockets)
      && r.sockets == made.sockets[id.value := made.sockets[id.value].(
           status := SynSent, pendingTicks := st.curTicks + st.config.acceptTicksLimit)]
  {
    if st.socketPool.unused != [] {
      P.AllocPartitions(st.socketPool);
    }
  }

  // ----- one message -----

  /** The queue of the socket takes the body as it is. */
  predicate Takes(s: Socket, body: Bytes) {
    |s.iov| < 128 && |Flatten(s.iov)| + |body| <= SSIZE_MAX
  }

  /** The next writev writes all that is queued for the socket, or nothing is. */
  predicate WritesOut(st: State, s: Socket, os: Os) {
    s.status == Established
    && (s.iov == [] || (os.writev(st.calls).Wrote? && os.writev(st.calls).n >= |Flatten(s.iov)|))
  }

  /** A message leaves its connection alive: a send that is not empty and not too long, whose body is queued at once or
      after everything queued before is written; or the accept of a waiting connection that epoll takes. A close ends
      it, and so does everything else. */
  predicate Survives(st: State, s: Socket, cmd: nat, body: Bytes, os: Os) {
    || (cmd == CMD_SEND && 0 < |body| <= SSIZE_MAX && (Takes(s, body) || WritesOut(st, s, os)))
    || (cmd == CMD_ACCEPT && s.status == SynSent && os.epollAdd(st.calls))
  }

  lemma FlushExactly(st: State, id: nat, os: Os)
    requires Shape(st) && id < |st.sockets| && QueueOk(st.sockets[id])
    ensures Flush(st, id, os).1 == NoError <==> WritesOut(st, st.sockets[id], os)
    ensures Flush(st, id, os).1 == NoError || Flush(st, id, os).1 == Close
    ensures Flush(st, id, os).0.sockets[id].status == st.sockets[id].status
  {
  }

  lemma SendExactly(st: State, id: nat, body: Bytes, os: Os)
    requires Shape(st) && id < |st.sockets| && QueueOk(st.sockets[id])
    ensures OnCmdSend(st, id, body, os).1 == Close <==>
      !(0 < |body| <= SSIZE_MAX && (Takes(st.sockets[id], body) || WritesOut(st, st.sockets[id], os)))
    ensures OnCmdSend(st, id, body, os).0.sockets[id].status == st.sockets[id].status
  {
    FlushExactly(st, id, os);
  }

  lemma PushExactly(st: State, id: nat, cmd: nat, body: Bytes, os: Os)
    requires Shape(st) && id < |st.sockets| && QueueOk(st.sockets[id])
    ensures var (r, ret) := PushPkg(st, id, cmd, body, os);
      && (ret != Close <==> Survives(st, st.sockets[id], cmd, body, os))
      && (ret != Close ==> r.sockets[id].status == if cmd == CMD_ACCEPT then Established else st.sockets[id].status)
  {
    SendExactly(st, id, body, os);
  }

  /** One message to one live connection: it stays if and only if the message lets it survive. An accept establishes it and
      takes it off the pending list; a message to a handle that is not live does nothing. */
  lemma DeliverExactly(w: Work, d: Delivery, os: Os)
    requires WorkInv(w)
    ensures !Live(w.st, d.cid) ==> Deliver(w, d, os) == w
    ensures Live(w.st, d.cid) ==> d.cid.id < |w.st.sockets|
    ensures Live(w.st, d.cid) ==>
      var r, s := Deliver(w, d, os), w.st.sockets[d.cid.id];
      && (Live(r.st, d.cid) <==> Survives(w.st, s, d.cmd, d.body, os))
      && (Live(r.st, d.cid) ==>
            && r.st.sockets[d.cid.id].status == (if d.cmd == CMD_ACCEPT then Established else s.status)
            && (d.cid.id in r.st.pendingList <==> r.st.sockets[d.cid.id].status == SynSent)
            && d.cid.id in r.writable)
  {
    if Live(w.st, d.cid) {
      LiveIsUsed(w.st, d.cid);
      PushExactly(w.st, d.cid.id, d.cmd, d.body, os);
      if Survives(w.st, w.st.sockets[d.cid.id], d.cmd, d.body, os) {
        DeliverMarks(w, d, os);
      } else {
        DeliverDeletes(w, d, os);
      }
    }
  }

  // ----- the flush at the end of the batch -----

  /** A connection stays if and only if it is established and all that is queued for it is written. */
  lemma FlushOneExactly(st: State, id: nat, os: Os)
    requires Core(st) && id < |st.sockets| && id in st.socketPool.used && QueueOk(st.sockets[id])
    ensures Live(FlushOne(st, id, os), CidOf(st, id)) <==> WritesOut(st, st.sockets[id], os)
  {
    LiveIsUsed(st, CidOf(st, id));
    FlushExactly(st, id, os);
    FlushOneOutcome(st, id, os);
  }

  // ----- connections the batch does not speak of -----

  lemma DeliverSpares(w: Work, d: Delivery, os: Os, h: Cid)
    requires WorkInv(w) && Live(w.st, h) && d.cid != h && h.id !in w.writable
    ensures var r := Deliver(w, d, os);
      h.id < |w.st.sockets| == |r.st.sockets| && Live(r.st, h) && h.id !in r.writable
      && r.st.sockets[h.id] == w.st.sockets[h.id]
  {
    LiveIsUsed(w.st, h);
    if Live(w.st, d.cid) {
      LiveIsUsed(w.st, d.cid);
      if PushPkg(w.st, d.cid.id, d.cmd, d.body, os).1 == Close {
        DeliverDeletes(w, d, os);
        UnlinkSubset(w.writable, d.cid.id);
      } else {
        DeliverMarks(w, d, os);
      }
    }
  }

  lemma {:induction false} DeliverAllSpares(w: Work, ds: seq<Delivery>, os: Os, h: Cid)
    requires WorkInv(w) && Live(w.st, h) && h.id !in w.writable && forall i :: 0 <= i < |ds| ==> ds[i].cid != h
    ensures var r := DeliverAll(w, ds, os);
      h.id < |w.st.sockets| == |r.st.sockets| && Live(r.st, h) && h.id !in r.writable
      && r.st.sockets[h.id] == w.st.sockets[h.id]
    decreases |ds|
  {
    if ds != [] {
      DeliverSpares(w, ds[0], os, h);
      DeliverKeeps(w, ds[0], os);
      DeliverAllSpares(Deliver(w, ds[0], os), ds[1..], os, h);
    } else {
      LiveIsUsed(w.st, h);
    }
  }

  lemma {:induction false} FlushAllSpares(st: State, writable: seq<nat>, os: Os, h: Cid)
    requires WorkInv(Work(st, writable)) && Live(st, h) && h.id !in writable
    ensures var r := FlushAll(st, writable, os);
      h.id < |st.sockets| == |r.sockets| && Live(r, h) && r.sockets[h.id] == st.sockets[h.id]
    decreases |writable|
  {
    LiveIsUsed(st, h);
    if writable != [] {
      FlushOneKeeps(st, writable, os);
      assert writable[0] in writable;
      FlushOneOutcome(st, writable[0], os);
      FlushAllSpares(FlushOne(st, writable[0], os), writable[1..], os, h);
    }
  }

  /** A connection that no message of the batch names is as it was, whatever happens to the others. */
  lemma BatchSpares(st: State, batch: seq<Bytes>, os: Os, h: Cid)
    requires Inv(st) && Live(st, h) && forall i :: 0 <= i < |Deliveries(batch)| ==> Deliveries(batch)[i].cid != h
    ensures var r := ProcessInput(st, batch, os);
      h.id < |st.sockets| == |r.sockets| && Live(r, h) && r.sockets[h.id] == st.sockets[h.id]
  {
    QuietIsWork(st);
    var w := DeliverAll(Work(st, []), Deliveries(batch), os);
    DeliverAllKeeps(Work(st, []), Deliveries(batch), os);
    DeliverAllSpares(Work(st, []), Deliveries(batch), os, h);
    FlushAllSpares(w.st, w.writable, os, h);
  }
}
