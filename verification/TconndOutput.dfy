/**
 Batched output preserves meaning. process_input_tbus queues pointers to the bodies of many messages and
 writes each socket once; these lemmas relate that to the plain reading, in which every send is written to
 every live addressee on the spot, in bus order.
 */
module TconndOutput {
  import opened Basics
  import opened Sip
  import opened TconndState
  import opened TconndOwnership
  import opened TconndSteps
  import P = MempoolSpec

  /** The plain reading: the bodies of all sends addressed to the handle, in order. */
  function Addressed(ds: seq<Delivery>, h: Cid): Bytes {
    if ds == [] then []
    else (if ds[0].cid == h && ds[0].cmd == CMD_SEND then ds[0].body else []) + Addressed(ds[1..], h)
  }

  /** Written to the socket so far. */
  function Wire(st: State, h: Cid): Bytes { At(st.sent, h) }

  /** Written or queued. */
  function Promised(st: State, h: Cid): Bytes
    requires Shape(st) && Live(st, h)
  {
    Wire(st, h) + Flatten(st.sockets[h.id].iov)
  }

  /** One step of the engine, seen from one handle, when the plain reading writes `delta` to it: a survivor
      has `delta` more written or queued; a socket that is deleted has been written some part of what it was
      promised; a dead handle is never written to and never comes back. */
  ghost predicate Advances(a: State, b: State, h: Cid, delta: Bytes) {
    && Shape(a) && Shape(b)
    && (Live(a, h) && Live(b, h) ==> Promised(b, h) == Promised(a, h) + delta)
    && (Live(a, h) && !Live(b, h) ==> Wire(a, h) <= Wire(b, h) <= Promised(a, h) + delta)
    && (!Live(a, h) ==> !Live(b, h) && Wire(b, h) == Wire(a, h))
    && (Live(b, h) ==> Wire(a, h) <= Wire(b, h))
  }

  lemma AdvancesTwice(a: State, b: State, c: State, h: Cid, delta1: Bytes, delta2: Bytes)
    requires Advances(a, b, h, delta1) && Advances(b, c, h, delta2)
    ensures Advances(a, c, h, delta1 + delta2)
  {
    if Live(a, h) {
      var p := Promised(a, h);
      ConcatAssociates(p, delta1, delta2);
      if !Live(b, h) {
        PrefixGrows(Wire(c, h), p + delta1, delta2);
      }
    }
  }

  lemma PrefixGrows(s: Bytes, t: Bytes, more: Bytes)
    requires s <= t
    ensures s <= t + more
  {
  }

  lemma FlattenNil()
    ensures Flatten<Byte>([]) == []
  {
  }

  /** A flush that succeeds writes everything queued; one that fails writes some prefix of it. Nobody else is
      written to. */
  lemma FlushWrites(st: State, id: nat, os: Os)
    requires Shape(st) && id < |st.sockets| && QueueOk(st.sockets[id])
    ensures var (st1, ret) := Flush(st, id, os); var h := CidOf(st, id); var queued := Flatten(st.sockets[id].iov);
      && st1.socketPool == st.socketPool && OnlyQueueOf(st, st1, id)
      && (forall g :: g != h ==> Wire(st1, g) == Wire(st, g))
      && (ret == NoError ==> Wire(st1, h) == Wire(st, h) + queued && st1.sockets[id].iov == [])
      && Wire(st, h) <= Wire(st1, h) <= Wire(st, h) + queued
  {
    FlushKeeps(st, id, os);
    var queued := Flatten(st.sockets[id].iov);
    assert queued[..|queued|] == queued;
  }

  /** tconnd_socket_on_cmd_send in terms of the socket's own promise. */
  lemma SendPromises(st: State, id: nat, body: Bytes, os: Os)
    requires Shape(st) && id < |st.sockets| && QueueOk(st.sockets[id])
    ensures var (st1, ret) := OnCmdSend(st, id, body, os); var h := CidOf(st, id);
      var promised := Wire(st, h) + Flatten(st.sockets[id].iov);
      && (forall g :: g != h ==> Wire(st1, g) == Wire(st, g))
      && (ret == NoError ==> Wire(st1, h) + Flatten(st1.sockets[id].iov) == promised + body)
      && Wire(st, h) <= Wire(st1, h) <= promised
  {
    FlushWrites(st, id, os);
    FlattenNil();
    var (st1, ret) := OnCmdSend(st, id, body, os);
    if ret == NoError {
      var s := st.sockets[id];
      var st0 := if |s.iov| >= IOV_MAX || s.iovTotalSize > SSIZE_MAX - |body| then Flush(st, id, os).0 else st;
      FlattenSnoc(st0.sockets[id].iov, body);
      ConcatAssociates(Wire(st0, CidOf(st, id)), Flatten(st0.sockets[id].iov), body);
    }
  }

  lemma AcceptWritesNothing(st: State, id: nat, os: Os)
    requires Shape(st) && id < |st.sockets|
    ensures var (st1, ret) := OnCmdAccept(st, id, os);
      st1.sent == st.sent && st1.sockets[id].iov == st.sockets[id].iov
  {
  }

  lemma PushPromises(st: State, id: nat, cmd: nat, body: Bytes, os: Os)
    requires Shape(st) && id < |st.sockets| && QueueOk(st.sockets[id])
    ensures var (st1, ret) := PushPkg(st, id, cmd, body, os); var h := CidOf(st, id);
      var promised := Wire(st, h) + Flatten(st.sockets[id].iov);
      && (forall g :: g != h ==> Wire(st1, g) == Wire(st, g))
      && (ret == NoError ==>
            Wire(st1, h) + Flatten(st1.sockets[id].iov) == promised + (if cmd == CMD_SEND then body else []))
      && Wire(st, h) <= Wire(st1, h) <= promised
  {
    if cmd == CMD_SEND {
      SendPromises(st, id, body, os);
    } else {
      var promised := Wire(st, CidOf(st, id)) + Flatten(st.sockets[id].iov);
      assert promised + [] == promised;
      if cmd == CMD_ACCEPT {
        AcceptWritesNothing(st, id, os);
      } else {
        FlushWrites(st, id, os);
      }
    }
  }

  lemma DeleteWritesNothing(st: State, id: nat)
    requires Shape(st) && id < |st.sockets|
    ensures Delete(st, id).sent == st.sent
  {
  }

  /** Whatever the loop body does after the push, it writes nothing more. */
  lemma DeliverWrites(w: Work, d: Delivery, os: Os)
    requires WorkShape(w) && Live(w.st, d.cid)
    ensures Deliver(w, d, os).st.sent == PushPkg(w.st, d.cid.id, d.cmd, d.body, os).0.sent
  {
    var id := d.cid.id;
    var st1 := PushPkg(w.st, id, d.cmd, d.body, os).0;
    DeleteWritesNothing(st1, id);
    DeleteWritesNothing(SetSocket(st1, id, st1.sockets[id].(writable := false)), id);
  }

  function Delta(d: Delivery, h: Cid): Bytes {
    if d.cid == h && d.cmd == CMD_SEND then d.body else []
  }

  /** What the loop body does to the pool and to the sockets in other slots. */
  ghost predicate Aside(a: State, b: State, id: nat) {
    && Shape(a) && Shape(b) && id < |a.sockets| == |b.sockets|
    && (b.socketPool.sns == a.socketPool.sns || b.socketPool.sns == a.socketPool.sns[id := P.INVALID_ID])
    && (forall x :: 0 <= x < |a.sockets| && x != id ==> b.sockets[x] == a.sockets[x])
  }

  lemma DeliverAside(w: Work, d: Delivery, os: Os)
    requires WorkInv(w) && Live(w.st, d.cid)
    ensures Aside(w.st, Deliver(w, d, os).st, d.cid.id)
  {
    if PushPkg(w.st, d.cid.id, d.cmd, d.body, os).1 == Close {
      DeliverDeletes(w, d, os);
    } else {
      DeliverMarks(w, d, os);
    }
  }

  lemma AsideAdvances(a: State, b: State, id: nat, h: Cid)
    requires Aside(a, b, id) && Live(a, CidOf(a, id)) && h != CidOf(a, id) && Wire(b, h) == Wire(a, h)
    ensures Advances(a, b, h, [])
  {
    if Live(a, h) {
      assert h.id != id;
      assert Promised(a, h) + [] == Promised(a, h);
    }
  }

  lemma DeliverToOther(w: Work, d: Delivery, os: Os, h: Cid)
    requires WorkInv(w) && Live(w.st, d.cid) && d.cid != h
    ensures Advances(w.st, Deliver(w, d, os).st, h, [])
  {
    LiveIsUsed(w.st, d.cid);
    PushPromises(w.st, d.cid.id, d.cmd, d.body, os);
    DeliverWrites(w, d, os);
    DeliverAside(w, d, os);
    AsideAdvances(w.st, Deliver(w, d, os).st, d.cid.id, h);
  }

  lemma DeliverToHandle(w: Work, d: Delivery, os: Os)
    requires WorkInv(w) && Live(w.st, d.cid)
    ensures Advances(w.st, Deliver(w, d, os).st, d.cid, Delta(d, d.cid))
  {
    LiveIsUsed(w.st, d.cid);
    if PushPkg(w.st, d.cid.id, d.cmd, d.body, os).1 == Close {
      DeliverCloses(w, d, os);
    } else {
      DeliverStays(w, d, os);
    }
  }

  lemma DeliverCloses(w: Work, d: Delivery, os: Os)
    requires WorkInv(w) && Live(w.st, d.cid) && QueueOk(w.st.sockets[d.cid.id])
    requires PushPkg(w.st, d.cid.id, d.cmd, d.body, os).1 == Close
    ensures Advances(w.st, Deliver(w, d, os).st, d.cid, Delta(d, d.cid))
  {
    PushPromises(w.st, d.cid.id, d.cmd, d.body, os);
    DeliverWrites(w, d, os);
    DeliverDeletes(w, d, os);
    PrefixGrows(Wire(Deliver(w, d, os).st, d.cid), Promised(w.st, d.cid), Delta(d, d.cid));
  }

  lemma DeliverStays(w: Work, d: Delivery, os: Os)
    requires WorkInv(w) && Live(w.st, d.cid) && QueueOk(w.st.sockets[d.cid.id])
    requires PushPkg(w.st, d.cid.id, d.cmd, d.body, os).1 != Close
    ensures Advances(w.st, Deliver(w, d, os).st, d.cid, Delta(d, d.cid))
  {
    var st1 := PushPkg(w.st, d.cid.id, d.cmd, d.body, os).0;
    PushPromises(w.st, d.cid.id, d.cmd, d.body, os);
    DeliverWrites(w, d, os);
    DeliverMarks(w, d, os);
    StaysAdvances(w.st, st1, Deliver(w, d, os).st, d.cid, Delta(d, d.cid));
  }

  /** The connection keeps its handle, and the marking leaves its queue alone. */
  lemma StaysAdvances(a: State, st1: State, b: State, h: Cid, delta: Bytes)
    requires Shape(a) && Shape(st1) && Shape(b) && Live(a, h) && h.id < |a.sockets| == |st1.sockets| == |b.sockets|
    requires b.socketPool == a.socketPool && b.sent == st1.sent && b.sockets[h.id].iov == st1.sockets[h.id].iov
    requires Wire(st1, h) + Flatten(st1.sockets[h.id].iov) == Wire(a, h) + Flatten(a.sockets[h.id].iov) + delta
    requires Wire(a, h) <= Wire(st1, h)
    ensures Advances(a, b, h, delta)
  {
  }

  lemma DeliverAdvances(w: Work, d: Delivery, os: Os, h: Cid)
    requires WorkInv(w)
    ensures Advances(w.st, Deliver(w, d, os).st, h, Delta(d, h))
  {
    if !Live(w.st, d.cid) {
      if Live(w.st, h) {
        assert Promised(w.st, h) + [] == Promised(w.st, h);
      }
    } else if d.cid == h {
      DeliverToHandle(w, d, os);
    } else {
      DeliverToOther(w, d, os, h);
    }
  }

  lemma {:induction false} DeliverAllAdvances(w: Work, ds: seq<Delivery>, os: Os, h: Cid)
    requires WorkInv(w)
    ensures Advances(w.st, DeliverAll(w, ds, os).st, h, Addressed(ds, h))
    decreases |ds|
  {
    if ds == [] {
      if Live(w.st, h) {
        assert Promised(w.st, h) + [] == Promised(w.st, h);
      }
    } else {
      var w1 := Deliver(w, ds[0], os);
      DeliverAdvances(w, ds[0], os, h);
      DeliverKeeps(w, ds[0], os);
      DeliverAllAdvances(w1, ds[1..], os, h);
      AdvancesTwice(w.st, w1.st, DeliverAll(w1, ds[1..], os).st, h, Delta(ds[0], h), Addressed(ds[1..], h));
    }
  }

  lemma FlushOneAdvances(st: State, id: nat, os: Os, h: Cid)
    requires Core(st) && id < |st.sockets| && id in st.socketPool.used && QueueOk(st.sockets[id])
    ensures Advances(st, FlushOne(st, id, os), h, [])
  {
    FlushOneWrites(st, id, os);
    FlushWrites(st, id, os);
    FlushOneOutcome(st, id, os);
    if h == CidOf(st, id) {
      FlushOneToHandle(st, id, os);
    } else {
      AsideAdvances(st, FlushOne(st, id, os), id, h);
    }
  }

  lemma FlushOneWrites(st: State, id: nat, os: Os)
    requires Shape(st) && id < |st.sockets|
    ensures FlushOne(st, id, os).sent == Flush(st, id, os).0.sent
  {
    var st1 := Flush(st, id, os).0;
    DeleteWritesNothing(SetSocket(st1, id, st1.sockets[id].(writable := false)), id);
  }

  lemma FlushOneToHandle(st: State, id: nat, os: Os)
    requires Core(st) && id < |st.sockets| && id in st.socketPool.used && QueueOk(st.sockets[id])
    ensures Advances(st, FlushOne(st, id, os), CidOf(st, id), [])
  {
    FlushOneWrites(st, id, os);
    FlushWrites(st, id, os);
    FlushOneOutcome(st, id, os);
    FlattenNil();
    assert Promised(st, CidOf(st, id)) + [] == Promised(st, CidOf(st, id));
  }

  lemma {:induction false} FlushAllAdvances(st: State, writable: seq<nat>, os: Os, h: Cid)
    requires WorkInv(Work(st, writable))
    ensures Advances(st, FlushAll(st, writable, os), h, [])
    decreases |writable|
  {
    if writable == [] {
      if Live(st, h) {
        assert Promised(st, h) + [] == Promised(st, h);
      }
    } else {
      assert writable[0] in writable;
      var st1 := FlushOne(st, writable[0], os);
      FlushOneKeeps(st, writable, os);
      FlushOneAdvances(st, writable[0], os, h);
      FlushAllAdvances(st1, writable[1..], os, h);
      AdvancesTwice(st, st1, FlushAll(st1, writable[1..], os), h, [], []);
    }
  }

  lemma ProcessInputAdvances(st: State, batch: seq<Bytes>, os: Os, h: Cid)
    requires Inv(st)
    ensures Advances(st, ProcessInput(st, batch, os), h, Addressed(Deliveries(batch), h))
  {
    var ds := Deliveries(batch);
    var w := DeliverAll(Work(st, []), ds, os);
    QuietIsWork(st);
    DeliverAllKeeps(Work(st, []), ds, os);
    DeliverAllAdvances(Work(st, []), ds, os, h);
    FlushAllAdvances(w.st, w.writable, os, h);
    AdvancesTwice(st, w.st, ProcessInput(st, batch, os), h, Addressed(ds, h), []);
    assert Addressed(ds, h) + [] == Addressed(ds, h);
  }

  /** Over one call of process_input_tbus and every sequence of writev and epoll_ctl results: a socket that
      survives has been written exactly the sends addressed to it, in bus order; one that was deleted has been
      written a prefix of them; a handle that was not live is not written to. */
  lemma BatchedOutput(st: State, batch: seq<Bytes>, os: Os, h: Cid)
    requires Inv(st)
    ensures var r := ProcessInput(st, batch, os); var asked := Addressed(Deliveries(batch), h);
      && (Live(r, h) ==> Live(st, h) && Wire(r, h) == Wire(st, h) + asked)
      && (Live(st, h) && !Live(r, h) ==> Wire(st, h) <= Wire(r, h) <= Wire(st, h) + asked)
      && (!Live(st, h) ==> Wire(r, h) == Wire(st, h))
  {
    var r := ProcessInput(st, batch, os);
    ProcessInputAdvances(st, batch, os, h);
    ProcessInputKeepsInv(st, batch, os);
    FlattenNil();
    if Live(st, h) {
      assert Promised(st, h) == Wire(st, h);
    }
    if Live(r, h) {
      assert Promised(r, h) == Wire(r, h);
    }
  }

  /** A malformed message and everything behind it in the batch are lost; what came before it is not. */
  lemma {:induction false} MalformedAbandonsRest(before: seq<Bytes>, bad: Bytes, after: seq<Bytes>)
    requires DecodeRsp(bad).Malformed?
    ensures Deliveries(before + [bad] + after) == Deliveries(before)
    decreases |before|
  {
    var batch := before + [bad] + after;
    if before == [] {
      assert batch[0] == bad;
    } else {
      assert batch[0] == before[0] && batch[1..] == before[1..] + [bad] + after;
      MalformedAbandonsRest(before[1..], bad, after);
    }
  }

  // ----- a close writes what was sent before it -----

  /** The kernel takes all the bytes offered by the next writev, or there is nothing to write. */
  predicate WritesAll(w: Work, id: nat, os: Os)
    requires Shape(w.st) && id < |w.st.sockets|
  {
    var queued := Flatten(w.st.sockets[id].iov);
    queued == [] || (os.writev(w.st.calls).Wrote? && os.writev(w.st.calls).n >= |queued|)
  }

  lemma FlushSucceeds(w: Work, id: nat, os: Os)
    requires Shape(w.st) && id < |w.st.sockets| && QueueOk(w.st.sockets[id])
    requires w.st.sockets[id].status == Established && WritesAll(w, id, os)
    ensures Flush(w.st, id, os).1 == NoError
  {
    var s := w.st.sockets[id];
    if s.iov != [] {
      assert |Flatten(s.iov)| == |s.iov[0]| + |Flatten(s.iov[1..])|;
    }
  }

  lemma DeliverInTheMiddle(w: Work, before: seq<Delivery>, d: Delivery, after: seq<Delivery>, os: Os)
    requires WorkShape(w)
    ensures DeliverAll(w, before + [d] + after, os) == DeliverAll(Deliver(DeliverAll(w, before, os), d, os), after, os)
  {
    DeliverAllAppend(w, before + [d], after, os);
    DeliverAllAppend(w, before, [d], os);
    assert [d][1..] == [];
  }

  /** When a close reaches an established socket and the write succeeds, everything sent to it earlier in the
      batch has been written, and nothing later in the call is. */
  lemma CloseWritesFirst(st: State, before: seq<Delivery>, d: Delivery, after: seq<Delivery>, os: Os)
    requires Inv(st) && Live(st, d.cid) && d.cmd == CMD_CLOSE
    requires var w := DeliverAll(Work(st, []), before, os);
      Live(w.st, d.cid) && w.st.sockets[d.cid.id].status == Established && WritesAll(w, d.cid.id, os)
    ensures var w := DeliverAll(Work(st, []), before + [d] + after, os); var r := FlushAll(w.st, w.writable, os);
      !Live(r, d.cid) && Wire(r, d.cid) == Wire(st, d.cid) + Addressed(before, d.cid)
  {
    var h := d.cid;
    var w0 := DeliverAll(Work(st, []), before, os);
    QuietIsWork(st);
    DeliverAllKeeps(Work(st, []), before, os);
    DeliverAllAdvances(Work(st, []), before, os, h);
    FlattenNil();
    assert Promised(st, h) == Wire(st, h);
    var w1 := Deliver(w0, d, os);
    CloseFlushes(w0, d, os);
    DeliverKeeps(w0, d, os);
    DeliverInTheMiddle(Work(st, []), before, d, after, os);
    var w := DeliverAll(w1, after, os);
    DeliverAllKeeps(w1, after, os);
    DeliverAllAdvances(w1, after, os, h);
    FlushAllAdvances(w.st, w.writable, os, h);
  }

  lemma CloseFlushes(w: Work, d: Delivery, os: Os)
    requires WorkInv(w) && Live(w.st, d.cid) && d.cmd == CMD_CLOSE
    requires w.st.sockets[d.cid.id].status == Established && WritesAll(w, d.cid.id, os)
    ensures var r := Deliver(w, d, os); !Live(r.st, d.cid) && Wire(r.st, d.cid) == Promised(w.st, d.cid)
  {
    var id := d.cid.id;
    FlushSucceeds(w, id, os);
    FlushWrites(w.st, id, os);
    DeliverDeletes(w, d, os);
    DeliverWrites(w, d, os);
  }
}
