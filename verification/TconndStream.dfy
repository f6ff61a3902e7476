/**
 The streams of the clients. Every call keeps, for every live connection: the bytes received are the data published
 for it followed by the tail cached for it; the published data are whole frames, the tail is an incomplete one. So
 what the server's application hears is exactly the complete frames of the stream, in order, however the stream was
 cut into chunks and whatever retries came between.
 */
module TconndStream {
  import opened Basics
  import opened Sip
  import opened TconndState
  import opened TconndOwnership
  import opened TconndSteps
  import F = Framing
  import P = MempoolSpec
  import A = Tconnapi

  function StreamOf(st: State, h: Cid): Bytes { At(st.received, h) }

  /** The messages about one connection, in order. */
  function About(msgs: seq<Req>, h: Cid): seq<Req> {
    if msgs == [] then [] else (if msgs[0].cid == h then [msgs[0]] else []) + About(msgs[1..], h)
  }

  lemma {:induction false} AboutSnoc(msgs: seq<Req>, m: Req, h: Cid)
    ensures About(msgs + [m], h) == About(msgs, h) + if m.cid == h then [m] else []
  {
    if msgs == [] {
      assert msgs + [m] == [m];
      assert [m][1..] == [];
    } else {
      assert (msgs + [m])[1..] == msgs[1..] + [m];
      AboutSnoc(msgs[1..], m, h);
    }
  }

  /** A connect, then data messages, none of size zero. */
  ghost predicate Talking(ms: seq<Req>) {
    |ms| > 0 && ms[0].cmd == CMD_CONNECT
    && forall i :: 0 < i < |ms| ==> ms[i].cmd == CMD_RECV && ms[i].payload != []
  }

  /** The same, possibly ended by the close marker, the data message of size zero. */
  ghost predicate Conversation(ms: seq<Req>) {
    || Talking(ms)
    || (|ms| > 1 && Talking(ms[..|ms| - 1]) && ms[|ms| - 1].cmd == CMD_RECV && ms[|ms| - 1].payload == [])
  }

  /** Nothing has been recorded for a handle that was not issued yet. */
  ghost predicate Unissued(st: State) {
    && (forall h :: h in st.received ==> h.sn < st.socketPool.sn)
    && (forall i :: 0 <= i < |st.outbox| ==> st.outbox[i].cid.sn < st.socketPool.sn)
  }

  ghost predicate Told(st: State, h: Cid) {
    && (Live(st, h) ==> Talking(About(st.outbox, h)))
    && (About(st.outbox, h) == [] || Conversation(About(st.outbox, h)))
  }

  ghost predicate Conserved(st: State, h: Cid)
    requires Shape(st)
  {
    && (Live(st, h) ==>
          && StreamOf(st, h) == A.DataOf(st.outbox, h) + Cached(st, h.id)
          && F.Incomplete(Cached(st, h.id)))
    && A.DataOf(st.outbox, h) <= StreamOf(st, h)
  }

  ghost predicate StreamInv(st: State) {
    && Shape(st) && Unissued(st)
    && st.config.connections <= UINT32_MAX && |st.sockets| == st.config.connections
    && (forall i :: 0 <= i < |st.outbox| ==> A.MessageOk(st.outbox[i]))
    && (forall h :: Told(st, h) && Conserved(st, h))
  }

  // ----- steps that neither receive nor publish -----

  /** Some sockets may be gone; nothing was received, published or cached. */
  ghost predicate Shrinks(a: State, b: State) {
    && Shape(a) && Shape(b) && |a.sockets| == |b.sockets| && a.config == b.config
    && a.outbox == b.outbox && a.received == b.received && a.buffs == b.buffs
    && a.socketPool.sn == b.socketPool.sn
    && (forall h :: Live(b, h) ==>
          && Live(a, h)
          && b.sockets[h.id].packageBuff == a.sockets[h.id].packageBuff
          && b.sockets[h.id].packageTicks == a.sockets[h.id].packageTicks)
  }

  lemma ShrinksKeeps(a: State, b: State)
    requires StreamInv(a) && Shrinks(a, b)
    ensures StreamInv(b)
  {
    forall h ensures Told(b, h) && Conserved(b, h) {
      assert Told(a, h) && Conserved(a, h);
    }
  }

  lemma ShrinksTwice(a: State, b: State, c: State)
    requires Shrinks(a, b) && Shrinks(b, c)
    ensures Shrinks(a, c)
  {
  }

  lemma FlushRecords(st: State, id: nat, os: Os)
    requires Shape(st) && id < |st.sockets|
    ensures var st1 := Flush(st, id, os).0;
      && st1.outbox == st.outbox && st1.received == st.received && st1.buffs == st.buffs
      && st1.socketPool == st.socketPool && st1.config == st.config
      && st1.sockets == st.sockets[id := st1.sockets[id]]
      && st1.sockets[id].packageBuff == st.sockets[id].packageBuff
      && st1.sockets[id].packageTicks == st.sockets[id].packageTicks
  {
  }

  lemma PushRecords(st: State, id: nat, cmd: nat, body: Bytes, os: Os)
    requires Shape(st) && id < |st.sockets|
    ensures var st1 := PushPkg(st, id, cmd, body, os).0;
      && st1.outbox == st.outbox && st1.received == st.received && st1.buffs == st.buffs
      && st1.socketPool == st.socketPool && st1.config == st.config
      && st1.sockets == st.sockets[id := st1.sockets[id]]
      && st1.sockets[id].packageBuff == st.sockets[id].packageBuff
      && st1.sockets[id].packageTicks == st.sockets[id].packageTicks
  {
    FlushRecords(st, id, os);
  }

  lemma DeleteRecords(st: State, id: nat)
    requires Shape(st) && id < |st.sockets|
    ensures var st1 := Delete(st, id);
      && st1.outbox == st.outbox && st1.received == st.received && st1.buffs == st.buffs && st1.config == st.config
      && st1.socketPool.sns == st.socketPool.sns[id := P.INVALID_ID] && st1.socketPool.sn == st.socketPool.sn
      && |st1.sockets| == |st.sockets|
      && (forall x :: 0 <= x < |st.sockets| && x != id ==> st1.sockets[x] == st.sockets[x])
  {
  }

  lemma DeleteShrinks(st: State, id: nat)
    requires Shape(st) && id < |st.sockets|
    ensures Shrinks(st, Delete(st, id))
  {
    DeleteRecords(st, id);
  }

  lemma DeliverShrinks(w: Work, d: Delivery, os: Os)
    requires WorkShape(w)
    ensures Shrinks(w.st, Deliver(w, d, os).st)
  {
    if Live(w.st, d.cid) {
      var id := d.cid.id;
      var st1 := PushPkg(w.st, id, d.cmd, d.body, os).0;
      PushRecords(w.st, id, d.cmd, d.body, os);
      DeleteRecords(st1, id);
      DeleteRecords(SetSocket(st1, id, st1.sockets[id].(writable := false)), id);
    }
  }

  lemma {:induction false} DeliverAllShrinks(w: Work, ds: seq<Delivery>, os: Os)
    requires WorkShape(w)
    ensures Shrinks(w.st, DeliverAll(w, ds, os).st)
    decreases |ds|
  {
    if ds != [] {
      var w1 := Deliver(w, ds[0], os);
      DeliverShrinks(w, ds[0], os);
      DeliverAllShrinks(w1, ds[1..], os);
      ShrinksTwice(w.st, w1.st, DeliverAll(w1, ds[1..], os).st);
    }
  }

  lemma FlushOneShrinks(st: State, id: nat, os: Os)
    requires Shape(st) && id < |st.sockets|
    ensures Shrinks(st, FlushOne(st, id, os))
  {
    FlushRecords(st, id, os);
    var st1 := Flush(st, id, os).0;
    DeleteRecords(SetSocket(st1, id, st1.sockets[id].(writable := false)), id);
  }

  lemma {:induction false} FlushAllShrinks(st: State, writable: seq<nat>, os: Os)
    requires Shape(st) && Below(writable, |st.sockets|)
    ensures Shrinks(st, FlushAll(st, writable, os))
    decreases |writable|
  {
    if writable != [] {
      var st1 := FlushOne(st, writable[0], os);
      FlushOneShrinks(st, writable[0], os);
      FlushAllShrinks(st1, writable[1..], os);
      ShrinksTwice(st, st1, FlushAll(st1, writable[1..], os));
    }
  }

  lemma {:induction false} ExpireShrinks(d: Deadline, st: State, rest: seq<nat>)
    requires Shape(st) && Below(rest, |st.sockets|)
    ensures Shrinks(st, Expire(d, st, rest))
    decreases |rest|
  {
    if rest != [] && Due(d, st.sockets[rest[0]]) <= st.curTicks {
      var st1 := Delete(st, rest[0]);
      DeleteRecords(st, rest[0]);
      ExpireShrinks(d, st1, rest[1..]);
      ShrinksTwice(st, st1, Expire(d, st1, rest[1..]));
    }
  }

  lemma ProcessInputShrinks(st: State, batch: seq<Bytes>, os: Os)
    requires Shape(st)
    ensures Shrinks(st, ProcessInput(st, batch, os))
  {
    var w := DeliverAll(Work(st, []), Deliveries(batch), os);
    DeliverAllShrinks(Work(st, []), Deliveries(batch), os);
    FlushAllShrinks(w.st, w.writable, os);
    ShrinksTwice(st, w.st, ProcessInput(st, batch, os));
  }

  lemma TimerShrinks(st: State)
    requires Shape(st)
    ensures Shrinks(st, TimerProcess(st))
  {
    var st1 := Expire(Pending, st, st.pendingList);
    ExpireShrinks(Pending, st, st.pendingList);
    ExpireShrinks(Package, st1, st1.packageList);
    ShrinksTwice(st, st1, TimerProcess(st));
  }

  // ----- accepting a connection -----

  lemma {:induction false} NothingAbout(msgs: seq<Req>, h: Cid)
    requires forall i :: 0 <= i < |msgs| ==> msgs[i].cid != h
    ensures About(msgs, h) == [] && A.DataOf(msgs, h) == []
  {
    if msgs != [] {
      NothingAbout(msgs[1..], h);
    }
  }

  /** A new connection has a handle that nobody had before, and holds nothing. */
  lemma AdmitIsFresh(st: State)
    requires PoolsOk(st) && !P.Empty(st.socketPool) && !P.Over(st.socketPool)
    ensures var joined := Cid(st.socketPool.unused[0], st.socketPool.sn); var st1 := Admit(st);
      && joined.id < |st.sockets| && !Live(st, joined) && CidOf(st1, joined.id) == joined
      && st1.socketPool.sn == st.socketPool.sn + 1 && st1.buffs == st.buffs
      && Live(st1, joined) && Cached(st1, joined.id) == []
      && (forall h :: h != joined && Live(st1, h) ==> Live(st, h) && Cached(st1, h.id) == Cached(st, h.id))
  {
    P.AllocPartitions(st.socketPool);
    P.AllocStamps(st.socketPool);
  }

  lemma JoinTold(st: State, st1: State, joined: Cid, h: Cid)
    requires Told(st, h) && st1.outbox == st.outbox + [Req(CMD_CONNECT, joined, [])]
    requires About(st.outbox, joined) == [] && (h != joined && Live(st1, h) ==> Live(st, h))
    ensures Told(st1, h)
  {
    AboutSnoc(st.outbox, Req(CMD_CONNECT, joined, []), h);
  }

  lemma JoinConserved(st: State, st1: State, joined: Cid, h: Cid)
    requires Shape(st) && Shape(st1) && Conserved(st, h)
    requires st1.outbox == st.outbox + [Req(CMD_CONNECT, joined, [])] && st1.received == st.received
    requires A.DataOf(st.outbox, joined) == [] && joined !in st.received
    requires Live(st1, joined) ==> Cached(st1, joined.id) == []
    requires h != joined && Live(st1, h) ==> Live(st, h) && Cached(st1, h.id) == Cached(st, h.id)
    ensures Conserved(st1, h)
  {
    A.DataOfSnoc(st.outbox, Req(CMD_CONNECT, joined, []), h);
    assert A.DataOf(st.outbox, h) + [] == A.DataOf(st.outbox, h);
  }

  ghost predicate Joins(a: State, b: State, joined: Cid) {
    && Shape(a) && Shape(b) && |a.sockets| == |b.sockets| && a.config == b.config
    && b.received == a.received && b.outbox == a.outbox + [Req(CMD_CONNECT, joined, [])]
    && joined.id < |a.sockets| && joined.sn == a.socketPool.sn < UINT64_MAX && b.socketPool.sn == a.socketPool.sn + 1
    && (Live(b, joined) ==> Cached(b, joined.id) == [])
    && (forall h :: h != joined && Live(b, h) ==> Live(a, h) && Cached(b, h.id) == Cached(a, h.id))
  }

  lemma ListenJoins(st: State, io: ListenIo)
    requires PoolsOk(st) && Listen(st, io).1 == NoError
    ensures Joins(st, Listen(st, io).0, Cid(st.socketPool.unused[0], st.socketPool.sn))
  {
    AdmitIsFresh(st);
  }

  lemma JoinKeepsStream(a: State, b: State, joined: Cid)
    requires StreamInv(a) && Joins(a, b, joined)
    ensures StreamInv(b)
  {
    NothingAbout(a.outbox, joined);
    forall h ensures Told(b, h) && Conserved(b, h) {
      assert Told(a, h) && Conserved(a, h);
      JoinTold(a, b, joined, h);
      JoinConserved(a, b, joined, h);
    }
    assert A.MessageOk(Req(CMD_CONNECT, joined, []));
  }

  lemma ListenKeepsStream(st: State, io: ListenIo)
    requires PoolsOk(st) && StreamInv(st)
    ensures StreamInv(Listen(st, io).0)
  {
    if Listen(st, io).1 == NoError {
      ListenJoins(st, io);
      JoinKeepsStream(st, Listen(st, io).0, Cid(st.socketPool.unused[0], st.socketPool.sn));
    }
  }

  // ----- receiving -----

  /** What one call of recv leaves for the connection it served: the held bytes and the chunk are split into
      published data and a new tail. Everybody else is untouched. */
  ghost predicate Served(a: State, b: State, id: nat, chunk: Bytes, data: Bytes, tail: Bytes) {
    && Shape(a) && Shape(b) && id < |a.sockets| == |b.sockets| && a.config == b.config
    && b.socketPool == a.socketPool
    && b.received == a.received[CidOf(a, id) := StreamOf(a, CidOf(a, id)) + chunk]
    && b.outbox == a.outbox + (if data == [] then [] else [Req(CMD_RECV, CidOf(a, id), data)])
    && Cached(b, id) == tail
    && (forall x :: 0 <= x < |a.sockets| && x in a.socketPool.used && x != id ==> Cached(b, x) == Cached(a, x))
  }

  lemma PublishTold(st: State, st1: State, m: Req, h: Cid)
    requires Told(st, h) && m.cmd == CMD_RECV && Live(st, m.cid)
    requires st1.outbox == st.outbox + [m] && (Live(st1, h) ==> Live(st, h))
    requires m.payload == [] ==> !Live(st1, m.cid)
    ensures Told(st1, h)
  {
    AboutSnoc(st.outbox, m, h);
    if m.cid == h {
      var ms := About(st.outbox, h);
      assert (ms + [m])[..|ms|] == ms;
    }
  }

  lemma ServedTold(a: State, b: State, id: nat, chunk: Bytes, data: Bytes, tail: Bytes, h: Cid)
    requires PoolsOk(a) && id < |a.sockets| && id in a.socketPool.used && Told(a, h)
    requires Served(a, b, id, chunk, data, tail)
    ensures Told(b, h)
  {
    LiveIsUsed(a, CidOf(a, id));
    if data == [] {
      assert b.outbox == a.outbox;
    } else {
      PublishTold(a, b, Req(CMD_RECV, CidOf(a, id), data), h);
    }
  }

  lemma ServedConserved(a: State, b: State, id: nat, chunk: Bytes, data: Bytes, tail: Bytes, h: Cid)
    requires PoolsOk(a) && id < |a.sockets| && id in a.socketPool.used && Conserved(a, h)
    requires Served(a, b, id, chunk, data, tail)
    requires data + tail == Cached(a, id) + chunk && F.Incomplete(tail)
    ensures Conserved(b, h)
  {
    var before := A.DataOf(a.outbox, h);
    LiveIsUsed(a, CidOf(a, id));
    LiveIsUsed(a, h);
    ServedConserves(before, Cached(a, id), chunk, data, tail);
    if data == [] {
      assert b.outbox == a.outbox;
    } else {
      A.DataOfSnoc(a.outbox, Req(CMD_RECV, CidOf(a, id), data), h);
    }
    assert A.DataOf(b.outbox, h) == if h == CidOf(a, id) then before + data else before;
  }

  lemma ServedKeepsStream(a: State, b: State, id: nat, chunk: Bytes, data: Bytes, tail: Bytes)
    requires PoolsOk(a) && StreamInv(a) && id in a.socketPool.used
    requires Served(a, b, id, chunk, data, tail)
    requires data + tail == Cached(a, id) + chunk && F.Whole(data) && F.Incomplete(tail)
    requires |data| <= UINT32_MAX
    ensures StreamInv(b)
  {
    LiveIsUsed(a, CidOf(a, id));
    forall h ensures Told(b, h) && Conserved(b, h) {
      assert Told(a, h) && Conserved(a, h);
      ServedTold(a, b, id, chunk, data, tail, h);
      ServedConserved(a, b, id, chunk, data, tail, h);
    }
    assert A.MessageOk(Req(CMD_RECV, CidOf(a, id), data));
  }

  lemma ServedConserves(before: Bytes, held: Bytes, chunk: Bytes, data: Bytes, tail: Bytes)
    requires data + tail == held + chunk
    ensures (before + held) + chunk == (before + data) + tail
    ensures before + [] == before
  {
    ConcatAssociates(before, held, chunk);
    ConcatAssociates(before, data, tail);
  }

  lemma TakeInRecords(st: State, id: nat, chunk: Bytes)
    requires Shape(st) && id < |st.sockets|
    ensures var st1 := TakeIn(st, id, chunk); var h := CidOf(st, id);
      && st1.socketPool == st.socketPool && st1.outbox == st.outbox && st1.buffs == st.buffs
      && st1.received == st.received[h := StreamOf(st, h) + chunk]
      && st1.sockets == st.sockets[id := st.sockets[id].(packageBuff := None)]
  {
  }

  lemma EmitRecords(st: State, id: nat, buf: Bytes, pos: nat)
    requires Shape(st) && id < |st.sockets| && pos <= |buf| && !P.Empty(st.packagePool)
    requires st.sockets[id].packageBuff.None?
    ensures var st1 := Emit(st, id, buf, pos); var b := st.packagePool.unused[0];
      && st1.socketPool == st.socketPool && st1.received == st.received && st1.config == st.config
      && |st1.sockets| == |st.sockets|
      && st1.outbox == st.outbox + (if pos == 0 then [] else [Req(CMD_RECV, CidOf(st, id), buf[..pos])])
      && Cached(st1, id) == buf[pos..]
      && (forall x :: 0 <= x < |st.sockets| && x != id && st.sockets[x].packageBuff != Some(b) ==>
            Cached(st1, x) == Cached(st, x))
  {
  }

  /** A free buffer is held by nobody. */
  lemma FreeIsNotHeld(st: State, x: nat)
    requires Core(st) && !P.Empty(st.packagePool) && x < |st.sockets| && x in st.socketPool.used
    ensures st.sockets[x].packageBuff != Some(st.packagePool.unused[0])
  {
    P.AllocPartitions(st.packagePool);
    if st.sockets[x].packageBuff.Some? {
      assert x in st.packageList && HoldsBuffer(st.sockets, x, st.sockets[x].packageBuff.value);
    }
  }

  /** No other live socket's cached bytes change when a buffer is taken for a tail or given back. */
  lemma EmitServes(st: State, id: nat, chunk: Bytes, buf: Bytes, pos: nat)
    requires Inv(st) && id < |st.sockets| && id in st.socketPool.used
    requires !P.Empty(st.packagePool) && pos <= |buf|
    ensures Served(st, Emit(TakeIn(st, id, chunk), id, buf, pos), id, chunk, buf[..pos], buf[pos..])
  {
    var st1 := TakeIn(st, id, chunk);
    TakeInKeepsInv(st, id, chunk);
    TakeInRecords(st, id, chunk);
    EmitRecords(st1, id, buf, pos);
    forall x | 0 <= x < |st.sockets| && x in st.socketPool.used && x != id
      ensures st1.sockets[x].packageBuff != Some(st1.packagePool.unused[0]) && Cached(st1, x) == Cached(st, x)
    {
      FreeIsNotHeld(st1, x);
    }
  }

  lemma RecvEmits(st: State, id: nat, io: RecvIo)
    requires Shape(st) && id < |st.sockets| && Recv(st, id, io).1 == NoError
    ensures io.busSpace >= REQ_SIZE + |Cached(st, id)| && !P.Empty(st.packagePool)
    ensures var chunk := Received(io, |Cached(st, id)|); var buf := Cached(st, id) + chunk;
      var cut := F.CutFrom(buf, 0, st.config.packageSize);
      && |buf| <= io.busSpace && cut.CutAt? && Recv(st, id, io).0 == Emit(TakeIn(st, id, chunk), id, buf, cut.pos)
  {
  }

  lemma ServeData(st: State, id: nat, io: RecvIo)
    requires Inv(st) && StreamInv(st) && id < |st.sockets| && id in st.socketPool.used
    requires io.busSpace <= UINT32_MAX && Recv(st, id, io).1 == NoError
    ensures StreamInv(Recv(st, id, io).0)
  {
    RecvEmits(st, id, io);
    var chunk := Received(io, |Cached(st, id)|);
    var buf := Cached(st, id) + chunk;
    var pos := F.CutFrom(buf, 0, st.config.packageSize).pos;
    F.CutSeparates(buf, st.config.packageSize);
    EmitServes(st, id, chunk, buf, pos);
    ServedKeepsStream(st, Recv(st, id, io).0, id, chunk, buf[..pos], buf[pos..]);
  }

  /** A refused stream: its bytes are counted as received, none of this call's are published, and the socket
      is deleted. */
  lemma ServeRefusal(st: State, id: nat, chunk: Bytes)
    requires PoolsOk(st) && StreamInv(st) && id < |st.sockets| && id in st.socketPool.used
    ensures StreamInv(Delete(TakeIn(st, id, chunk), id))
  {
    var st1 := TakeIn(st, id, chunk);
    var st2 := Delete(st1, id);
    TakeInRecords(st, id, chunk);
    DeleteRecords(st1, id);
    LiveIsUsed(st, CidOf(st, id));
    forall h ensures Told(st2, h) && Conserved(st2, h) {
      assert Told(st, h) && Conserved(st, h);
      RefusalFor(st, st2, id, h);
    }
  }

  /** The socket is gone, and what it was sent before is all that was published of it. */
  lemma RefusalFor(st: State, st2: State, id: nat, h: Cid)
    requires Shape(st) && Shape(st2) && id < |st.sockets| == |st2.sockets| && Told(st, h) && Conserved(st, h)
    requires st2.outbox == st.outbox && st2.buffs == st.buffs
    requires st2.socketPool.sns == st.socketPool.sns[id := P.INVALID_ID]
    requires forall x :: 0 <= x < |st.sockets| && x != id ==> st2.sockets[x] == st.sockets[x]
    requires forall g :: g != CidOf(st, id) ==> StreamOf(st2, g) == StreamOf(st, g)
    requires StreamOf(st, CidOf(st, id)) <= StreamOf(st2, CidOf(st, id))
    requires Live(st, CidOf(st, id))
    ensures Told(st2, h) && Conserved(st2, h)
  {
    if Live(st2, h) {
      assert h.id != id;
    }
  }

  lemma EndConserved(st: State, st2: State, m: Req, h: Cid)
    requires Shape(st) && Shape(st2) && Conserved(st, h) && m.payload == []
    requires st2.outbox == st.outbox + [m] && st2.received == st.received
    requires Live(st2, h) ==> Live(st, h) && Cached(st2, h.id) == Cached(st, h.id)
    ensures Conserved(st2, h)
  {
    A.DataOfSnoc(st.outbox, m, h);
    assert A.DataOf(st.outbox, h) + [] == A.DataOf(st.outbox, h);
  }

  /** The peer closed: the close marker is published and the socket deleted. */
  lemma ServeEnd(st: State, id: nat)
    requires PoolsOk(st) && StreamInv(st) && id < |st.sockets| && id in st.socketPool.used
    ensures StreamInv(Delete(Publish(st, id, CMD_RECV, []), id))
  {
    var st1 := Publish(st, id, CMD_RECV, []);
    var st2 := Delete(st1, id);
    var m := Req(CMD_RECV, CidOf(st, id), []);
    DeleteRecords(st1, id);
    LiveIsUsed(st, CidOf(st, id));
    forall h ensures Told(st2, h) && Conserved(st2, h) {
      assert Told(st, h) && Conserved(st, h);
      PublishTold(st, st2, m, h);
      EndConserved(st, st2, m, h);
    }
    assert A.MessageOk(m);
  }

  lemma ServeClose(st: State, id: nat, io: RecvIo)
    requires Inv(st) && StreamInv(st) && id < |st.sockets| && id in st.socketPool.used
    requires Recv(st, id, io).1 == Close
    ensures StreamInv(Delete(Recv(st, id, io).0, id))
  {
    var chunk := Received(io, |Cached(st, id)|);
    if chunk == [] {
      ServeEnd(st, id);
    } else {
      ServeRefusal(st, id, chunk);
    }
  }

  lemma RetriesChangeNothing(st: State, id: nat, io: RecvIo)
    requires Shape(st) && id < |st.sockets| && Recv(st, id, io).1 != NoError && Recv(st, id, io).1 != Close
    ensures Recv(st, id, io).0 == st
  {
  }

  lemma ServeKeepsStream(st: State, id: nat, io: RecvIo)
    requires Inv(st) && StreamInv(st) && Enabled(st, Receive(id, io))
    ensures StreamInv(Serve(st, id, io))
  {
    ReadableIsEstablished(st, id);
    if Recv(st, id, io).1 == NoError {
      ServeData(st, id, io);
    } else if Recv(st, id, io).1 == Close {
      ServeClose(st, id, io);
    } else {
      RetryShrinks(st, id, io);
      ShrinksKeeps(st, Serve(st, id, io));
    }
  }

  lemma RetryShrinks(st: State, id: nat, io: RecvIo)
    requires Shape(st) && id < |st.sockets| && Recv(st, id, io).1 != NoError && Recv(st, id, io).1 != Close
    ensures Shrinks(st, Serve(st, id, io))
  {
    RetriesChangeNothing(st, id, io);
    if Recv(st, id, io).1 == NoMemory && st.packageList != [] {
      DeleteShrinks(st, st.packageList[0]);
    }
  }

  // ----- runs -----

  lemma ApplyKeepsStream(st: State, step: Step)
    requires Inv(st) && StreamInv(st) && Enabled(st, step)
    ensures StreamInv(Apply(st, step))
  {
    match step
    case Tick(c) => ShrinksKeeps(st, Apply(st, step));
    case Accept(io) => ListenKeepsStream(st, io);
    case Readable(id) => ShrinksKeeps(st, Notify(st, id));
    case Receive(id, io) => ServeKeepsStream(st, id, io);
    case Input(batch, os) =>
      ProcessInputShrinks(st, batch, os);
      ShrinksKeeps(st, ProcessInput(st, batch, os));
    case Timer =>
      TimerShrinks(st);
      ShrinksKeeps(st, TimerProcess(st));
  }

  lemma {:induction false} RunKeepsStream(st: State, steps: seq<Step>)
    requires Inv(st) && StreamInv(st) && Run(st, steps).Some?
    ensures Inv(Run(st, steps).value) && StreamInv(Run(st, steps).value)
    decreases |steps|
  {
    if steps != [] {
      ApplyKeepsInv(st, steps[0]);
      ApplyKeepsStream(st, steps[0]);
      RunKeepsStream(Apply(st, steps[0]), steps[1..]);
    }
  }

  lemma StartStreams(config: Config)
    requires config.connections <= UINT32_MAX
    ensures StreamInv(Start(config))
  {
  }

  lemma HeardSoFar(st: State, h: Cid, fill: Filler)
    requires Shape(st) && Conserved(st, h) && forall i :: 0 <= i < |st.outbox| ==> A.MessageOk(st.outbox[i])
    ensures Live(st, h) ==>
      F.Split(StreamOf(st, h)) == (A.PacketsOf(A.Heard(st.outbox, fill), h), Cached(st, h.id))
    ensures A.PacketsOf(A.Heard(st.outbox, fill), h) <= F.Split(StreamOf(st, h)).0
  {
    var data := A.DataOf(st.outbox, h);
    var rest := StreamOf(st, h)[|data|..];
    A.HeardIsSplit(st.outbox, fill, h);
    assert StreamOf(st, h) == data + rest;
    F.SplitWholeAppend(data, rest);
    if Live(st, h) {
      assert rest == Cached(st, h.id);
      assert F.Split(data).0 + [] == F.Split(data).0;
    }
  }

  /** When a call that received bytes ends the connection: exactly when the stream held and received so far
      contains a header over package_size, or stops one byte short of a frame with package_size bytes. */
  lemma RefusalIsExact(st: State, id: nat, io: RecvIo)
    requires Inv(st) && Enabled(st, Receive(id, io))
    requires io.busSpace >= REQ_SIZE + |Cached(st, id)| + 1 && !P.Empty(st.packagePool)
    requires io.outcome.Data? && io.outcome.bytes != []
    ensures var held := Cached(st, id) + Received(io, |Cached(st, id)|);
      var ret := Recv(st, id, io).1;
      && (ret == NoError || ret == Close)
      && (ret == Close <==>
            F.AnnouncesOver(held, st.config.packageSize) || |F.Split(held).1| == st.config.packageSize + 1)
  {
    F.RefusedExactly(Cached(st, id) + Received(io, |Cached(st, id)|), st.config.packageSize);
  }

  /** A client whose frames all have fewer than package_size bytes is never refused, wherever TCP cuts. */
  lemma AcceptableStreamsFlow(st: State, id: nat, io: RecvIo)
    requires Inv(st) && StreamInv(st) && Enabled(st, Receive(id, io))
    requires io.busSpace >= REQ_SIZE + |Cached(st, id)| + 1 && !P.Empty(st.packagePool)
    requires io.outcome.Data? && io.outcome.bytes != []
    requires F.Acceptable(StreamOf(st, CidOf(st, id)) + Received(io, |Cached(st, id)|), st.config.packageSize)
    ensures Recv(st, id, io).1 == NoError
  {
    var h := CidOf(st, id);
    ReadableIsEstablished(st, id);
    LiveIsUsed(st, h);
    assert Conserved(st, h);
    var data, chunk := A.DataOf(st.outbox, h), Received(io, |Cached(st, id)|);
    A.HeardIsSplit(st.outbox, _ => 0, h);
    F.SplitWholeAppend(data, Cached(st, id));
    F.AcceptableNeverRefused(StreamOf(st, h), chunk, st.config.packageSize);
    F.RefusedExactly(Cached(st, id) + chunk, st.config.packageSize);
  }
}
