/**
 What becomes of the frames a client sends. For every connection, live or gone, the complete frames of the bytes
 received are the packets the application hears followed by the frames lost in a refusal; and a refusal loses exactly
 the complete frames held at that moment. So nothing is lost on a connection that is never refused, whoever ends it.
 */
module TconndDelivery {
  import opened Basics
  import opened Sip
  import opened TconndState
  import opened TconndOwnership
  import opened TconndSteps
  import opened TconndStream
  import F = Framing
  import P = MempoolSpec
  import A = Tconnapi

  // ----- one receive -----

  /** The bytes a receive has to scan: what was cached, then the chunk. */
  function Scanned(st: State, id: nat, io: RecvIo): Bytes
    requires Shape(st) && id < |st.sockets| && io.busSpace >= REQ_SIZE + |Cached(st, id)|
  {
    Cached(st, id) + Received(io, |Cached(st, id)|)
  }

  /** The receive got bytes and ends the connection because of them. */
  predicate Refuses(st: State, id: nat, io: RecvIo)
    requires Shape(st) && id < |st.sockets|
  {
    && Recv(st, id, io).1 == Close
    && Received(io, |Cached(st, id)|) != []
  }

  /** The complete frames that a step takes from a client and never publishes. */
  function Lost(st: State, step: Step, h: Cid): seq<Bytes>
    requires Shape(st) && Enabled(st, step)
  {
    if step.Receive? && CidOf(st, step.id) == h && Refuses(st, step.id, step.io) then
      F.Split(Scanned(st, step.id, step.io)).0
    else
      []
  }

  /** The frames of the bytes received are those of the data published, then the lost ones. */
  ghost predicate Accounted(st: State, h: Cid, lost: seq<Bytes>)
    requires Shape(st)
  {
    && F.Split(StreamOf(st, h)).0 == F.Split(A.DataOf(st.outbox, h)).0 + lost
    && (Live(st, h) ==> lost == [])
    && (F.Acceptable(StreamOf(st, h), st.config.packageSize) ==> lost == [])
  }

  /** Published data are whole frames, so what follows them in the stream is read on its own. */
  lemma DataThenRest(st: State, h: Cid, rest: Bytes)
    requires StreamInv(st)
    ensures F.Split(A.DataOf(st.outbox, h) + rest).0 == F.Split(A.DataOf(st.outbox, h)).0 + F.Split(rest).0
  {
    A.HeardIsSplit(st.outbox, _ => 0, h);
    F.SplitWholeAppend(A.DataOf(st.outbox, h), rest);
  }

  lemma LiveLostNothing(st: State, h: Cid)
    requires StreamInv(st) && Live(st, h)
    ensures F.Split(StreamOf(st, h)).0 == F.Split(A.DataOf(st.outbox, h)).0
  {
    assert Conserved(st, h);
    DataThenRest(st, h, Cached(st, h.id));
    assert F.Split(A.DataOf(st.outbox, h)).0 + [] == F.Split(A.DataOf(st.outbox, h)).0;
  }

  // ----- steps -----

  /** Nothing about the handle was received or published. */
  lemma SameAccount(a: State, b: State, h: Cid, lost: seq<Bytes>)
    requires Shape(a) && Shape(b) && Accounted(a, h, lost) && b.config == a.config
    requires StreamOf(b, h) == StreamOf(a, h) && A.DataOf(b.outbox, h) == A.DataOf(a.outbox, h)
    requires Live(b, h) ==> lost == []
    ensures Accounted(b, h, lost)
  {
  }

  lemma JoinAccounts(a: State, b: State, joined: Cid, h: Cid, lost: seq<Bytes>)
    requires StreamInv(a) && Joins(a, b, joined) && Accounted(a, h, lost)
    ensures Accounted(b, h, lost)
  {
    A.DataOfSnoc(a.outbox, Req(CMD_CONNECT, joined, []), h);
    assert A.DataOf(a.outbox, h) + [] == A.DataOf(a.outbox, h);
    if h == joined {
      NothingAbout(a.outbox, joined);
      assert StreamOf(a, h) == [];
    }
    SameAccount(a, b, h, lost);
  }

  lemma ListenRefuses(st: State, io: ListenIo)
    requires Shape(st) && Listen(st, io).1 != NoError
    ensures Listen(st, io).0 == st
  {
  }

  lemma ListenAccounts(st: State, io: ListenIo, h: Cid, lost: seq<Bytes>)
    requires PoolsOk(st) && StreamInv(st) && Accounted(st, h, lost)
    ensures Accounted(Listen(st, io).0, h, lost)
  {
    if Listen(st, io).1 == NoError {
      ListenJoins(st, io);
      JoinAccounts(st, Listen(st, io).0, Cid(st.socketPool.unused[0], st.socketPool.sn), h, lost);
    } else {
      ListenRefuses(st, io);
    }
  }

  /** What a receive that publishes means for the other connections. */
  lemma ServedAside(a: State, b: State, id: nat, chunk: Bytes, data: Bytes, tail: Bytes, h: Cid)
    requires Served(a, b, id, chunk, data, tail) && h != CidOf(a, id)
    ensures StreamOf(b, h) == StreamOf(a, h) && A.DataOf(b.outbox, h) == A.DataOf(a.outbox, h)
    ensures Live(b, h) <==> Live(a, h)
  {
    if data == [] {
      assert b.outbox == a.outbox;
    } else {
      A.DataOfSnoc(a.outbox, Req(CMD_RECV, CidOf(a, id), data), h);
      assert A.DataOf(a.outbox, h) + [] == A.DataOf(a.outbox, h);
    }
  }

  lemma RecvServes(st: State, id: nat, io: RecvIo)
    requires Inv(st) && id < |st.sockets| && id in st.socketPool.used && Recv(st, id, io).1 == NoError
    ensures exists chunk, data, tail :: Served(st, Recv(st, id, io).0, id, chunk, data, tail)
  {
    RecvEmits(st, id, io);
    var chunk := Received(io, |Cached(st, id)|);
    var buf := Cached(st, id) + chunk;
    EmitServes(st, id, chunk, buf, F.CutFrom(buf, 0, st.config.packageSize).pos);
  }

  /** A receive that publishes. */
  lemma DataAccounts(st: State, id: nat, io: RecvIo, h: Cid, lost: seq<Bytes>)
    requires Inv(st) && StreamInv(st) && id < |st.sockets| && id in st.socketPool.used
    requires io.busSpace <= UINT32_MAX && Recv(st, id, io).1 == NoError && Accounted(st, h, lost)
    ensures Accounted(Recv(st, id, io).0, h, lost)
  {
    var st1 := Recv(st, id, io).0;
    RecvServes(st, id, io);
    var chunk, data, tail :| Served(st, st1, id, chunk, data, tail);
    LiveIsUsed(st, CidOf(st, id));
    if h == CidOf(st, id) {
      ServeData(st, id, io);
      LiveLostNothing(st1, h);
      assert F.Split(A.DataOf(st1.outbox, h)).0 + [] == F.Split(A.DataOf(st1.outbox, h)).0;
    } else {
      ServedAside(st, st1, id, chunk, data, tail, h);
      SameAccount(st, st1, h, lost);
    }
  }

  lemma EndServes(st: State, id: nat, io: RecvIo)
    requires Shape(st) && id < |st.sockets| && Recv(st, id, io).1 == Close && !Refuses(st, id, io)
    ensures Serve(st, id, io) == Delete(Publish(st, id, CMD_RECV, []), id)
  {
  }

  /** The peer closed: the close marker carries no data. */
  lemma EndAccounts(st: State, id: nat, h: Cid, lost: seq<Bytes>)
    requires Shape(st) && id < |st.sockets| && Accounted(st, h, lost)
    ensures Accounted(Delete(Publish(st, id, CMD_RECV, []), id), h, lost)
  {
    DeleteRecords(Publish(st, id, CMD_RECV, []), id);
    A.DataOfSnoc(st.outbox, Req(CMD_RECV, CidOf(st, id), []), h);
    assert A.DataOf(st.outbox, h) + [] == A.DataOf(st.outbox, h);
    SameAccount(st, Delete(Publish(st, id, CMD_RECV, []), id), h, lost);
  }

  /** A refusal: the bytes are counted as received, nothing is published, the socket is deleted. */
  lemma RefusalServes(st: State, id: nat, io: RecvIo)
    requires Shape(st) && id < |st.sockets| && Refuses(st, id, io)
    ensures var r := Serve(st, id, io); var h := CidOf(st, id);
      && r == Delete(TakeIn(st, id, Received(io, |Cached(st, id)|)), id)
      && Shape(r) && r.config == st.config && r.outbox == st.outbox
      && StreamOf(r, h) == StreamOf(st, h) + Received(io, |Cached(st, id)|)
      && (forall g :: g != h ==> StreamOf(r, g) == StreamOf(st, g))
      && (forall g :: Live(r, g) ==> Live(st, g) && g != h)
  {
    TakeInRecords(st, id, Received(io, |Cached(st, id)|));
    DeleteRecords(TakeIn(st, id, Received(io, |Cached(st, id)|)), id);
  }

  /** What the framer may not refuse is not refused. */
  lemma AcceptableNotRefused(st: State, id: nat, io: RecvIo)
    requires Inv(st) && StreamInv(st) && Enabled(st, Receive(id, io)) && Refuses(st, id, io)
    ensures !F.Acceptable(StreamOf(st, CidOf(st, id)) + Received(io, |Cached(st, id)|), st.config.packageSize)
  {
    if F.Acceptable(StreamOf(st, CidOf(st, id)) + Received(io, |Cached(st, id)|), st.config.packageSize) {
      AcceptableStreamsFlow(st, id, io);
    }
  }

  lemma RefusedHeld(st: State, h: Cid, chunk: Bytes)
    requires StreamInv(st) && Live(st, h)
    ensures F.Split(StreamOf(st, h) + chunk).0 ==
      F.Split(A.DataOf(st.outbox, h)).0 + F.Split(Cached(st, h.id) + chunk).0
  {
    assert Conserved(st, h);
    ConcatAssociates(A.DataOf(st.outbox, h), Cached(st, h.id), chunk);
    DataThenRest(st, h, Cached(st, h.id) + chunk);
  }

  lemma RefusalAccounts(st: State, id: nat, io: RecvIo, h: Cid, lost: seq<Bytes>)
    requires Inv(st) && StreamInv(st) && Enabled(st, Receive(id, io)) && Refuses(st, id, io)
    requires Accounted(st, h, lost)
    ensures Accounted(Serve(st, id, io), h, lost + Lost(st, Receive(id, io), h))
  {
    RefusalServes(st, id, io);
    if h == CidOf(st, id) {
      ReadableIsEstablished(st, id);
      LiveIsUsed(st, h);
      RefusedHeld(st, h, Received(io, |Cached(st, id)|));
      AcceptableNotRefused(st, id, io);
      assert [] + Lost(st, Receive(id, io), h) == Lost(st, Receive(id, io), h);
    } else {
      assert lost + [] == lost;
      SameAccount(st, Serve(st, id, io), h, lost);
    }
  }

  lemma ServeAccounts(st: State, id: nat, io: RecvIo, h: Cid, lost: seq<Bytes>)
    requires Inv(st) && StreamInv(st) && Enabled(st, Receive(id, io)) && Accounted(st, h, lost)
    requires !Refuses(st, id, io)
    ensures Accounted(Serve(st, id, io), h, lost)
  {
    match Recv(st, id, io).1
    case NoError =>
      ReadableIsEstablished(st, id);
      DataAccounts(st, id, io, h, lost);
    case Close =>
      EndServes(st, id, io);
      EndAccounts(st, id, h, lost);
    case NoMemory =>
      RetriesChangeNothing(st, id, io);
      if st.packageList != [] {
        DeleteShrinks(st, st.packageList[0]);
        SameAccount(st, Delete(st, st.packageList[0]), h, lost);
      }
    case _ =>
      RetriesChangeNothing(st, id, io);
      SameAccount(st, Serve(st, id, io), h, lost);
  }

  lemma StepAccounts(st: State, step: Step, h: Cid, lost: seq<Bytes>)
    requires Inv(st) && StreamInv(st) && Enabled(st, step) && Accounted(st, h, lost)
    ensures Accounted(Apply(st, step), h, lost + Lost(st, step, h))
  {
    if step.Receive? && Refuses(st, step.id, step.io) {
      RefusalAccounts(st, step.id, step.io, h, lost);
    } else {
      assert lost + [] == lost;
      match step
      case Accept(io) => ListenAccounts(st, io, h, lost);
      case Receive(id, io) => ServeAccounts(st, id, io, h, lost);
      case Input(batch, os) =>
        ProcessInputShrinks(st, batch, os);
        SameAccount(st, Apply(st, step), h, lost);
      case Timer =>
        TimerShrinks(st);
        SameAccount(st, Apply(st, step), h, lost);
      case _ => SameAccount(st, Apply(st, step), h, lost);
    }
  }

  // ----- runs -----

  /** All the complete frames of one connection that a run loses. */
  function LostBy(st: State, steps: seq<Step>, h: Cid): seq<Bytes>
    requires Shape(st) && Run(st, steps).Some?
    decreases |steps|
  {
    if steps == [] then []
    else Lost(st, steps[0], h) + LostBy(Apply(st, steps[0]), steps[1..], h)
  }

  lemma {:induction false} RunAccounts(st: State, steps: seq<Step>, h: Cid, lost: seq<Bytes>)
    requires Inv(st) && StreamInv(st) && Run(st, steps).Some? && Accounted(st, h, lost)
    ensures Accounted(Run(st, steps).value, h, lost + LostBy(st, steps, h))
    decreases |steps|
  {
    if steps == [] {
      assert lost + [] == lost;
    } else {
      ApplyKeepsInv(st, steps[0]);
      ApplyKeepsStream(st, steps[0]);
      StepAccounts(st, steps[0], h, lost);
      var now := Lost(st, steps[0], h);
      RunAccounts(Apply(st, steps[0]), steps[1..], h, lost + now);
      ConcatAssociates(lost, now, LostBy(Apply(st, steps[0]), steps[1..], h));
    }
  }
}
