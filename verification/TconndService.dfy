/**
 What tconnd promises its clients and its server, over every run of its main loop from the start in which no pass
 strikes the socket saved as next (TconndLoop.LoopKeepsInvExactly says what the others come to).
 */
module TconndService {
  import opened Basics
  import opened Sip
  import opened TconndState
  import opened TconndOwnership
  import opened TconndSteps
  import opened TconndStream
  import opened TconndDelivery
  import opened TconndStarvation
  import opened TconndLoop
  import F = Framing
  import A = Tconnapi

  /** The complete frames of a connection that the loop loses in refusals. */
  function LostFrames(config: Config, events: seq<Event>, h: Cid): seq<Bytes>
    requires Loop(Start(config), events).Some? && SparesNext(Start(config), events)
  {
    StartHasInv(config);
    LoopRuns(Start(config), events);
    LostBy(Start(config), AllCalls(Start(config), events), h)
  }

  lemma LoopKeepsStream(config: Config, events: seq<Event>, st: State)
    requires config.connections <= UINT32_MAX
    requires Loop(Start(config), events) == Some(st) && SparesNext(Start(config), events)
    ensures Inv(st) && StreamInv(st)
  {
    StartHasInv(config);
    StartStreams(config);
    LoopRuns(Start(config), events);
    RunKeepsStream(Start(config), AllCalls(Start(config), events));
  }

  lemma LoopAccounts(config: Config, events: seq<Event>, st: State, h: Cid)
    requires config.connections <= UINT32_MAX
    requires Loop(Start(config), events) == Some(st) && SparesNext(Start(config), events)
    ensures Accounted(st, h, LostFrames(config, events, h))
  {
    StartHasInv(config);
    StartStreams(config);
    LoopRuns(Start(config), events);
    RunAccounts(Start(config), AllCalls(Start(config), events), h, []);
    var lost := LostFrames(config, events, h);
    assert [] + lost == lost;
  }

  /**
   End-to-end framing, for every connection, live or gone: the complete frames of the bytes received are the packets
   the application has heard followed by the frames lost in a refusal. Nothing is lost while the connection lives, and
   nothing on a stream whose bodies stay below package_size.
   */
  lemma EndToEnd(config: Config, events: seq<Event>, st: State, h: Cid, fill: Filler)
    requires config.connections <= UINT32_MAX
    requires Loop(Start(config), events) == Some(st) && SparesNext(Start(config), events)
    ensures F.Split(StreamOf(st, h)).0 == A.PacketsOf(A.Heard(st.outbox, fill), h) + LostFrames(config, events, h)
    ensures Live(st, h) || F.Acceptable(StreamOf(st, h), config.packageSize) ==> LostFrames(config, events, h) == []
    ensures Live(st, h) ==> F.Split(StreamOf(st, h)).1 == Cached(st, h.id)
  {
    LoopKeepsStream(config, events, st);
    LoopAccounts(config, events, st, h);
    A.HeardIsSplit(st.outbox, fill, h);
    LoopKeepsConfig(config, events, st);
    if Live(st, h) {
      assert Conserved(st, h);
      HeardSoFar(st, h, fill);
    }
  }

  /** The messages about a connection are a connect, then data messages that are never of size zero, then at most one
      close marker, which only a deleted connection has. */
  lemma ProtocolOrder(config: Config, events: seq<Event>, st: State, h: Cid)
    requires config.connections <= UINT32_MAX
    requires Loop(Start(config), events) == Some(st) && SparesNext(Start(config), events)
    ensures Live(st, h) ==> Talking(About(st.outbox, h))
    ensures About(st.outbox, h) == [] || Conversation(About(st.outbox, h))
  {
    LoopKeepsStream(config, events, st);
    assert Told(st, h);
  }

  // ----- the configuration stays -----

  lemma {:induction false} RunKeepsConfig(st: State, steps: seq<Step>)
    requires Inv(st) && Run(st, steps).Some?
    ensures Run(st, steps).value.config == st.config
    decreases |steps|
  {
    if steps != [] {
      ApplyKeepsInv(st, steps[0]);
      SizesStay(st, steps[0]);
      RunKeepsConfig(Apply(st, steps[0]), steps[1..]);
    }
  }

  lemma LoopKeepsConfig(config: Config, events: seq<Event>, st: State)
    requires Loop(Start(config), events) == Some(st) && SparesNext(Start(config), events)
    ensures st.config == config
  {
    StartHasInv(config);
    LoopRuns(Start(config), events);
    RunKeepsConfig(Start(config), AllCalls(Start(config), events));
  }

  // ----- refusals -----

  /** After a receive that got bytes, the application has heard every complete frame of the connection if and only if
      the receive was not refused or no complete frame was held; a refusal loses exactly the complete frames held. */
  lemma RefusalLosesExactly(st: State, id: nat, io: RecvIo, fill: Filler)
    requires Inv(st) && StreamInv(st) && Enabled(st, Receive(id, io))
    requires io.busSpace >= REQ_SIZE + |Cached(st, id)| + 1 && Received(io, |Cached(st, id)|) != []
    ensures var r := Serve(st, id, io); var h := CidOf(st, id);
      F.Split(StreamOf(r, h)).0 == A.PacketsOf(A.Heard(r.outbox, fill), h) + Lost(st, Receive(id, io), h)
    ensures var r := Serve(st, id, io); var h := CidOf(st, id);
      F.Split(StreamOf(r, h)).0 == A.PacketsOf(A.Heard(r.outbox, fill), h) <==>
        !Refuses(st, id, io) || F.Split(Scanned(st, id, io)).0 == []
  {
    ServeKeepsStream(st, id, io);
    A.HeardIsSplit(Serve(st, id, io).outbox, fill, CidOf(st, id));
    ServedLoss(st, id, io);
    LossOrNone(F.Split(A.DataOf(Serve(st, id, io).outbox, CidOf(st, id))).0, Lost(st, Receive(id, io), CidOf(st, id)));
  }

  lemma LossOrNone<T>(heard: seq<T>, lost: seq<T>)
    ensures heard + lost == heard <==> lost == []
  {
    if lost != [] {
      assert |heard + lost| > |heard|;
    }
  }

  /** The socket served is live, and nothing of it was lost before. */
  lemma ServedLoss(st: State, id: nat, io: RecvIo)
    requires Inv(st) && StreamInv(st) && Enabled(st, Receive(id, io))
    ensures var r := Serve(st, id, io); var h := CidOf(st, id);
      F.Split(StreamOf(r, h)).0 == F.Split(A.DataOf(r.outbox, h)).0 + Lost(st, Receive(id, io), h)
  {
    var h := CidOf(st, id);
    ReadableIsEstablished(st, id);
    LiveIsUsed(st, h);
    LiveLostNothing(st, h);
    assert Accounted(st, h, []);
    StepAccounts(st, Receive(id, io), h, []);
    assert [] + Lost(st, Receive(id, io), h) == Lost(st, Receive(id, io), h);
  }
}
