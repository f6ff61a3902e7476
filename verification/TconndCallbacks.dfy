/**
 What the server's application is told about each connection, over every sparing run of the main loop: callbacks of all
 three kinds, against what happened to the connection.
 */
module TconndCallbacks {
  import opened Basics
  import opened Sip
  import opened TconndState
  import opened TconndOwnership
  import opened TconndSteps
  import opened TconndStream
  import opened TconndDelivery
  import opened TconndLoop
  import opened TconndService
  import opened TconndReceive
  import F = Framing
  import A = Tconnapi
  import P = MempoolSpec
  import L = SipLayout

  // ----- callbacks of one connection -----

  /** The callbacks about one connection, in order. */
  function CallbacksAbout(callbacks: seq<A.Callback>, h: Cid): seq<A.Callback> {
    if callbacks == [] then []
    else (if callbacks[0].cid == h then [callbacks[0]] else []) + CallbacksAbout(callbacks[1..], h)
  }

  function OnPackets(h: Cid, packets: seq<Bytes>): (r: seq<A.Callback>)
    ensures |r| == |packets|
  {
    seq(|packets|, i requires 0 <= i < |packets| => A.OnPacket(h, packets[i]))
  }

  lemma {:induction false} CallbacksAboutAppend(a: seq<A.Callback>, b: seq<A.Callback>, h: Cid)
    ensures CallbacksAbout(a + b, h) == CallbacksAbout(a, h) + CallbacksAbout(b, h)
  {
    if a == [] {
      assert a + b == b;
    } else {
      assert (a + b)[1..] == a[1..] + b;
      CallbacksAboutAppend(a[1..], b, h);
    }
  }

  lemma {:induction false} AllAbout(callbacks: seq<A.Callback>, cid: Cid, h: Cid)
    requires forall i :: 0 <= i < |callbacks| ==> callbacks[i].cid == cid
    ensures CallbacksAbout(callbacks, h) == if cid == h then callbacks else []
  {
    if callbacks != [] {
      AllAbout(callbacks[1..], cid, h);
      assert callbacks == [callbacks[0]] + callbacks[1..];
    }
  }

  lemma {:induction false} AllPackets(callbacks: seq<A.Callback>, h: Cid)
    requires forall i :: 0 <= i < |callbacks| ==> callbacks[i].OnPacket? && callbacks[i].cid == h
    ensures callbacks == OnPackets(h, A.PacketsOf(callbacks, h))
  {
    if callbacks != [] {
      AllPackets(callbacks[1..], h);
      var packets := A.PacketsOf(callbacks[1..], h);
      assert A.PacketsOf(callbacks, h) == [callbacks[0].packet] + packets;
      assert OnPackets(h, [callbacks[0].packet] + packets) == [callbacks[0]] + OnPackets(h, packets);
      assert callbacks == [callbacks[0]] + callbacks[1..];
    }
  }

  lemma {:induction false} PacketCallbacksAre(cid: Cid, packets: seq<Bytes>)
    ensures A.PacketCallbacks(cid, packets) == OnPackets(cid, packets)
  {
    if packets != [] {
      PacketCallbacksAre(cid, packets[1..]);
      assert OnPackets(cid, packets) == [A.OnPacket(cid, packets[0])] + OnPackets(cid, packets[1..]);
    }
  }

  /** What tconnapi_on_recv tells the application about any message, from its bytes. */
  lemma OnRecvExactly(msg: Bytes)
    ensures A.Callbacks(msg) ==
      if |msg| < 24 || |msg| < 24 + L.Word(msg, 4) then []
      else if L.Word(msg, 0) == 1 then [A.OnConnect(L.HandleAt(msg, 8))]
      else if L.Word(msg, 0) != 2 then []
      else if L.Word(msg, 4) == 0 then [A.OnClose(L.HandleAt(msg, 8))]
      else OnPackets(L.HandleAt(msg, 8), F.Split(msg[24..24 + L.Word(msg, 4)]).0)
  {
    L.ReqFields(msg);
    if DecodeReq(msg).Some? {
      PacketCallbacksAre(L.HandleAt(msg, 8), F.Split(DecodeReq(msg).value.payload).0);
    }
  }

  // ----- reports -----

  /** What the application should be told about a message. */
  function Report(m: Req): seq<A.Callback> {
    if m.cmd == CMD_CONNECT then [A.OnConnect(m.cid)]
    else if m.payload == [] then [A.OnClose(m.cid)]
    else OnPackets(m.cid, F.Split(m.payload).0)
  }

  function Reports(msgs: seq<Req>): seq<A.Callback> {
    if msgs == [] then [] else Report(msgs[0]) + Reports(msgs[1..])
  }

  ghost predicate MessagesOk(msgs: seq<Req>) {
    forall i :: 0 <= i < |msgs| ==> A.MessageOk(msgs[i])
  }

  /** tconnapi_on_recv tells it that, message by message. */
  lemma MessageReported(m: Req, fill: Filler)
    requires A.MessageOk(m)
    ensures A.Callbacks(EncodeReq(m, fill)) == Report(m)
  {
    ReqRoundTrip(m, fill);
    PacketCallbacksAre(m.cid, F.Split(m.payload).0);
  }

  lemma {:induction false} HeardIsReports(msgs: seq<Req>, fill: Filler)
    requires MessagesOk(msgs)
    ensures A.Heard(msgs, fill) == Reports(msgs)
  {
    if msgs != [] {
      MessageReported(msgs[0], fill);
      HeardIsReports(msgs[1..], fill);
    }
  }

  /** The reports about a connection are those of the messages about it. */
  lemma {:induction false} ReportsAbout(msgs: seq<Req>, h: Cid)
    ensures CallbacksAbout(Reports(msgs), h) == Reports(About(msgs, h))
  {
    if msgs != [] {
      var m, rest := msgs[0], msgs[1..];
      ReportsAbout(rest, h);
      AllAbout(Report(m), m.cid, h);
      CallbacksAboutAppend(Report(m), Reports(rest), h);
      if m.cid == h {
        assert ([m] + About(rest, h))[1..] == About(rest, h);
      } else {
        assert [] + About(rest, h) == About(rest, h);
      }
    }
  }

  ghost predicate AllOf(msgs: seq<Req>, h: Cid) {
    forall i :: 0 <= i < |msgs| ==> msgs[i].cid == h
  }

  lemma {:induction false} AboutAre(msgs: seq<Req>, h: Cid)
    ensures AllOf(About(msgs, h), h)
  {
    if msgs != [] {
      AboutAre(msgs[1..], h);
    }
  }

  lemma {:induction false} ReportsSnoc(msgs: seq<Req>, m: Req)
    ensures Reports(msgs + [m]) == Reports(msgs) + Report(m)
  {
    if msgs == [] {
      assert msgs + [m] == [m] && [m][1..] == [];
      assert Report(m) + Reports([m][1..]) == Report(m);
    } else {
      assert (msgs + [m])[1..] == msgs[1..] + [m];
      ReportsSnoc(msgs[1..], m);
      ConcatAssociates(Report(msgs[0]), Reports(msgs[1..]), Report(m));
    }
  }

  /** Data messages that are not empty report packets only. */
  lemma {:induction false} DataReports(msgs: seq<Req>, h: Cid)
    requires AllOf(msgs, h) && forall i :: 0 <= i < |msgs| ==> msgs[i].cmd == CMD_RECV && msgs[i].payload != []
    ensures forall i :: 0 <= i < |Reports(msgs)| ==> Reports(msgs)[i].OnPacket? && Reports(msgs)[i].cid == h
  {
    if msgs != [] {
      DataReports(msgs[1..], h);
    }
  }

  /** An open conversation is reported as a connect and packets. */
  lemma TalkingReports(msgs: seq<Req>, h: Cid)
    requires AllOf(msgs, h) && Talking(msgs)
    ensures Reports(msgs) == [A.OnConnect(h)] + OnPackets(h, A.PacketsOf(Reports(msgs), h))
  {
    var packets := Reports(msgs[1..]);
    DataReports(msgs[1..], h);
    AllPackets(packets, h);
    A.PacketsOfAppend([A.OnConnect(h)], packets, h);
    assert [A.OnConnect(h)][1..] == [];
  }

  /** One that was ended is reported with a close at the end. */
  lemma EndedReports(msgs: seq<Req>, h: Cid)
    requires AllOf(msgs, h) && |msgs| > 1 && Talking(msgs[..|msgs| - 1])
    requires msgs[|msgs| - 1].cmd == CMD_RECV && msgs[|msgs| - 1].payload == []
    ensures Reports(msgs) == [A.OnConnect(h)] + OnPackets(h, A.PacketsOf(Reports(msgs), h)) + [A.OnClose(h)]
  {
    var talk, last := msgs[..|msgs| - 1], msgs[|msgs| - 1];
    assert msgs == talk + [last];
    ReportsSnoc(talk, last);
    TalkingReports(talk, h);
    A.PacketsOfAppend(Reports(talk), [A.OnClose(h)], h);
    assert [A.OnClose(h)][1..] == [];
  }

  // ----- what happened to the connection -----

  /** The step is an accept that hands out this handle. */
  predicate JoinsBy(st: State, step: Step, h: Cid) {
    && step.Accept? && step.listenIo.accepted && step.listenIo.busSpace >= REQ_SIZE
    && st.socketPool.unused != [] && st.socketPool.sn != P.INVALID_ID
    && h == Cid(st.socketPool.unused[0], st.socketPool.sn)
  }

  /** The step is a receive on this connection that got zero bytes or failed. */
  predicate HangsUpBy(st: State, step: Step, h: Cid)
    requires Shape(st) && Enabled(st, step)
  {
    step.Receive? && CidOf(st, step.id) == h && Asks(st, step.id, step.io) && HangsUp(step.io)
  }

  function Joined(st: State, steps: seq<Step>, h: Cid): bool
    requires Shape(st) && Run(st, steps).Some?
    decreases |steps|
  {
    steps != [] && (JoinsBy(st, steps[0], h) || Joined(Apply(st, steps[0]), steps[1..], h))
  }

  function HungUp(st: State, steps: seq<Step>, h: Cid): bool
    requires Shape(st) && Run(st, steps).Some?
    decreases |steps|
  {
    steps != [] && (HangsUpBy(st, steps[0], h) || HungUp(Apply(st, steps[0]), steps[1..], h))
  }

  /** The messages about the connection say whether it joined and whether it hung up. */
  ghost predicate Tells(st: State, h: Cid, joined: bool, hungUp: bool) {
    var about := About(st.outbox, h);
    && (joined <==> about != [])
    && (hungUp <==> about != [] && about[|about| - 1].cmd == CMD_RECV && about[|about| - 1].payload == [])
  }

  lemma AcceptTells(st: State, io: ListenIo, h: Cid, joined: bool, hungUp: bool)
    requires Inv(st) && StreamInv(st) && Tells(st, h, joined, hungUp)
    ensures Tells(Listen(st, io).0, h, joined || JoinsBy(st, Accept(io), h), hungUp)
  {
    if Listen(st, io).1 == NoError {
      var m := Req(CMD_CONNECT, Cid(st.socketPool.unused[0], st.socketPool.sn), []);
      AboutSnoc(st.outbox, m, h);
      NothingAbout(st.outbox, m.cid);
    }
  }

  lemma MarkerTells(st: State, r: State, h: Cid, g: Cid, joined: bool, hungUp: bool)
    requires Tells(st, h, joined, hungUp) && Told(st, g) && Live(st, g)
    requires r.outbox == st.outbox + [Req(CMD_RECV, g, [])]
    ensures Tells(r, h, joined, hungUp || g == h)
  {
    AboutSnoc(st.outbox, Req(CMD_RECV, g, []), h);
  }

  lemma DataTells(st: State, r: State, h: Cid, g: Cid, data: Bytes, joined: bool, hungUp: bool)
    requires Tells(st, h, joined, hungUp) && Told(st, g) && Live(st, g) && data != []
    requires r.outbox == st.outbox + [Req(CMD_RECV, g, data)]
    ensures Tells(r, h, joined, hungUp)
  {
    AboutSnoc(st.outbox, Req(CMD_RECV, g, data), h);
  }

  lemma ReceiveTells(st: State, id: nat, io: RecvIo, h: Cid, joined: bool, hungUp: bool)
    requires Inv(st) && StreamInv(st) && Enabled(st, Receive(id, io)) && Tells(st, h, joined, hungUp)
    ensures Tells(Serve(st, id, io), h, joined, hungUp || HangsUpBy(st, Receive(id, io), h))
  {
    ServedIsLive(st, id);
    TurnPublishes(st, id, io);
    PublishesTells(st, Serve(st, id, io), h, CidOf(st, id), Asks(st, id, io) && HangsUp(io), joined, hungUp);
  }

  lemma PublishesTells(st: State, r: State, h: Cid, g: Cid, marker: bool, joined: bool, hungUp: bool)
    requires Tells(st, h, joined, hungUp) && Told(st, g) && Live(st, g) && Publishes(st.outbox, r.outbox, g, marker)
    ensures Tells(r, h, joined, hungUp || (marker && g == h))
  {
    if marker {
      MarkerTells(st, r, h, g, joined, hungUp);
    } else if r.outbox != st.outbox {
      var data :| data != [] && r.outbox == st.outbox + [Req(CMD_RECV, g, data)];
      DataTells(st, r, h, g, data, joined, hungUp);
    }
  }

  lemma ServedIsLive(st: State, id: nat)
    requires Inv(st) && StreamInv(st) && id < |st.sockets| && id in st.readableList
    ensures Live(st, CidOf(st, id)) && Told(st, CidOf(st, id))
  {
    ReadableIsEstablished(st, id);
    LiveIsUsed(st, CidOf(st, id));
  }

  lemma StepTells(st: State, step: Step, h: Cid, joined: bool, hungUp: bool)
    requires Inv(st) && StreamInv(st) && Enabled(st, step) && Tells(st, h, joined, hungUp)
    ensures Tells(Apply(st, step), h, joined || JoinsBy(st, step, h), hungUp || HangsUpBy(st, step, h))
  {
    match step
    case Accept(io) => AcceptTells(st, io, h, joined, hungUp);
    case Receive(id, io) => ReceiveTells(st, id, io, h, joined, hungUp);
    case Input(batch, os) => ProcessInputShrinks(st, batch, os);
    case Timer => TimerShrinks(st);
    case _ =>
  }

  lemma {:induction false} RunTells(st: State, steps: seq<Step>, h: Cid, joined: bool, hungUp: bool)
    requires Inv(st) && StreamInv(st) && Run(st, steps).Some? && Tells(st, h, joined, hungUp)
    ensures Tells(Run(st, steps).value, h, joined || Joined(st, steps, h), hungUp || HungUp(st, steps, h))
    decreases |steps|
  {
    if steps != [] {
      ApplyKeepsInv(st, steps[0]);
      ApplyKeepsStream(st, steps[0]);
      StepTells(st, steps[0], h, joined, hungUp);
      RunTells(Apply(st, steps[0]), steps[1..], h,
               joined || JoinsBy(st, steps[0], h), hungUp || HangsUpBy(st, steps[0], h));
    }
  }

  // ----- over the main loop -----

  function HasJoined(config: Config, events: seq<Event>, h: Cid): bool
    requires Loop(Start(config), events).Some? && SparesNext(Start(config), events)
  {
    StartHasInv(config);
    LoopRuns(Start(config), events);
    Joined(Start(config), AllCalls(Start(config), events), h)
  }

  function HasHungUp(config: Config, events: seq<Event>, h: Cid): bool
    requires Loop(Start(config), events).Some? && SparesNext(Start(config), events)
  {
    StartHasInv(config);
    LoopRuns(Start(config), events);
    HungUp(Start(config), AllCalls(Start(config), events), h)
  }

  lemma LoopTells(config: Config, events: seq<Event>, st: State, h: Cid)
    requires config.connections <= UINT32_MAX
    requires Loop(Start(config), events) == Some(st) && SparesNext(Start(config), events)
    ensures Tells(st, h, HasJoined(config, events, h), HasHungUp(config, events, h))
  {
    StartHasInv(config);
    StartStreams(config);
    LoopRuns(Start(config), events);
    RunTells(Start(config), AllCalls(Start(config), events), h, false, false);
  }

  /**
   The callbacks about a connection, of all three kinds, over every sparing run: none if it was never accepted; otherwise
   first one connect, then a packet for every complete frame received that was not lost in a refusal, in order, and then
   one close if and only if a receive on the connection got zero bytes or failed.
   */
  lemma CallbacksExactly(config: Config, events: seq<Event>, st: State, h: Cid, fill: Filler)
    requires config.connections <= UINT32_MAX
    requires Loop(Start(config), events) == Some(st) && SparesNext(Start(config), events)
    ensures var callbacks := CallbacksAbout(A.Heard(st.outbox, fill), h);
      var frames, lost := F.Split(StreamOf(st, h)).0, LostFrames(config, events, h);
      if !HasJoined(config, events, h) then callbacks == [] && !HasHungUp(config, events, h)
      else
        && |lost| <= |frames|
        && callbacks == [A.OnConnect(h)] + OnPackets(h, frames[..|frames| - |lost|])
                        + if HasHungUp(config, events, h) then [A.OnClose(h)] else []
  {
    LoopTells(config, events, st, h);
    ProtocolOrder(config, events, st, h);
    LoopKeepsStream(config, events, st);
    EndToEnd(config, events, st, h, fill);
    CallbacksTell(st, h, fill, HasJoined(config, events, h), HasHungUp(config, events, h), LostFrames(config, events, h));
  }

  lemma CallbacksTell(st: State, h: Cid, fill: Filler, joined: bool, hungUp: bool, lost: seq<Bytes>)
    requires MessagesOk(st.outbox) && (About(st.outbox, h) == [] || Conversation(About(st.outbox, h)))
    requires Tells(st, h, joined, hungUp)
    requires F.Split(StreamOf(st, h)).0 == A.PacketsOf(A.Heard(st.outbox, fill), h) + lost
    ensures var callbacks, frames := CallbacksAbout(A.Heard(st.outbox, fill), h), F.Split(StreamOf(st, h)).0;
      if !joined then callbacks == [] && !hungUp
      else
        && |lost| <= |frames|
        && callbacks == [A.OnConnect(h)] + OnPackets(h, frames[..|frames| - |lost|])
                        + if hungUp then [A.OnClose(h)] else []
  {
    PacketsHeard(st, h, fill);
    DropLast(A.PacketsOf(A.Heard(st.outbox, fill), h), lost);
  }

  lemma DropLast<T>(heard: seq<T>, lost: seq<T>)
    ensures (heard + lost)[..|heard + lost| - |lost|] == heard
  {
  }

  lemma PacketsHeard(st: State, h: Cid, fill: Filler)
    requires MessagesOk(st.outbox) && (About(st.outbox, h) == [] || Conversation(About(st.outbox, h)))
    ensures var heard, about := A.Heard(st.outbox, fill), About(st.outbox, h);
      if about == [] then CallbacksAbout(heard, h) == []
      else
        CallbacksAbout(heard, h) ==
          [A.OnConnect(h)] + OnPackets(h, A.PacketsOf(heard, h))
          + if about[|about| - 1].cmd == CMD_RECV && about[|about| - 1].payload == [] then [A.OnClose(h)] else []
  {
    var about := About(st.outbox, h);
    HeardIsReports(st.outbox, fill);
    ReportsAbout(st.outbox, h);
    AboutAre(st.outbox, h);
    PacketsOfAbout(Reports(st.outbox), h);
    if about != [] {
      if Talking(about) {
        TalkingReports(about, h);
      } else {
        EndedReports(about, h);
      }
    }
  }

  lemma {:induction false} PacketsOfAbout(callbacks: seq<A.Callback>, h: Cid)
    ensures A.PacketsOf(CallbacksAbout(callbacks, h), h) == A.PacketsOf(callbacks, h)
  {
    if callbacks != [] {
      PacketsOfAbout(callbacks[1..], h);
      A.PacketsOfAppend(if callbacks[0].cid == h then [callbacks[0]] else [], CallbacksAbout(callbacks[1..], h), h);
      assert [callbacks[0]][1..] == [];
    }
  }
}
