/**
 Two runs of the main loop from the start that do what the theorems leave room for: one in which a pass strikes the
 socket it saved as next and breaks the socket pool, and one for either kind of refusal that loses a complete frame.
 Two connections and one package buffer are enough.
 */
module TconndWitness {
  import opened Basics
  import opened Sip
  import opened TconndState
  import opened TconndOwnership
  import opened TconndSteps
  import opened TconndStream
  import opened TconndDelivery
  import opened TconndLoop
  import opened TconndService
  import F = Framing
  import P = MempoolSpec
  import A = Tconnapi

  const CONFIG: Config := Config(10, 1, 5, 2, 5)
  const SPACE: nat := 100

  /** Two connections in these states, with nothing cached yet. */
  function Both(status: Status, readable0: bool, readable1: bool): seq<Socket> {
    var s := BLANK.(status := status, pendingTicks := 5);
    [s.(readable := readable0), s.(readable := readable1)]
  }

  ghost predicate Joined(st: State) {
    && Shape(st) && st.config == CONFIG && st.curTicks == 0
    && st.socketPool == P.Pool(2, [0, 1], [], [1, 0])
    && st.packagePool == P.Pool(0, [P.INVALID_ID], [0], [])
    && st.packageList == []
  }

  /** The server was told of both connections, and nothing was received yet. */
  ghost predicate Fresh(st: State) {
    && st.outbox == [Req(CMD_CONNECT, Cid(0, 0), []), Req(CMD_CONNECT, Cid(1, 1), [])]
    && st.received == map[]
  }

  lemma FirstConnect(st: State, io: ListenIo)
    requires st == Start(CONFIG) && io == ListenIo(REQ_SIZE, true)
    ensures var r := Listen(st, io).0;
      && Listen(st, io).1 == NoError && r.config == CONFIG && r.curTicks == 0
      && r.socketPool == P.Pool(1, [0, P.INVALID_ID], [1], [0])
      && r.packagePool == P.Pool(0, [P.INVALID_ID], [0], []) && r.packageList == []
      && r.sockets == [Both(SynSent, false, false)[0], BLANK] && r.pendingList == [0] && r.readableList == []
      && r.outbox == [Req(CMD_CONNECT, Cid(0, 0), [])] && r.received == map[] && |r.buffs| == 1
  {
    assert st.socketPool == P.Pool(0, [P.INVALID_ID, P.INVALID_ID], [0, 1], []);
    assert st.sockets == [BLANK, BLANK];
    assert st.packagePool == P.Pool(0, [P.INVALID_ID], [0], []);
    assert [0, 1][1..] == [1];
  }

  lemma SecondConnect(st: State, io: ListenIo)
    requires Shape(st) && io == ListenIo(REQ_SIZE, true) && st.config == CONFIG && st.curTicks == 0
    requires st.socketPool == P.Pool(1, [0, P.INVALID_ID], [1], [0])
    requires st.packagePool == P.Pool(0, [P.INVALID_ID], [0], []) && st.packageList == []
    requires st.sockets == [Both(SynSent, false, false)[0], BLANK] && st.pendingList == [0]
    requires st.outbox == [Req(CMD_CONNECT, Cid(0, 0), [])] && st.received == map[]
    ensures var r := Listen(st, io).0;
      && Listen(st, io).1 == NoError && Joined(r) && Fresh(r) && r.sockets == Both(SynSent, false, false)
      && r.pendingList == [0, 1] && r.readableList == st.readableList
  {
    assert [1][1..] == [];
    assert Listen(st, io).0.socketPool == P.Pool(2, [0, 1], [], [1, 0]);
  }

  /** Both connections come in one pass. */
  lemma TwoConnects(turns: seq<Turn>)
    requires turns == [OnListener(ListenIo(REQ_SIZE, true)), OnListener(ListenIo(REQ_SIZE, true))]
    ensures Possible(Start(CONFIG), [], turns) && Spares(Start(CONFIG), [], turns)
    ensures var st := Walk(Start(CONFIG), [], turns);
      && Joined(st) && Fresh(st) && st.sockets == Both(SynSent, false, false) && st.pendingList == [0, 1]
      && st.readableList == []
  {
    var st0, io := Start(CONFIG), turns[0].listenIo;
    FirstConnect(st0, io);
    var st1 := Listen(st0, io).0;
    SecondConnect(st1, io);
    assert turns[1..] == [OnListener(io)] && turns[1..][1..] == [];
    WalkOn(st0, st1, NoError, [], turns[0], turns);
    WalkOn(st1, Listen(st1, io).0, NoError, [], turns[0], turns[1..]);
    ListenerTurn(st1, [], turns[1..]);
    ListenerTurn(st0, [], turns);
  }

  lemma WalkOn(st: State, st1: State, ret: Ret, rest: seq<nat>, turn: Turn, turns: seq<Turn>)
    requires Shape(st) && Below(rest, |st.sockets|) && turns != [] && turns[0] == turn && turn.OnListener?
    requires Listen(st, turn.listenIo) == (st1, ret) && ret == NoError
    ensures Walk(st, rest, turns) == Walk(st1, rest, turns[1..])
  {
  }

  lemma ListenerTurn(st: State, rest: seq<nat>, turns: seq<Turn>)
    requires Shape(st) && Below(rest, |st.sockets|) && turns != [] && turns[0].OnListener?
    requires Listen(st, turns[0].listenIo).1 == NoError
    requires var st1 := Listen(st, turns[0].listenIo).0;
      Possible(st1, rest, turns[1..]) && Spares(st1, rest, turns[1..])
    ensures Possible(st, rest, turns) && Spares(st, rest, turns)
  {
  }

  const OS: Os := Os(_ => WriteFailed, _ => true)

  lemma AcceptOne(w: Work, id: nat)
    requires WorkShape(w) && id < |w.st.sockets| && Live(w.st, Cid(id, id)) && !w.st.sockets[id].writable
    requires w.st.sockets[id].status == SynSent
    ensures Deliver(w, Delivery(Cid(id, id), CMD_ACCEPT, []), OS) ==
      Work(w.st.(sockets := w.st.sockets[id := w.st.sockets[id].(status := Established, writable := true)],
                 pendingList := Unlink(w.st.pendingList, id), calls := w.st.calls + 1),
           w.writable + [id])
  {
  }

  lemma FlushIdle(st: State, id: nat)
    requires Shape(st) && id < |st.sockets| && st.sockets[id].status == Established && st.sockets[id].iov == []
    ensures FlushOne(st, id, OS) == st.(sockets := st.sockets[id := st.sockets[id].(writable := false)])
  {
  }

  lemma DeliverTwo(w: Work, d0: Delivery, d1: Delivery)
    requires WorkShape(w)
    ensures DeliverAll(w, [d0, d1], OS) == Deliver(Deliver(w, d0, OS), d1, OS)
  {
    var w1 := Deliver(w, d0, OS);
    var w2 := Deliver(w1, d1, OS);
    assert [d0, d1][1..] == [d1] && [d1][1..] == [];
    assert DeliverAll(w2, [], OS) == w2;
    assert DeliverAll(w1, [d1], OS) == w2;
  }

  lemma FlushNext(st: State, id: nat, rest: seq<nat>)
    requires Shape(st) && id < |st.sockets| && Below(rest, |st.sockets|)
    ensures FlushAll(st, [id] + rest, OS) == FlushAll(FlushOne(st, id, OS), rest, OS)
  {
    assert ([id] + rest)[1..] == rest;
  }

  lemma AcceptDeliveries(msg: Bytes)
    requires DecodeRsp(msg) == Rsp(CMD_ACCEPT, [Cid(0, 0), Cid(1, 1)], [])
    ensures Deliveries([msg]) ==
      [Delivery(Cid(0, 0), CMD_ACCEPT, []), Delivery(Cid(1, 1), CMD_ACCEPT, [])]
  {
    assert [Cid(0, 0), Cid(1, 1)][1..] == [Cid(1, 1)] && [Cid(1, 1)][1..] == [];
    assert ForEachCid([Cid(1, 1)], CMD_ACCEPT, []) == [Delivery(Cid(1, 1), CMD_ACCEPT, [])];
    assert [msg][1..] == [] && Deliveries([]) == [];
  }

  lemma BothDelivered(st: State)
    requires Joined(st) && st.sockets == Both(SynSent, false, false) && st.pendingList == [0, 1]
    ensures var w := Deliver(Deliver(Work(st, []), Delivery(Cid(0, 0), CMD_ACCEPT, []), OS),
                             Delivery(Cid(1, 1), CMD_ACCEPT, []), OS);
      && Joined(w.st) && w.writable == [0, 1] && w.st.readableList == st.readableList
      && w.st.outbox == st.outbox && w.st.received == st.received
      && w.st.sockets[0] == Both(Established, false, false)[0].(writable := true)
      && w.st.sockets[1] == Both(Established, false, false)[1].(writable := true)
  {
    AcceptOne(Work(st, []), 0);
    AcceptOne(Deliver(Work(st, []), Delivery(Cid(0, 0), CMD_ACCEPT, []), OS), 1);
  }

  lemma BothFlushed(st: State)
    requires Joined(st)
    requires st.sockets[0] == Both(Established, false, false)[0].(writable := true)
    requires st.sockets[1] == Both(Established, false, false)[1].(writable := true)
    ensures var r := FlushAll(st, [0, 1], OS);
      && Joined(r) && r.sockets == Both(Established, false, false) && r.readableList == st.readableList
      && r.outbox == st.outbox && r.received == st.received
  {
    FlushNext(st, 0, [1]);
    FlushIdle(st, 0);
    var st1 := FlushOne(st, 0, OS);
    FlushNext(st1, 1, []);
    FlushIdle(st1, 1);
    assert [0] + [1] == [0, 1] && [1] + [] == [1];
  }

  /** The server's application accepts both connections with one message. */
  lemma BothAccepted(st: State, msg: Bytes)
    requires Joined(st) && st.sockets == Both(SynSent, false, false) && st.pendingList == [0, 1]
    requires DecodeRsp(msg) == Rsp(CMD_ACCEPT, [Cid(0, 0), Cid(1, 1)], [])
    ensures var r := ProcessInput(st, [msg], OS);
      && Joined(r) && r.sockets == Both(Established, false, false) && r.readableList == st.readableList
      && r.outbox == st.outbox && r.received == st.received
  {
    AcceptDeliveries(msg);
    DeliverTwo(Work(st, []), Delivery(Cid(0, 0), CMD_ACCEPT, []), Delivery(Cid(1, 1), CMD_ACCEPT, []));
    BothDelivered(st);
    var w := DeliverAll(Work(st, []), Deliveries([msg]), OS);
    BothFlushed(w.st);
  }

  /** Both connections are accepted and have something to read. */
  ghost predicate AtWork(st: State) {
    Joined(st) && Fresh(st) && st.sockets == Both(Established, true, true) && st.readableList == [0, 1]
  }

  lemma BothReadable(st: State)
    requires Joined(st) && Fresh(st) && st.sockets == Both(Established, false, false) && st.readableList == []
    ensures Enabled(st, Readable(0)) && Enabled(Apply(st, Readable(0)), Readable(1))
    ensures AtWork(Apply(Apply(st, Readable(0)), Readable(1)))
  {
  }

  lemma AcceptMessage() returns (msg: Bytes)
    ensures DecodeRsp(msg) == Rsp(CMD_ACCEPT, [Cid(0, 0), Cid(1, 1)], [])
  {
    var a := Answer(CMD_ACCEPT, [Cid(0, 0), Cid(1, 1)], None);
    msg := Encode(a, SPACE, _ => 0);
    RspRoundTrip(a, SPACE, _ => 0);
  }


  // ----- loops, event by event -----

  /** A run of the loop so far, and whether it spared every next socket. */
  ghost predicate Reached(events: seq<Event>, st: State) {
    Loop(Start(CONFIG), events) == Some(st) && SparesNext(Start(CONFIG), events)
  }

  lemma {:induction false} LoopSnoc(st0: State, events: seq<Event>, st: State, event: Event)
    requires Shape(st0) && Loop(st0, events) == Some(st) && Happens(st, event)
    ensures Loop(st0, events + [event]) == Some(Handle(st, event))
    ensures SparesNext(st0, events + [event]) <==>
      SparesNext(st0, events) && (event.Pass? ==> Spares(st, st.readableList, event.turns))
    decreases |events|
  {
    var longer := events + [event];
    if events == [] {
      assert longer[1..] == [];
      assert Loop(Handle(st, event), longer[1..]) == Some(Handle(st, event));
    } else {
      assert longer[1..] == events[1..] + [event];
      LoopSnoc(Handle(st0, events[0]), events[1..], st, event);
    }
  }

  lemma Next(events: seq<Event>, st: State, event: Event) returns (longer: seq<Event>)
    requires Reached(events, st) && Happens(st, event)
    requires event.Pass? ==> Spares(st, st.readableList, event.turns)
    ensures Reached(longer, Handle(st, event))
  {
    LoopSnoc(Start(CONFIG), events, st, event);
    longer := events + [event];
  }

  lemma ComeToWork() returns (events: seq<Event>, st: State)
    ensures Reached(events, st) && AtWork(st)
  {
    var turns := [OnListener(ListenIo(REQ_SIZE, true)), OnListener(ListenIo(REQ_SIZE, true))];
    TwoConnects(turns);
    st := Start(CONFIG);
    events := Next([], st, Pass(turns));
    st := Walk(st, [], turns);
    var msg := AcceptMessage();
    BothAccepted(st, msg);
    events := Next(events, st, Call(Input([msg], OS)));
    st := ProcessInput(st, [msg], OS);
    BothReadable(st);
    events := Next(events, st, Call(Readable(0)));
    st := Apply(st, Readable(0));
    events := Next(events, st, Call(Readable(1)));
    st := Apply(st, Readable(1));
  }

  // ----- the socket saved as next -----

  /** An empty frame on one connection and half a header on the other; then anything, with space, on both. */
  const FRAME: RecvIo := RecvIo(SPACE, Data([0, 0]))
  const HALF: RecvIo := RecvIo(SPACE, Data([1]))
  const FAILED: RecvIo := RecvIo(SPACE, RecvFailed)

  /** The pool is empty, and the socket that holds its only buffer is the second one to be served. */
  ghost predicate Poised(st: State) {
    && Shape(st) && |st.sockets| == 2 && st.readableList == [0, 1] && st.packageList == [1]
    && P.Empty(st.packagePool) && st.sockets[0].packageBuff == None
    && st.socketPool == P.Pool(2, [0, 1], [], [1, 0])
  }

  lemma FrameGoesOut(st: State)
    requires AtWork(st)
    ensures var r := Serve(st, 0, FRAME);
      && Recv(st, 0, FRAME).1 == NoError && Joined(r) && r.sockets == Both(Established, true, true)
      && r.readableList == [0, 1]
  {
    var s := [0, 0];
    assert s[0..] == s && F.FrameLen(s) == 0;
    assert F.CutFrom(s, 2, 10) == F.CutAt(2);
    assert F.CutFrom(s, 0, 10) == F.CutAt(2);
    assert Received(FRAME, 0) == s && [] + s == s;
    assert Serve(st, 0, FRAME) == Emit(TakeIn(st, 0, s), 0, s, 2);
  }

  lemma HalfIsCached(st: State)
    requires Joined(st) && st.sockets == Both(Established, true, true) && st.readableList == [0, 1]
    ensures Recv(st, 1, HALF).1 == NoError && Poised(Serve(st, 1, HALF))
  {
    assert F.CutFrom([1], 0, 10) == F.CutAt(0);
    assert Received(HALF, 0) == [1] && [] + [1] == [1];
    assert Serve(st, 1, HALF) == Emit(TakeIn(st, 1, [1]), 1, [1], 0);
  }

  lemma FirstPass(st: State)
    requires AtWork(st)
    ensures var turns := [OnSocket(FRAME), OnSocket(HALF)];
      && Possible(st, [0, 1], turns) && Spares(st, [0, 1], turns) && Poised(Walk(st, [0, 1], turns))
  {
    var turns := [OnSocket(FRAME), OnSocket(HALF)];
    FrameGoesOut(st);
    var st1 := Serve(st, 0, FRAME);
    HalfIsCached(st1);
    assert [0, 1][1..] == [1] && turns[1..] == [OnSocket(HALF)] && turns[1..][1..] == [];
    assert Onward(st, [0, 1], turns) == [1];
    assert Walk(st1, [1], turns[1..]) == Serve(st1, 1, HALF);
  }

  lemma SecondPass(st: State)
    requires Poised(st)
    ensures var turns := [OnSocket(FRAME), OnSocket(FAILED)];
      Possible(st, [0, 1], turns) && !Spares(st, [0, 1], turns)
  {
    var turns := [OnSocket(FRAME), OnSocket(FAILED)];
    assert Recv(st, 0, FRAME).1 == NoMemory;
    assert [0, 1][1..] == [1] && turns[1..] == [OnSocket(FAILED)] && turns[1..][1..] == [];
    assert Onward(st, [0, 1], turns) == [1];
  }

  /** A run of the loop after which the socket pool has a slot on its lists twice. */
  lemma EvictionBreaksPool() returns (events: seq<Event>, st: State)
    ensures Loop(Start(CONFIG), events) == Some(st)
    ensures !SparesNext(Start(CONFIG), events) && !P.Partition(st.socketPool)
  {
    events, st := ComeToWork();
    FirstPass(st);
    var turns := [OnSocket(FRAME), OnSocket(HALF)];
    events := Next(events, st, Pass(turns));
    st := Walk(st, [0, 1], turns);
    SecondPass(st);
    turns := [OnSocket(FRAME), OnSocket(FAILED)];
    LoopSnoc(Start(CONFIG), events, st, Pass(turns));
    events := events + [Pass(turns)];
    st := Walk(st, [0, 1], turns);
    LoopKeepsInvExactly(CONFIG, events, st);
  }

  // ----- frames lost in a refusal -----

  /** A complete frame with body 7, and behind it a header that announces too much. */
  const OVERSIZE: Bytes := [1, 0, 7, 255, 255]
  /** The same frame, and behind it all but the last byte of a frame with package_size bytes. */
  const ONE_SHORT: Bytes := [1, 0, 7, 10, 0, 1, 2, 3, 4, 5, 6, 7, 8, 9]

  lemma FirstFrame(s: Bytes, packageSize: nat)
    requires |s| >= 3 && s[0] == 1 && s[1] == 0 && packageSize > 0
    ensures F.Split(s).0 == [[s[2]]] + F.Split(s[3..]).0
    ensures F.CutFrom(s, 0, packageSize) == F.CutFrom(s, 3, packageSize)
  {
    assert s[0..] == s && F.FrameLen(s) == 1 && s[2..3] == [s[2]];
  }

  lemma BothRefused()
    ensures F.Split(OVERSIZE).0 == [[7]] && F.CutFrom(OVERSIZE, 0, 10).Oversize?
    ensures F.Split(ONE_SHORT).0 == [[7]] && F.CutFrom(ONE_SHORT, 0, 10) == F.CutAt(3)
  {
    FirstFrame(OVERSIZE, 10);
    FirstFrame(ONE_SHORT, 10);
    assert OVERSIZE[3..] == [255, 255] && F.FrameLen(OVERSIZE[3..]) == 65535;
    assert F.FrameLen(ONE_SHORT[3..]) == 10 && |ONE_SHORT[3..]| == 11;
    assert [[7]] + [] == [[7]];
  }

  lemma RefusedAtWork(st: State, chunk: Bytes)
    requires AtWork(st) && (chunk == OVERSIZE || chunk == ONE_SHORT)
    ensures var io := RecvIo(SPACE, Data(chunk)); var r := Serve(st, 0, io);
      && Recv(st, 0, io).1 == Close && r.outbox == st.outbox && StreamOf(r, Cid(0, 0)) == chunk
  {
    var io := RecvIo(SPACE, Data(chunk));
    BothRefused();
    assert Received(io, 0) == chunk && [] + chunk == chunk;
    assert Refuses(st, 0, io);
    RefusalServes(st, 0, io);
  }

  lemma NothingHeard(msgs: seq<Req>, fill: Filler)
    requires msgs == [Req(CMD_CONNECT, Cid(0, 0), []), Req(CMD_CONNECT, Cid(1, 1), [])]
    ensures A.PacketsOf(A.Heard(msgs, fill), Cid(0, 0)) == []
  {
    A.HeardIsSplit(msgs, fill, Cid(0, 0));
    assert msgs[1..] == [Req(CMD_CONNECT, Cid(1, 1), [])] && msgs[1..][1..] == [];
    assert A.DataOf(msgs[1..], Cid(0, 0)) == [];
    assert A.DataOf(msgs, Cid(0, 0)) == [];
  }

  lemma RefusalPass(st: State, chunk: Bytes)
    requires AtWork(st) && (chunk == OVERSIZE || chunk == ONE_SHORT)
    ensures var turns := [OnSocket(RecvIo(SPACE, Data(chunk)))];
      && Possible(st, [0, 1], turns) && Spares(st, [0, 1], turns)
      && Walk(st, [0, 1], turns) == Serve(st, 0, turns[0].io)
  {
    var turns := [OnSocket(RecvIo(SPACE, Data(chunk)))];
    RefusedAtWork(st, chunk);
    assert turns[1..] == [];
  }

  /** Either refusal: a complete frame arrived and is never heard. */
  lemma RefusalLosesFrame(chunk: Bytes, fill: Filler) returns (events: seq<Event>, st: State)
    requires chunk == OVERSIZE || chunk == ONE_SHORT
    ensures Reached(events, st) && StreamOf(st, Cid(0, 0)) == chunk && F.Split(chunk).0 == [[7]]
    ensures A.PacketsOf(A.Heard(st.outbox, fill), Cid(0, 0)) == []
    ensures LostFrames(CONFIG, events, Cid(0, 0)) == [[7]]
  {
    events, st := ComeToWork();
    var turns := [OnSocket(RecvIo(SPACE, Data(chunk)))];
    RefusalPass(st, chunk);
    RefusedAtWork(st, chunk);
    NothingHeard(st.outbox, fill);
    events := Next(events, st, Pass(turns));
    st := Serve(st, 0, turns[0].io);
    BothRefused();
    LostIsWhatIsMissing(events, st, fill);
  }

  lemma LostIsWhatIsMissing(events: seq<Event>, st: State, fill: Filler)
    requires Reached(events, st) && A.PacketsOf(A.Heard(st.outbox, fill), Cid(0, 0)) == []
    ensures LostFrames(CONFIG, events, Cid(0, 0)) == F.Split(StreamOf(st, Cid(0, 0))).0
  {
    EndToEnd(CONFIG, events, st, Cid(0, 0), fill);
    var lost := LostFrames(CONFIG, events, Cid(0, 0));
    assert [] + lost == lost;
  }
}
