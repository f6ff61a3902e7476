/**
 How long things last, over any run of calls: a tail waits in its buffer for package_ticks_limit ticks and no longer, a new
 connection waits for the server's answer for accept_ticks_limit ticks, and a connection that epoll reported readable
 stays on the readable list until a receive on it meets EAGAIN.
 */
module TconndTime {
  import opened Basics
  import opened Sip
  import opened TconndState
  import opened TconndOwnership
  import opened TconndSteps
  import opened TconndStream
  import opened TconndStarvation
  import opened TconndReceive
  import opened TconndFates
  import F = Framing
  import P = MempoolSpec

  // ----- the clock -----

  /** The ticks counted by the timer during these steps. */
  function Elapsed(steps: seq<Step>): nat {
    if steps == [] then 0 else (if steps[0].Tick? then steps[0].c else 0) + Elapsed(steps[1..])
  }

  // ----- what calls leave alone -----

  /** A connection that is still there after a step was there before, waits for the same answer or has been accepted, and
      is on the readable list if it was before. */
  ghost predicate Unmoved(a: State, b: State) {
    && Shape(a) && Shape(b) && |a.sockets| == |b.sockets| && a.curTicks == b.curTicks && a.config == b.config
    && forall h :: Live(b, h) ==> Live(a, h) && SameButAccepted(a.sockets[h.id], b.sockets[h.id])
  }

  ghost predicate SameButAccepted(s: Socket, r: Socket) {
    && r.pendingTicks == s.pendingTicks && r.readable == s.readable
    && (r.status == s.status || (s.status == SynSent && r.status == Established))
  }

  lemma UnmovedTwice(a: State, b: State, c: State)
    requires Unmoved(a, b) && Unmoved(b, c)
    ensures Unmoved(a, c)
  {
  }

  lemma FlushMoves(st: State, id: nat, os: Os)
    requires Shape(st) && id < |st.sockets|
    ensures var r := Flush(st, id, os).0;
      r.curTicks == st.curTicks && SameButAccepted(st.sockets[id], r.sockets[id])
  {
  }

  lemma SendMoves(st: State, id: nat, body: Bytes, os: Os)
    requires Shape(st) && id < |st.sockets|
    ensures var r := OnCmdSend(st, id, body, os).0;
      r.curTicks == st.curTicks && SameButAccepted(st.sockets[id], r.sockets[id])
  {
    FlushMoves(st, id, os);
  }

  lemma PushMoves(st: State, id: nat, cmd: nat, body: Bytes, os: Os)
    requires Shape(st) && id < |st.sockets|
    ensures var r := PushPkg(st, id, cmd, body, os).0;
      r.curTicks == st.curTicks && SameButAccepted(st.sockets[id], r.sockets[id])
  {
    if cmd == CMD_SEND {
      SendMoves(st, id, body, os);
    } else {
      FlushMoves(st, id, os);
    }
  }

  lemma DeleteMoves(st: State, id: nat)
    requires Shape(st) && id < |st.sockets|
    ensures Unmoved(st, Delete(st, id))
  {
    DeleteRecords(st, id);
  }

  /** One socket changes as a push or a flush does. */
  lemma SocketMoves(a: State, b: State, id: nat)
    requires Shape(a) && Shape(b) && id < |a.sockets| == |b.sockets| && b.sockets == a.sockets[id := b.sockets[id]]
    requires a.curTicks == b.curTicks && a.config == b.config && b.socketPool == a.socketPool
    requires SameButAccepted(a.sockets[id], b.sockets[id])
    ensures Unmoved(a, b)
  {
  }

  lemma MarkMoves(st: State, id: nat, flag: bool)
    requires Shape(st) && id < |st.sockets|
    ensures Unmoved(st, SetSocket(st, id, st.sockets[id].(writable := flag)))
  {
  }

  lemma DeliverMoves(w: Work, d: Delivery, os: Os)
    requires WorkShape(w)
    ensures Unmoved(w.st, Deliver(w, d, os).st)
  {
    if Live(w.st, d.cid) {
      var id := d.cid.id;
      var (st1, ret) := PushPkg(w.st, id, d.cmd, d.body, os);
      PushRecords(w.st, id, d.cmd, d.body, os);
      PushMoves(w.st, id, d.cmd, d.body, os);
      SocketMoves(w.st, st1, id);
      var unmarked := SetSocket(st1, id, st1.sockets[id].(writable := false));
      MarkMoves(st1, id, ret != Close);
      UnmovedTwice(w.st, st1, SetSocket(st1, id, st1.sockets[id].(writable := ret != Close)));
      if ret == Close {
        DeleteMoves(st1, id);
        DeleteMoves(unmarked, id);
        UnmovedTwice(w.st, st1, Delete(st1, id));
        UnmovedTwice(w.st, unmarked, Delete(unmarked, id));
      }
    }
  }

  lemma {:induction false} DeliverAllMoves(w: Work, ds: seq<Delivery>, os: Os)
    requires WorkShape(w)
    ensures Unmoved(w.st, DeliverAll(w, ds, os).st)
    decreases |ds|
  {
    if ds != [] {
      var w1 := Deliver(w, ds[0], os);
      DeliverMoves(w, ds[0], os);
      DeliverAllMoves(w1, ds[1..], os);
      UnmovedTwice(w.st, w1.st, DeliverAll(w1, ds[1..], os).st);
    }
  }

  lemma FlushOneMoves(st: State, id: nat, os: Os)
    requires Shape(st) && id < |st.sockets|
    ensures Unmoved(st, FlushOne(st, id, os))
  {
    var st1 := Flush(st, id, os).0;
    FlushRecords(st, id, os);
    FlushMoves(st, id, os);
    SocketMoves(st, st1, id);
    MarkMoves(st1, id, false);
    var unmarked := SetSocket(st1, id, st1.sockets[id].(writable := false));
    UnmovedTwice(st, st1, unmarked);
    DeleteMoves(unmarked, id);
    UnmovedTwice(st, unmarked, Delete(unmarked, id));
  }

  lemma {:induction false} FlushAllMoves(st: State, writable: seq<nat>, os: Os)
    requires Shape(st) && Below(writable, |st.sockets|)
    ensures Unmoved(st, FlushAll(st, writable, os))
    decreases |writable|
  {
    if writable != [] {
      var st1 := FlushOne(st, writable[0], os);
      FlushOneMoves(st, writable[0], os);
      FlushAllMoves(st1, writable[1..], os);
      UnmovedTwice(st, st1, FlushAll(st1, writable[1..], os));
    }
  }

  lemma {:induction false} ExpireMoves(d: Deadline, st: State, rest: seq<nat>)
    requires Shape(st) && Below(rest, |st.sockets|)
    ensures Unmoved(st, Expire(d, st, rest))
    decreases |rest|
  {
    if rest != [] && Due(d, st.sockets[rest[0]]) <= st.curTicks {
      var st1 := Delete(st, rest[0]);
      DeleteMoves(st, rest[0]);
      ExpireMoves(d, st1, rest[1..]);
      UnmovedTwice(st, st1, Expire(d, st1, rest[1..]));
    }
  }

  lemma InputMoves(st: State, batch: seq<Bytes>, os: Os)
    requires Shape(st)
    ensures Unmoved(st, ProcessInput(st, batch, os))
  {
    var w := DeliverAll(Work(st, []), Deliveries(batch), os);
    DeliverAllMoves(Work(st, []), Deliveries(batch), os);
    FlushAllMoves(w.st, w.writable, os);
    UnmovedTwice(st, w.st, ProcessInput(st, batch, os));
  }

  lemma TimerMoves(st: State)
    requires Shape(st)
    ensures Unmoved(st, TimerProcess(st))
  {
    var st1 := Expire(Pending, st, st.pendingList);
    ExpireMoves(Pending, st, st.pendingList);
    ExpireMoves(Package, st1, st1.packageList);
    UnmovedTwice(st, st1, TimerProcess(st));
  }

  // ----- what a turn leaves alone -----

  lemma TakeInMoves(st: State, id: nat, chunk: Bytes)
    requires Shape(st) && id < |st.sockets|
    ensures var r := TakeIn(st, id, chunk);
      r.curTicks == st.curTicks && SameButAccepted(st.sockets[id], r.sockets[id])
  {
  }

  lemma EmitMoves(st: State, id: nat, buf: Bytes, pos: nat)
    requires Shape(st) && id < |st.sockets| && pos <= |buf| && !P.Empty(st.packagePool)
    ensures var r := Emit(st, id, buf, pos);
      r.curTicks == st.curTicks && SameButAccepted(st.sockets[id], r.sockets[id])
  {
  }

  lemma GoesMoves(st: State, id: nat, io: RecvIo)
    requires Inv(st) && Enabled(st, Receive(id, io)) && Asks(st, id, io) && Chunk(st, id, io) != []
    requires !Breaks(Held(st, id, io), st.config.packageSize)
    ensures var r := Serve(st, id, io); r.curTicks == st.curTicks && SameButAccepted(st.sockets[id], r.sockets[id])
  {
    ChunkIsReceived(st, id, io);
    RefusalIsExact(st, id, io);
    RecvEmits(st, id, io);
    TakeInMoves(st, id, Chunk(st, id, io));
    EmitMoves(TakeIn(st, id, Chunk(st, id, io)), id, Held(st, id, io),
              F.CutFrom(Held(st, id, io), 0, st.config.packageSize).pos);
  }

  /** The turn of another connection, or one that does not ask recv, only ever deletes. */
  lemma TurnOfAnother(st: State, id: nat, io: RecvIo, h: Cid)
    requires Inv(st) && Enabled(st, Receive(id, io)) && (CidOf(st, id) != h || !Asks(st, id, io))
    ensures var r := Serve(st, id, io); Live(r, h) ==>
      && Live(st, h) && h.id < |st.sockets| == |r.sockets| && r.sockets[h.id] == st.sockets[h.id]
      && Cached(r, h.id) == Cached(st, h.id)
  {
    RetriesExactly(st, id, io);
    if !Asks(st, id, io) {
      if st.packageList != [] {
        DeleteRecords(st, st.packageList[0]);
      }
    } else {
      DifferentOwner(st, id, io, h);
    }
  }

  lemma DifferentOwner(st: State, id: nat, io: RecvIo, h: Cid)
    requires Inv(st) && Enabled(st, Receive(id, io)) && Asks(st, id, io) && CidOf(st, id) != h
    ensures var r := Serve(st, id, io); Live(r, h) ==>
      && Live(st, h) && h.id < |st.sockets| == |r.sockets| && r.sockets[h.id] == st.sockets[h.id]
      && Cached(r, h.id) == Cached(st, h.id)
  {
    OnlyDeletes(st, id, io, h);
    LiveIsUsed(st, h);
    if Live(st, h) {
      TurnSparesOthers(st, id, io, h.id);
    }
  }

  lemma ReactDeletes(st: State, id: nat, ret: Ret, h: Cid)
    requires Shape(st) && id < |st.sockets|
    ensures Live(React(st, id, ret), h) ==> Live(st, h)
    ensures React(st, id, ret).socketPool.sn == st.socketPool.sn
  {
    DeleteRecords(st, id);
    if st.packageList != [] {
      DeleteRecords(st, st.packageList[0]);
    }
  }

  /** A turn makes no handle live. */
  lemma OnlyDeletes(st: State, id: nat, io: RecvIo, h: Cid)
    requires Inv(st) && Enabled(st, Receive(id, io))
    ensures Live(Serve(st, id, io), h) ==> Live(st, h)
    ensures Serve(st, id, io).socketPool.sn == st.socketPool.sn
  {
    ReadableIsEstablished(st, id);
    RecvKeepsInv(st, id, io);
    ReactDeletes(Recv(st, id, io).0, id, Recv(st, id, io).1, h);
  }

  // ----- steps -----

  /** A receive on this connection that got bytes. */
  predicate Refreshes(st: State, step: Step, h: Cid)
    requires Shape(st) && Enabled(st, step)
  {
    step.Receive? && CidOf(st, step.id) == h && Asks(st, step.id, step.io) && Chunk(st, step.id, step.io) != []
  }

  /** A receive on this connection that met EAGAIN. */
  predicate Drains(st: State, step: Step, h: Cid)
    requires Shape(st) && Enabled(st, step)
  {
    step.Receive? && CidOf(st, step.id) == h && Asks(st, step.id, step.io) && step.io.outcome.Eagain?
  }

  /** What is known of a connection while it lives: the tail it holds and since when, whether it is on the readable
      list, and until when the server may accept it. */
  datatype Facts = Facts(tail: Option<(Bytes, nat)>, readable: bool, acceptBy: Option<nat>)

  ghost predicate TrueOf(st: State, h: Cid, facts: Facts)
    requires Shape(st)
  {
    && h.sn < st.socketPool.sn
    && (Live(st, h) ==>
          && h.id < |st.sockets|
          && (facts.tail.Some? ==>
                && st.sockets[h.id].packageBuff.Some? && st.sockets[h.id].packageTicks == facts.tail.value.1
                && Cached(st, h.id) == facts.tail.value.0)
          && (facts.readable ==> st.sockets[h.id].readable)
          && (facts.acceptBy.Some? && st.sockets[h.id].status == SynSent ==>
                st.sockets[h.id].pendingTicks == facts.acceptBy.value))
  }

  /** The two relations together: nothing received, nobody moved. */
  lemma QuietStepKeepsFacts(a: State, b: State, h: Cid, facts: Facts)
    requires Shrinks(a, b) && Unmoved(a, b) && TrueOf(a, h, facts)
    ensures TrueOf(b, h, facts)
  {
  }

  lemma AcceptKeepsFacts(st: State, io: ListenIo, h: Cid, facts: Facts)
    requires Inv(st) && TrueOf(st, h, facts)
    ensures TrueOf(Listen(st, io).0, h, facts)
  {
    AdmitsExactly(st, io);
    if Welcome(st, io) {
      var r, joined := Listen(st, io).0, Cid(st.socketPool.unused[0], st.socketPool.sn);
      P.AllocPartitions(st.socketPool);
      LiveIsUsed(st, h);
      assert r.buffs == st.buffs && r.socketPool.sn == st.socketPool.sn + 1;
      if Live(r, h) {
        assert h != joined && h.id != joined.id;
      }
    }
  }

  lemma NotifyKeepsFacts(st: State, id: nat, h: Cid, facts: Facts)
    requires Inv(st) && Enabled(st, Readable(id)) && TrueOf(st, h, facts)
    ensures TrueOf(Notify(st, id), h, facts)
  {
  }

  lemma TurnKeepsFacts(st: State, id: nat, io: RecvIo, h: Cid, facts: Facts)
    requires Inv(st) && Enabled(st, Receive(id, io)) && TrueOf(st, h, facts)
    requires facts.tail.Some? ==> !Refreshes(st, Receive(id, io), h)
    requires facts.readable ==> !Drains(st, Receive(id, io), h)
    ensures TrueOf(Serve(st, id, io), h, facts)
  {
    OnlyDeletes(st, id, io, h);
    if CidOf(st, id) != h || !Asks(st, id, io) {
      TurnOfAnother(st, id, io, h);
    } else {
      OwnTurnKeepsFacts(st, id, io, facts);
    }
  }

  lemma OwnTurnKeepsFacts(st: State, id: nat, io: RecvIo, facts: Facts)
    requires Inv(st) && Enabled(st, Receive(id, io)) && Asks(st, id, io) && TrueOf(st, CidOf(st, id), facts)
    requires facts.tail.Some? ==> Chunk(st, id, io) == []
    requires facts.readable ==> !io.outcome.Eagain?
    ensures TrueOf(Serve(st, id, io), CidOf(st, id), facts)
  {
    var h := CidOf(st, id);
    ReadableIsEstablished(st, id);
    LiveIsUsed(st, h);
    ChunkIsReceived(st, id, io);
    OnlyDeletes(st, id, io, h);
    if HangsUp(io) {
      HangUp(st, id, io);
    } else if io.outcome.Eagain? {
      EagainPauses(st, id, io);
    } else if Breaks(Held(st, id, io), st.config.packageSize) {
      Refusal(st, id, io);
    } else {
      Goes(st, id, io);
      GoesMoves(st, id, io);
    }
  }

  lemma StepKeepsFacts(st: State, step: Step, h: Cid, facts: Facts)
    requires Inv(st) && Enabled(st, step) && TrueOf(st, h, facts)
    requires facts.tail.Some? ==> !Refreshes(st, step, h)
    requires facts.readable ==> !Drains(st, step, h)
    ensures TrueOf(Apply(st, step), h, facts)
  {
    match step
    case Tick(c) =>
    case Accept(io) => AcceptKeepsFacts(st, io, h, facts);
    case Readable(id) => NotifyKeepsFacts(st, id, h, facts);
    case Receive(id, io) => TurnKeepsFacts(st, id, io, h, facts);
    case Input(batch, os) =>
      ProcessInputShrinks(st, batch, os);
      InputMoves(st, batch, os);
      QuietStepKeepsFacts(st, ProcessInput(st, batch, os), h, facts);
    case Timer =>
      TimerShrinks(st);
      TimerMoves(st);
      QuietStepKeepsFacts(st, TimerProcess(st), h, facts);
  }

  // ----- runs -----

  /** No step of the run is a receive on this connection that got bytes. */
  predicate NeverRefreshed(st: State, steps: seq<Step>, h: Cid)
    requires Shape(st) && Run(st, steps).Some?
    decreases |steps|
  {
    steps == [] || (!Refreshes(st, steps[0], h) && NeverRefreshed(Apply(st, steps[0]), steps[1..], h))
  }

  /** No step of the run is a receive on this connection that met EAGAIN. */
  predicate NeverDrained(st: State, steps: seq<Step>, h: Cid)
    requires Shape(st) && Run(st, steps).Some?
    decreases |steps|
  {
    steps == [] || (!Drains(st, steps[0], h) && NeverDrained(Apply(st, steps[0]), steps[1..], h))
  }

  lemma {:induction false} RunKeepsFacts(st: State, steps: seq<Step>, h: Cid, facts: Facts)
    requires Inv(st) && Run(st, steps).Some? && TrueOf(st, h, facts)
    requires facts.tail.Some? ==> NeverRefreshed(st, steps, h)
    requires facts.readable ==> NeverDrained(st, steps, h)
    ensures Inv(Run(st, steps).value) && TrueOf(Run(st, steps).value, h, facts)
    decreases |steps|
  {
    if steps != [] {
      ApplyKeepsInv(st, steps[0]);
      StepKeepsFacts(st, steps[0], h, facts);
      RunKeepsFacts(Apply(st, steps[0]), steps[1..], h, facts);
    }
  }

  lemma StepTime(st: State, step: Step)
    requires Inv(st) && Enabled(st, step)
    ensures Apply(st, step).curTicks == st.curTicks + if step.Tick? then step.c else 0
  {
    match step
    case Receive(id, io) => TurnTime(st, id, io);
    case Input(batch, os) => InputMoves(st, batch, os);
    case Timer => TimerMoves(st);
    case _ =>
  }

  lemma TurnTime(st: State, id: nat, io: RecvIo)
    requires Inv(st) && Enabled(st, Receive(id, io))
    ensures Serve(st, id, io).curTicks == st.curTicks
  {
    DeleteMoves(Recv(st, id, io).0, id);
    if st.packageList != [] {
      DeleteMoves(st, st.packageList[0]);
    }
    if Recv(st, id, io).1 == NoError {
      RecvEmits(st, id, io);
      TakeInMoves(st, id, Received(io, |Cached(st, id)|));
    }
  }

  lemma {:induction false} RunTime(st: State, steps: seq<Step>)
    requires Inv(st) && Run(st, steps).Some?
    ensures Run(st, steps).value.curTicks == st.curTicks + Elapsed(steps)
    ensures Run(st, steps).value.config == st.config
    decreases |steps|
  {
    if steps != [] {
      ApplyKeepsInv(st, steps[0]);
      StepTime(st, steps[0]);
      SizesStay(st, steps[0]);
      RunTime(Apply(st, steps[0]), steps[1..]);
    }
  }

  // ----- what lasts how long -----

  lemma TimerSpares(st: State, h: Cid)
    requires Inv(st) && Live(st, h)
    ensures h.id < |st.sockets|
    ensures Live(TimerProcess(st), h) <==> !Overdue(Pending, st, h.id) && !Overdue(Package, st, h.id)
  {
    LiveIsUsed(st, h);
    TimerIsExact(st);
    TimerShrinks(st);
    if h.id in TimerProcess(st).socketPool.used {
      TimerKeepsNumber(st, h);
    }
    LiveIsUsed(TimerProcess(st), h);
  }

  /** A slot still in use after the timer has the serial number it had. */
  lemma TimerKeepsNumber(st: State, h: Cid)
    requires Inv(st) && h.id < |st.sockets| && h.id in TimerProcess(st).socketPool.used
    ensures PoolsOk(TimerProcess(st)) && TimerProcess(st).socketPool.sns[h.id] == st.socketPool.sns[h.id]
  {
    TimerIsExact(st);
    TimerShrinks(st);
    var g := CidOf(TimerProcess(st), h.id);
    LiveIsUsed(TimerProcess(st), g);
    LiveIsUsed(st, g);
  }

  /** A tail that a receive leaves behind waits for the rest of its frame: as long as nothing more comes and the connection
      lives, the tail is held, and the timer ends the connection if and only if package_ticks_limit ticks have gone by. */
  lemma TailWaitsExactly(st: State, id: nat, io: RecvIo, steps: seq<Step>, z: State)
    requires Inv(st) && Enabled(st, Receive(id, io)) && Asks(st, id, io) && Chunk(st, id, io) != []
    requires !Breaks(Held(st, id, io), st.config.packageSize) && F.Split(Held(st, id, io)).1 != []
    requires Run(Serve(st, id, io), steps) == Some(z) && NeverRefreshed(Serve(st, id, io), steps, CidOf(st, id))
    requires Live(z, CidOf(st, id))
    ensures id < |z.sockets| && Cached(z, id) == F.Split(Held(st, id, io)).1
    ensures Live(TimerProcess(z), CidOf(st, id)) <==> Elapsed(steps) < st.config.packageTicksLimit
  {
    var r, h := Serve(st, id, io), CidOf(st, id);
    ReadableIsEstablished(st, id);
    LiveIsUsed(st, h);
    ServeKeepsInv(st, id, io);
    Goes(st, id, io);
    TurnTime(st, id, io);
    RunTime(r, steps);
    var due := st.curTicks + st.config.packageTicksLimit;
    RunKeepsFacts(r, steps, h, Facts(Some((F.Split(Held(st, id, io)).1, due)), false, None));
    TimerSpares(z, h);
    HolderIsEstablished(z, id);
  }

  lemma HolderIsEstablished(st: State, id: nat)
    requires Core(st) && id < |st.sockets| && id in st.socketPool.used && st.sockets[id].packageBuff.Some?
    ensures st.sockets[id].status == Established
  {
  }

  /** A connection waits to be accepted: while it does, the timer ends it if and only if accept_ticks_limit ticks have gone
      by since it was admitted. */
  lemma AcceptWaitsExactly(st: State, io: ListenIo, steps: seq<Step>, z: State)
    requires Inv(st) && Welcome(st, io) && Run(Listen(st, io).0, steps) == Some(z)
    requires var h := Cid(st.socketPool.unused[0], st.socketPool.sn);
      Live(z, h) && h.id < |z.sockets| && z.sockets[h.id].status == SynSent
    ensures Live(TimerProcess(z), Cid(st.socketPool.unused[0], st.socketPool.sn)) <==>
      Elapsed(steps) < st.config.acceptTicksLimit
  {
    var r, h := Listen(st, io).0, Cid(st.socketPool.unused[0], st.socketPool.sn);
    AdmitsExactly(st, io);
    ListenKeepsInv(st, io);
    P.AllocPartitions(st.socketPool);
    RunTime(r, steps);
    RunKeepsFacts(r, steps, h, Facts(None, false, Some(st.curTicks + st.config.acceptTicksLimit)));
    TimerSpares(z, h);
    PendingHoldsNothing(z, h.id);
  }

  lemma PendingHoldsNothing(st: State, id: nat)
    requires Core(st) && id < |st.sockets| && id in st.socketPool.used && st.sockets[id].status == SynSent
    ensures st.sockets[id].packageBuff.None?
  {
  }

  /** epoll's report puts the socket at the end of the readable list and does nothing else. */
  lemma NotifyAppends(st: State, id: nat)
    requires Inv(st) && Enabled(st, Readable(id))
    ensures Apply(st, Readable(id)) == st.(
      sockets := st.sockets[id := st.sockets[id].(readable := true)], readableList := st.readableList + [id])
    ensures id !in st.readableList
  {
  }

  /** No wake-up is lost: epoll reports a socket once, and from then on it is on the readable list, as long as the
      connection lives and no receive on it met EAGAIN. */
  lemma StaysReadable(st: State, id: nat, steps: seq<Step>, z: State)
    requires Inv(st) && Enabled(st, Readable(id)) && Run(Notify(st, id), steps) == Some(z)
    requires NeverDrained(Notify(st, id), steps, CidOf(st, id)) && Live(z, CidOf(st, id))
    ensures id in z.readableList
  {
    var r, h := Notify(st, id), CidOf(st, id);
    ApplyKeepsInv(st, Readable(id));
    LiveIsUsed(st, h);
    RunKeepsFacts(r, steps, h, Facts(None, true, None));
    LiveIsUsed(z, h);
  }
}
