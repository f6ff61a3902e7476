/**
 The package buffers can all be taken. These lemmas say how long that can last: the holders' deadlines are
 bounded and cannot move while the pool is empty, the timer then frees every buffer, and the epoll driver
 frees one as soon as somebody needs it, taking it from the holder with the earliest deadline.
 They also say exactly when that eviction hits the socket the driver is about to serve next.
 */
module TconndStarvation {
  import opened Basics
  import opened Sip
  import opened TconndState
  import opened TconndOwnership
  import opened TconndSteps
  import opened TconndStream
  import F = Framing
  import P = MempoolSpec

  /** Every held package buffer is due by `bound`. */
  ghost predicate DueBy(st: State, bound: nat) {
    forall id :: 0 <= id < |st.sockets| && id in st.packageList ==> st.sockets[id].packageTicks <= bound
  }

  lemma HeldDeadlinesBounded(st: State)
    requires Core(st)
    ensures DueBy(st, st.curTicks + st.config.packageTicksLimit)
  {
  }

  lemma ShrinksDueBy(a: State, b: State, bound: nat)
    requires Core(a) && Core(b) && Shrinks(a, b) && DueBy(a, bound)
    ensures DueBy(b, bound)
  {
    forall id | 0 <= id < |b.sockets| && id in b.packageList ensures b.sockets[id].packageTicks <= bound {
      LiveIsUsed(b, CidOf(b, id));
      LiveIsUsed(a, CidOf(b, id));
      assert Live(b, CidOf(b, id));
    }
  }

  lemma StarvedRecv(st: State, id: nat, io: RecvIo)
    requires Shape(st) && id < |st.sockets| && P.Empty(st.packagePool)
    ensures Recv(st, id, io).0 == st && (Recv(st, id, io).1 == NoMemory || Recv(st, id, io).1 == NotEnoughSpace)
  {
  }

  lemma ServeDueBy(st: State, id: nat, io: RecvIo, bound: nat)
    requires Inv(st) && Enabled(st, Receive(id, io)) && P.Empty(st.packagePool) && DueBy(st, bound)
    ensures DueBy(Serve(st, id, io), bound)
  {
    StarvedRecv(st, id, io);
    if Recv(st, id, io).1 == NoMemory && st.packageList != [] {
      EvictKeepsInv(st);
      DeleteShrinks(st, st.packageList[0]);
      ShrinksDueBy(st, Delete(st, st.packageList[0]), bound);
    }
  }

  lemma AcceptDueBy(st: State, io: ListenIo, bound: nat)
    requires Inv(st) && DueBy(st, bound)
    ensures DueBy(Listen(st, io).0, bound)
  {
    if Listen(st, io).1 == NoError {
      P.AllocPartitions(st.socketPool);
    }
  }

  /** While the pool is empty, no step of the engine arms or refreshes a deadline. */
  lemma StarvedStepDueBy(st: State, step: Step, bound: nat)
    requires Inv(st) && Enabled(st, step) && P.Empty(st.packagePool) && DueBy(st, bound)
    ensures DueBy(Apply(st, step), bound)
  {
    ApplyKeepsInv(st, step);
    match step
    case Tick(c) =>
    case Accept(io) => AcceptDueBy(st, io, bound);
    case Readable(id) =>
    case Receive(id, io) => ServeDueBy(st, id, io, bound);
    case Input(batch, os) =>
      ProcessInputShrinks(st, batch, os);
      ShrinksDueBy(st, Apply(st, step), bound);
    case Timer =>
      TimerShrinks(st);
      ShrinksDueBy(st, Apply(st, step), bound);
  }

  /** The steps can be taken, and the pool is empty all along. */
  ghost predicate Starving(st: State, steps: seq<Step>)
    requires Shape(st)
    decreases |steps|
  {
    P.Empty(st.packagePool)
    && (steps != [] ==> Enabled(st, steps[0]) && Starving(Apply(st, steps[0]), steps[1..]))
  }

  lemma {:induction false} StarvingDueBy(st: State, steps: seq<Step>, bound: nat)
    requires Inv(st) && Starving(st, steps) && DueBy(st, bound)
    ensures Run(st, steps).Some?
    ensures var r := Run(st, steps).value;
      && Inv(r) && P.Empty(r.packagePool) && DueBy(r, bound)
      && r.config == st.config && |r.buffs| == |st.buffs|
    decreases |steps|
  {
    if steps != [] {
      var st1 := Apply(st, steps[0]);
      ApplyKeepsInv(st, steps[0]);
      StarvedStepDueBy(st, steps[0], bound);
      SizesStay(st, steps[0]);
      StarvingDueBy(st1, steps[1..], bound);
    }
  }

  lemma SizesStay(st: State, step: Step)
    requires Inv(st) && Enabled(st, step)
    ensures Apply(st, step).config == st.config && |Apply(st, step).buffs| == |st.buffs|
  {
    match step
    case Tick(c) =>
    case Accept(io) =>
    case Readable(id) =>
    case Receive(id, io) => ServeSizes(st, id, io);
    case Input(batch, os) => ProcessInputShrinks(st, batch, os);
    case Timer => TimerShrinks(st);
  }

  lemma ServeSizes(st: State, id: nat, io: RecvIo)
    requires Shape(st) && id < |st.sockets|
    ensures Serve(st, id, io).config == st.config && |Serve(st, id, io).buffs| == |st.buffs|
  {
    RecvFrame(st, id, io);
    DeleteRecords(Recv(st, id, io).0, id);
    if st.packageList != [] {
      DeleteRecords(st, st.packageList[0]);
    }
  }

  lemma EmitFrame(st: State, id: nat, buf: Bytes, pos: nat)
    requires Shape(st) && id < |st.sockets| && pos <= |buf| && !P.Empty(st.packagePool)
    ensures var r := Emit(st, id, buf, pos);
      r.socketPool == st.socketPool && r.config == st.config && |r.buffs| == |st.buffs|
  {
  }

  lemma RecvFrame(st: State, id: nat, io: RecvIo)
    requires Shape(st) && id < |st.sockets|
    ensures var r := Recv(st, id, io).0;
      r.socketPool == st.socketPool && r.config == st.config && |r.buffs| == |st.buffs|
  {
    if Recv(st, id, io).1 == NoError {
      RecvEmits(st, id, io);
      var chunk := Received(io, |Cached(st, id)|);
      var buf := Cached(st, id) + chunk;
      TakeInRecords(st, id, chunk);
      EmitFrame(TakeIn(st, id, chunk), id, buf, F.CutFrom(buf, 0, st.config.packageSize).pos);
    } else if Recv(st, id, io).1 == Close {
      TakeInRecords(st, id, Received(io, |Cached(st, id)|));
    }
  }

  /** Bounded starvation. If the pool is empty now and stays empty through any steps that bring the clock to
      package_ticks_limit ticks from now, the next timer call frees every package buffer. */
  lemma BoundedStarvation(st: State, steps: seq<Step>)
    requires Inv(st) && Starving(st, steps) && |st.buffs| > 0
    requires Run(st, steps).Some? && Run(st, steps).value.curTicks >= st.curTicks + st.config.packageTicksLimit
    ensures var r := TimerProcess(Run(st, steps).value); r.packagePool.used == [] && !P.Empty(r.packagePool)
  {
    var bound := st.curTicks + st.config.packageTicksLimit;
    HeldDeadlinesBounded(st);
    StarvingDueBy(st, steps, bound);
    var full := Run(st, steps).value;
    TimerIsExact(full);
    TimerShrinks(full);
    NobodyHolds(full, TimerProcess(full), bound);
    NothingHeld(TimerProcess(full));
  }

  /** The least that can happen: time passes and nothing else. */
  lemma WaitingFreesBuffers(st: State)
    requires Inv(st) && P.Empty(st.packagePool) && |st.buffs| > 0
    ensures var wait := Tick(st.config.packageTicksLimit);
      Starving(st, [wait]) && !P.Empty(TimerProcess(Apply(st, wait)).packagePool)
  {
    var wait := Tick(st.config.packageTicksLimit);
    var st1 := Apply(st, wait);
    assert [wait][1..] == [];
    assert Starving(st1, []) && Run(st1, []) == Some(st1);
    assert Starving(st, [wait]) && Run(st, [wait]) == Some(st1);
    BoundedStarvation(st, [wait]);
  }

  lemma NobodyHolds(a: State, b: State, bound: nat)
    requires Core(a) && Core(b) && |b.sockets| == |a.sockets| && DueBy(a, bound) && bound <= a.curTicks
    requires forall id :: 0 <= id < |a.sockets| ==>
      (id in b.socketPool.used <==>
         id in a.socketPool.used && !Overdue(Pending, a, id) && !Overdue(Package, a, id))
    requires forall id :: 0 <= id < |a.sockets| && id in b.socketPool.used ==> b.sockets[id] == a.sockets[id]
    ensures b.packageList == []
  {
    assert forall id :: 0 <= id < |a.sockets| && id in a.packageList ==> Overdue(Package, a, id);
    assert forall id :: 0 <= id < |b.sockets| && id in b.packageList ==> id in b.socketPool.used && id in a.packageList;
    EmptyOrHead(b.packageList);
  }

  lemma NothingHeld(st: State)
    requires Core(st) && st.packageList == [] && |st.buffs| > 0
    ensures st.packagePool.used == [] && !P.Empty(st.packagePool)
  {
    EmptyOrHead(st.packagePool.used);
    assert 0 in st.packagePool.unused;
  }

  // ----- the epoll driver's reaction -----

  lemma EmptyPoolIsHeld(st: State)
    requires Core(st) && P.Empty(st.packagePool) && |st.buffs| > 0
    ensures st.packageList != []
  {
    assert 0 in st.packagePool.used;
    var x :| x in st.packageList && HoldsBuffer(st.sockets, x, 0);
  }

  lemma HeadIsEarliest(st: State, x: nat)
    requires Core(st) && x in st.packageList
    ensures st.packageList[0] < |st.sockets| && x < |st.sockets|
    ensures st.sockets[st.packageList[0]].packageTicks <= st.sockets[x].packageTicks
  {
    var k :| 0 <= k < |st.packageList| && st.packageList[k] == x;
  }

  lemma DeleteHolderFreesBuffer(st: State, id: nat)
    requires Core(st) && id in st.packageList
    ensures id < |st.sockets| && !P.Empty(Delete(st, id).packagePool)
  {
    DropPackageKeepsCore(st, id);
    P.FreePartitions(st.packagePool, st.sockets[id].packageBuff.value);
  }

  /** A receive that finds the pool empty gets a buffer freed at once, unless there are none at all: the
      driver closes the holder whose deadline comes first. */
  lemma EvictionMakesRoom(st: State, id: nat, io: RecvIo)
    requires Inv(st) && Enabled(st, Receive(id, io)) && P.Empty(st.packagePool) && |st.buffs| > 0
    requires io.busSpace >= REQ_SIZE + |Cached(st, id)| + 1
    ensures st.packageList != [] && !P.Empty(Serve(st, id, io).packagePool)
    ensures !Live(Serve(st, id, io), CidOf(st, st.packageList[0]))
    ensures forall x :: 0 <= x < |st.sockets| && x in st.packageList ==>
      st.sockets[st.packageList[0]].packageTicks <= st.sockets[x].packageTicks
  {
    EmptyPoolIsHeld(st);
    var victim := st.packageList[0];
    assert victim in st.packageList;
    DeleteHolderFreesBuffer(st, victim);
    DeleteRecords(st, victim);
    forall x | 0 <= x < |st.sockets| && x in st.packageList
      ensures st.sockets[victim].packageTicks <= st.sockets[x].packageTicks
    {
      HeadIsEarliest(st, x);
    }
  }

  /** Whom one turn of the driver's loop deletes. */
  function Deleted(st: State, id: nat, io: RecvIo): Option<nat>
    requires Shape(st) && id < |st.sockets|
  {
    match Recv(st, id, io).1
    case Close => Some(id)
    case NoMemory => if st.packageList == [] then None else Some(st.packageList[0])
    case _ => None
  }

  lemma ServeDeletes(st: State, id: nat, io: RecvIo)
    requires Shape(st) && id < |st.sockets|
    ensures Deleted(st, id, io).Some? ==> Deleted(st, id, io).value < |st.sockets|
    ensures Serve(st, id, io).socketPool.sns ==
      if Deleted(st, id, io).Some? then st.socketPool.sns[Deleted(st, id, io).value := P.INVALID_ID]
      else st.socketPool.sns
  {
    var (st1, ret) := Recv(st, id, io);
    RecvFrame(st, id, io);
    DeleteRecords(st1, id);
    if st.packageList != [] {
      DeleteRecords(st, st.packageList[0]);
    }
  }

  lemma StarvedExactly(st: State, id: nat, io: RecvIo)
    requires Shape(st) && id < |st.sockets|
    ensures Recv(st, id, io).1 == NoMemory <==>
      P.Empty(st.packagePool) && io.busSpace >= REQ_SIZE + |Cached(st, id)| + 1
  {
  }

  /** tconnd_epool_proc saves the next readable socket before it serves the current one. That socket is still
      the same live one afterwards, if and only if serving did not have to evict a holder or the holder
      evicted was another socket. */
  lemma NextStaysLiveExactly(st: State, id: nat, next: nat, io: RecvIo)
    requires Inv(st) && Enabled(st, Receive(id, io)) && next in st.readableList && next != id
    ensures next < |st.sockets|
    ensures Live(Serve(st, id, io), CidOf(st, next)) <==>
      !(P.Empty(st.packagePool) && io.busSpace >= REQ_SIZE + |Cached(st, id)| + 1
        && st.packageList != [] && st.packageList[0] == next)
  {
    ReadableIsEstablished(st, next);
    LiveIsUsed(st, CidOf(st, next));
    StarvedExactly(st, id, io);
    ServeDeletes(st, id, io);
  }
}
