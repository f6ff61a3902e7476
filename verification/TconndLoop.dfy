/**
 The main loop of tconnd. tconnd_epool_proc walks the readable list with a saved next pointer, and a turn of that
 walk may delete another socket to free a package buffer: the first one on the package list. When that is the socket
 saved as next, the walk goes on with a dead socket, whose descriptor is closed; serving it frees its slot a second
 time, and the socket pool never recovers.

 This module models the walk as it is, says exactly when it does that, and shows that every other run of the loop is
 a run of the calls of TconndState, one after the other.
 */
module TconndLoop {
  import opened Basics
  import opened Sip
  import opened TconndState
  import opened TconndOwnership
  import opened TconndSteps
  import opened TconndStream
  import opened TconndStarvation
  import P = MempoolSpec

  // ----- one pass over the readable list -----

  /** What one node of the readable list gives: a receive on a socket, or the listener. */
  datatype Turn = OnSocket(io: RecvIo) | OnListener(listenIo: ListenIo)

  /** Whom the turn of `id` deletes to free a package buffer. */
  function Victim(st: State, id: nat, io: RecvIo): Option<nat>
    requires Shape(st) && id < |st.sockets|
  {
    if Recv(st, id, io).1 == NoMemory && st.packageList != [] then Some(st.packageList[0]) else None
  }

  /** The turn deletes the socket that is saved as the next one. */
  predicate HitsNext(st: State, rest: seq<nat>, turns: seq<Turn>)
    requires Shape(st) && Below(rest, |st.sockets|) && turns != [] && turns[0].OnSocket? && rest != []
  {
    |turns| > 1 && turns[1].OnSocket? && |rest| > 1 && Victim(st, rest[0], turns[0].io) == Some(rest[1])
  }

  /**
   The sockets the walk still leads to after a turn. A victim further on is unlinked from the list; one that is saved
   as next is visited all the same, and its own links, which unlinking left alone, lead on.
   */
  function Onward(st: State, rest: seq<nat>, turns: seq<Turn>): (r: seq<nat>)
    requires Shape(st) && Below(rest, |st.sockets|) && turns != [] && turns[0].OnSocket? && rest != []
    ensures Below(r, |st.sockets|)
  {
    var victim := Victim(st, rest[0], turns[0].io);
    assert Below(rest[1..], |st.sockets|);
    if victim.None? || HitsNext(st, rest, turns) then rest[1..]
    else
      StaysBelow(rest[1..], victim.value, |st.sockets|);
      Unlink(rest[1..], victim.value)
  }

  /** The result with which the walk gives up (goto done). */
  predicate GivesUp(ret: Ret) {
    ret == NotEnoughSpace || ret == Error
  }

  /** The loop of tconnd_epool_proc over the sockets `rest`; the listener stands wherever the turns have it. The walk
      may end after any turn. */
  function Walk(st: State, rest: seq<nat>, turns: seq<Turn>): (r: State)
    requires Shape(st) && Below(rest, |st.sockets|)
    ensures Shape(r)
    decreases |turns|
  {
    if turns == [] then st
    else
      match turns[0]
      case OnListener(io) =>
        var (st1, ret) := Listen(st, io);
        if GivesUp(ret) then st1 else Walk(st1, rest, turns[1..])
      case OnSocket(io) =>
        if rest == [] then st
        else
          var st1 := Serve(st, rest[0], io);
          if GivesUp(Recv(st, rest[0], io).1) then st1
          else
            Walk(st1, Onward(st, rest, turns), turns[1..])
  }

  /** The operating system: bus space has 32 bits, and a recv on the closed descriptor of a dead socket fails. */
  predicate Possible(st: State, rest: seq<nat>, turns: seq<Turn>)
    requires Shape(st) && Below(rest, |st.sockets|)
    decreases |turns|
  {
    turns == [] ||
    match turns[0]
    case OnListener(io) => GivesUp(Listen(st, io).1) || Possible(Listen(st, io).0, rest, turns[1..])
    case OnSocket(io) =>
      rest == [] || (
        && io.busSpace <= UINT32_MAX
        && (rest[0] !in st.socketPool.used ==> io.outcome.RecvFailed?)
        && (GivesUp(Recv(st, rest[0], io).1)
            || Possible(Serve(st, rest[0], io), Onward(st, rest, turns), turns[1..])))
  }

  /** A turn deletes the next socket, and there is bus space to serve that one. */
  predicate Strikes(st: State, rest: seq<nat>, turns: seq<Turn>)
    requires Shape(st) && Below(rest, |st.sockets|) && turns != [] && turns[0].OnSocket? && rest != []
  {
    HitsNext(st, rest, turns) && turns[1].io.busSpace >= REQ_SIZE + 1
  }

  /** No turn of the walk does that. */
  predicate Spares(st: State, rest: seq<nat>, turns: seq<Turn>)
    requires Shape(st) && Below(rest, |st.sockets|)
    decreases |turns|
  {
    turns == [] ||
    match turns[0]
    case OnListener(io) => GivesUp(Listen(st, io).1) || Spares(Listen(st, io).0, rest, turns[1..])
    case OnSocket(io) =>
      rest == [] || (
        && !Strikes(st, rest, turns)
        && (GivesUp(Recv(st, rest[0], io).1)
            || Spares(Serve(st, rest[0], io), Onward(st, rest, turns), turns[1..])))
  }

  // ----- a slot freed twice -----

  /** How often each slot is on the pool's lists. */
  ghost function Slots(p: P.Pool): multiset<nat> {
    multiset(p.unused) + multiset(p.used)
  }

  /** Some slot is on the lists more than once. */
  ghost predicate Broken(p: P.Pool) {
    exists id :: Slots(p)[id] > 1
  }

  lemma BrokenIsNoPartition(p: P.Pool)
    requires Broken(p)
    ensures !P.Partition(p)
  {
    if P.Partition(p) {
      forall id ensures Slots(p)[id] <= 1 {
        PartitionCounts(p, id);
      }
    }
  }

  lemma PartitionCounts(p: P.Pool, id: nat)
    requires P.Partition(p)
    ensures Slots(p)[id] <= 1
  {
    OnceAtMost(p.unused, id);
    OnceAtMost(p.used, id);
  }

  lemma {:induction false} OnceAtMost(s: seq<nat>, x: nat)
    requires Distinct(s)
    ensures multiset(s)[x] <= 1 && (multiset(s)[x] > 0 <==> x in s)
  {
    if s != [] {
      assert s == [s[0]] + s[1..];
      assert forall i, j :: 0 <= i < j < |s[1..]| ==> s[1..][i] == s[i + 1] && s[1..][j] == s[j + 1];
      OnceAtMost(s[1..], x);
    }
  }

  lemma {:induction false} UnlinkCounts(s: seq<nat>, x: nat)
    ensures multiset(s) <= multiset(Unlink(s, x)) + multiset{x}
    ensures x !in s ==> Unlink(s, x) == s
  {
    if s != [] {
      assert s == [s[0]] + s[1..];
      UnlinkCounts(s[1..], x);
    }
  }

  /** Freeing loses no slot, and counts one more when the slot was not used. */
  lemma FreeCounts(p: P.Pool, id: nat)
    requires id < |p.sns|
    ensures Slots(p) <= Slots(P.Free(p, id))
    ensures id !in p.used ==> Slots(P.Free(p, id)) == Slots(p) + multiset{id}
  {
    UnlinkCounts(p.used, id);
    assert multiset([id] + p.unused) == multiset{id} + multiset(p.unused);
  }

  lemma AllocCounts(p: P.Pool)
    requires !P.Empty(p) && p.unused[0] < |p.sns|
    ensures Slots(P.Alloc(p).0) == Slots(p)
  {
    assert p.unused == [p.unused[0]] + p.unused[1..];
    assert multiset([p.unused[0]] + p.used) == multiset{p.unused[0]} + multiset(p.used);
  }

  /** No call takes a slot off the lists, so a broken pool stays broken. */
  ghost predicate Keeps(a: State, b: State) {
    Slots(a.socketPool) <= Slots(b.socketPool)
  }

  lemma KeepsBroken(a: State, b: State)
    requires Keeps(a, b) && Broken(a.socketPool)
    ensures Broken(b.socketPool)
  {
    var id :| Slots(a.socketPool)[id] > 1;
    assert Slots(b.socketPool)[id] > 1;
  }

  lemma DeleteCounts(st: State, id: nat)
    requires Shape(st) && id < |st.sockets|
    ensures Keeps(st, Delete(st, id))
  {
    FreeCounts(st.socketPool, id);
  }

  lemma DeliverCounts(w: Work, d: Delivery, os: Os)
    requires WorkShape(w)
    ensures Keeps(w.st, Deliver(w, d, os).st)
  {
    if Live(w.st, d.cid) {
      var id := d.cid.id;
      var st1 := PushPkg(w.st, id, d.cmd, d.body, os).0;
      PushRecords(w.st, id, d.cmd, d.body, os);
      DeleteCounts(st1, id);
      DeleteCounts(SetSocket(st1, id, st1.sockets[id].(writable := false)), id);
    }
  }

  lemma {:induction false} DeliverAllCounts(w: Work, ds: seq<Delivery>, os: Os)
    requires WorkShape(w)
    ensures Keeps(w.st, DeliverAll(w, ds, os).st)
    decreases |ds|
  {
    if ds != [] {
      DeliverCounts(w, ds[0], os);
      DeliverAllCounts(Deliver(w, ds[0], os), ds[1..], os);
    }
  }

  lemma FlushOneCounts(st: State, id: nat, os: Os)
    requires Shape(st) && id < |st.sockets|
    ensures Keeps(st, FlushOne(st, id, os))
  {
    FlushRecords(st, id, os);
    var st1 := Flush(st, id, os).0;
    DeleteCounts(SetSocket(st1, id, st1.sockets[id].(writable := false)), id);
  }

  lemma {:induction false} FlushAllCounts(st: State, writable: seq<nat>, os: Os)
    requires Shape(st) && Below(writable, |st.sockets|)
    ensures Keeps(st, FlushAll(st, writable, os))
    decreases |writable|
  {
    if writable != [] {
      FlushOneCounts(st, writable[0], os);
      FlushAllCounts(FlushOne(st, writable[0], os), writable[1..], os);
    }
  }

  lemma {:induction false} ExpireCounts(d: Deadline, st: State, rest: seq<nat>)
    requires Shape(st) && Below(rest, |st.sockets|)
    ensures Keeps(st, Expire(d, st, rest))
    decreases |rest|
  {
    if rest != [] && Due(d, st.sockets[rest[0]]) <= st.curTicks {
      DeleteCounts(st, rest[0]);
      ExpireCounts(d, Delete(st, rest[0]), rest[1..]);
    }
  }

  lemma ListenCounts(st: State, io: ListenIo)
    requires Shape(st)
    ensures Keeps(st, Listen(st, io).0)
  {
    if Listen(st, io).1 == NoError {
      AllocCounts(st.socketPool);
    }
  }

  lemma ServeCounts(st: State, id: nat, io: RecvIo)
    requires Shape(st) && id < |st.sockets|
    ensures Keeps(st, Serve(st, id, io))
  {
    var (st1, ret) := Recv(st, id, io);
    RecvFrame(st, id, io);
    match ret
    case Close => DeleteCounts(st1, id);
    case NoMemory =>
      if st1.packageList != [] {
        DeleteCounts(st1, st1.packageList[0]);
      }
    case _ =>
  }

  lemma {:induction false} WalkCounts(st: State, rest: seq<nat>, turns: seq<Turn>)
    requires Shape(st) && Below(rest, |st.sockets|)
    ensures Keeps(st, Walk(st, rest, turns))
    decreases |turns|
  {
    if turns != [] {
      match turns[0]
      case OnListener(io) =>
        ListenCounts(st, io);
        if !GivesUp(Listen(st, io).1) {
          WalkCounts(Listen(st, io).0, rest, turns[1..]);
        }
      case OnSocket(io) =>
        if rest != [] {
          ServeCounts(st, rest[0], io);
          if !GivesUp(Recv(st, rest[0], io).1) {
            WalkCounts(Serve(st, rest[0], io), Onward(st, rest, turns), turns[1..]);
          }
        }
    }
  }

  lemma ApplyCounts(st: State, step: Step)
    requires Shape(st) && Enabled(st, step)
    ensures Keeps(st, Apply(st, step))
  {
    match step
    case Tick(c) =>
    case Accept(io) => ListenCounts(st, io);
    case Readable(id) =>
    case Receive(id, io) => ServeCounts(st, id, io);
    case Input(batch, os) =>
      DeliverAllCounts(Work(st, []), Deliveries(batch), os);
      var w := DeliverAll(Work(st, []), Deliveries(batch), os);
      FlushAllCounts(w.st, w.writable, os);
    case Timer =>
      ExpireCounts(Pending, st, st.pendingList);
      var st1 := Expire(Pending, st, st.pendingList);
      ExpireCounts(Package, st1, st1.packageList);
  }

  // ----- the turn on a dead socket -----

  lemma DeadTurn(st: State, id: nat, io: RecvIo)
    requires Shape(st) && id < |st.sockets|
    requires io.busSpace >= REQ_SIZE + |Cached(st, id)| + 1 && !P.Empty(st.packagePool) && io.outcome.RecvFailed?
    ensures Serve(st, id, io) == Delete(Publish(st, id, CMD_RECV, []), id)
  {
  }

  /** Serving a dead socket puts its slot on the unused list a second time. */
  lemma DeadTurnBreaks(st: State, id: nat, io: RecvIo)
    requires Shape(st) && id < |st.sockets| && id !in st.socketPool.used && id in st.socketPool.unused
    requires io.busSpace >= REQ_SIZE + |Cached(st, id)| + 1 && !P.Empty(st.packagePool) && io.outcome.RecvFailed?
    ensures Broken(Serve(st, id, io).socketPool)
  {
    DeadTurn(st, id, io);
    FreeCounts(st.socketPool, id);
    assert Slots(st.socketPool)[id] > 0;
    assert Slots(P.Free(st.socketPool, id))[id] > 1;
  }

  // ----- a walk is a run of calls, or breaks the pool -----

  /** The sockets the walk leads to are on the readable list, each once. */
  ghost predicate OnList(st: State, rest: seq<nat>) {
    Distinct(rest) && Below(rest, |st.sockets|) && forall i :: 0 <= i < |rest| ==> rest[i] in st.readableList
  }

  /** The calls a walk makes, as long as it serves live sockets. */
  function Calls(st: State, rest: seq<nat>, turns: seq<Turn>): seq<Step>
    requires Shape(st) && Below(rest, |st.sockets|)
    decreases |turns|
  {
    if turns == [] then []
    else
      match turns[0]
      case OnListener(io) =>
        [Accept(io)] + if GivesUp(Listen(st, io).1) then [] else Calls(Listen(st, io).0, rest, turns[1..])
      case OnSocket(io) =>
        if rest == [] || rest[0] !in st.readableList then []
        else
          [Receive(rest[0], io)]
          + if GivesUp(Recv(st, rest[0], io).1) then []
            else Calls(Serve(st, rest[0], io), Onward(st, rest, turns), turns[1..])
  }

  lemma DeleteLeavesReadable(st: State, id: nat, x: nat)
    requires Shape(st) && id < |st.sockets| && x in st.readableList && x != id
    ensures x in Delete(st, id).readableList
  {
    StaysLinked(st.readableList, id, x);
  }

  lemma RecvLeavesReadable(st: State, id: nat, io: RecvIo)
    requires Shape(st) && id < |st.sockets|
    ensures Recv(st, id, io).0.readableList == st.readableList
    ensures Recv(st, id, io).0.packageList == st.packageList || Recv(st, id, io).1 != NoMemory
  {
  }

  /** A turn takes nobody off the readable list but the socket it serves and the victim. */
  lemma ServeLeavesReadable(st: State, id: nat, io: RecvIo, x: nat)
    requires Shape(st) && id < |st.sockets| && x in st.readableList && x != id && Victim(st, id, io) != Some(x)
    ensures x in Serve(st, id, io).readableList
  {
    var (st1, ret) := Recv(st, id, io);
    RecvLeavesReadable(st, id, io);
    match ret
    case Close => DeleteLeavesReadable(st1, id, x);
    case NoMemory =>
      if st1.packageList != [] {
        DeleteLeavesReadable(st1, st1.packageList[0], x);
      }
    case Errno => StaysLinked(st1.readableList, id, x);
    case _ =>
  }

  lemma StaysLinked(s: seq<nat>, y: nat, x: nat)
    requires x in s && x != y
    ensures x in Unlink(s, y)
  {
    if y in s {
      var k := UnlinkIndex(s, y);
      var i :| 0 <= i < |s| && s[i] == x;
      assert CutOut(s, k)[if i < k then i else i - 1] == x;
    } else {
      UnlinkAbsent(s, y);
    }
  }

  lemma OnwardOnList(st: State, rest: seq<nat>, turns: seq<Turn>)
    requires Shape(st) && OnList(st, rest) && turns != [] && turns[0].OnSocket? && rest != []
    requires !HitsNext(st, rest, turns)
    ensures OnList(Serve(st, rest[0], turns[0].io), Onward(st, rest, turns))
  {
    var onward, victim := Onward(st, rest, turns), Victim(st, rest[0], turns[0].io);
    assert Distinct(rest[1..]);
    if victim.Some? {
      UnlinkDistinct(rest[1..], victim.value);
    }
    forall i | 0 <= i < |onward| ensures onward[i] in Serve(st, rest[0], turns[0].io).readableList {
      assert onward[i] in rest[1..] && victim != Some(onward[i]);
      ServeLeavesReadable(st, rest[0], turns[0].io, onward[i]);
    }
  }

  /** Evicted as next: dead, off the readable list, with nothing cached, and a package buffer is free. */
  lemma NextIsDead(st: State, rest: seq<nat>, turns: seq<Turn>)
    requires Inv(st) && OnList(st, rest) && turns != [] && turns[0].OnSocket? && rest != []
    requires HitsNext(st, rest, turns)
    ensures var st1 := Serve(st, rest[0], turns[0].io); var dead := rest[1];
      && dead !in st1.socketPool.used && dead in st1.socketPool.unused && dead !in st1.readableList
      && Cached(st1, dead) == [] && !P.Empty(st1.packagePool)
  {
    var dead := rest[1];
    assert dead in st.packageList;
    ReadableIsEstablished(st, dead);
    RetriesChangeNothing(st, rest[0], turns[0].io);
    DeleteHolderFreesBuffer(st, dead);
    DeleteKeepsInv(st, dead);
    P.FreePartitions(st.socketPool, dead);
  }

  lemma RunCons(st: State, step: Step, steps: seq<Step>)
    requires Shape(st) && Enabled(st, step)
    ensures Run(st, [step] + steps) == Run(Apply(st, step), steps)
  {
    assert ([step] + steps)[1..] == steps;
  }

  lemma RunOne(st: State, step: Step)
    requires Shape(st) && Enabled(st, step)
    ensures Run(st, [step]) == Some(Apply(st, step))
  {
    assert [step] == [step] + [];
    RunCons(st, step, []);
  }

  lemma ListenerRuns(st: State, rest: seq<nat>, turns: seq<Turn>)
    requires Shape(st) && Below(rest, |st.sockets|) && turns != [] && turns[0].OnListener?
    requires var st1 := Listen(st, turns[0].listenIo).0;
      GivesUp(Listen(st, turns[0].listenIo).1)
      || Run(st1, Calls(st1, rest, turns[1..])) == Some(Walk(st1, rest, turns[1..]))
    ensures Run(st, Calls(st, rest, turns)) == Some(Walk(st, rest, turns))
  {
    var step := Accept(turns[0].listenIo);
    if GivesUp(Listen(st, turns[0].listenIo).1) {
      assert Calls(st, rest, turns) == [step];
      RunOne(st, step);
    } else {
      RunCons(st, step, Calls(Listen(st, turns[0].listenIo).0, rest, turns[1..]));
    }
  }

  lemma SocketRuns(st: State, rest: seq<nat>, turns: seq<Turn>)
    requires Shape(st) && Below(rest, |st.sockets|) && turns != [] && turns[0].OnSocket? && rest != []
    requires Enabled(st, Receive(rest[0], turns[0].io))
    requires var st1 := Serve(st, rest[0], turns[0].io); var onward := Onward(st, rest, turns);
      GivesUp(Recv(st, rest[0], turns[0].io).1)
      || Run(st1, Calls(st1, onward, turns[1..])) == Some(Walk(st1, onward, turns[1..]))
    ensures Run(st, Calls(st, rest, turns)) == Some(Walk(st, rest, turns))
  {
    var step := Receive(rest[0], turns[0].io);
    if GivesUp(Recv(st, rest[0], turns[0].io).1) {
      assert Calls(st, rest, turns) == [step];
      RunOne(st, step);
    } else {
      RunCons(st, step, Calls(Serve(st, rest[0], turns[0].io), Onward(st, rest, turns), turns[1..]));
    }
  }

  /** The walk comes to a dead socket and there is no bus space: it gives up, and nothing has happened. */
  lemma DeadTurnGivesUp(st: State, rest: seq<nat>, turns: seq<Turn>)
    requires Shape(st) && Below(rest, |st.sockets|) && turns != [] && turns[0].OnSocket? && rest != []
    requires turns[0].io.busSpace < REQ_SIZE + 1 && rest[0] !in st.readableList
    ensures Walk(st, rest, turns) == st && Calls(st, rest, turns) == []
  {
  }

  /** A walk that strikes nobody is a run of calls on live sockets. */
  lemma {:induction false} SparingWalk(st: State, rest: seq<nat>, turns: seq<Turn>)
    requires Inv(st) && OnList(st, rest) && Possible(st, rest, turns) && Spares(st, rest, turns)
    ensures Run(st, Calls(st, rest, turns)) == Some(Walk(st, rest, turns))
    decreases |turns|
  {
    if turns != [] && turns[0].OnListener? {
      var io := turns[0].listenIo;
      if !GivesUp(Listen(st, io).1) {
        ListenKeepsInv(st, io);
        assert Listen(st, io).0.readableList == st.readableList;
        SparingWalk(Listen(st, io).0, rest, turns[1..]);
      }
      ListenerRuns(st, rest, turns);
    } else if turns != [] && rest != [] {
      var io := turns[0].io;
      if !GivesUp(Recv(st, rest[0], io).1) {
        SparingTurn(st, rest, turns);
        if HitsNext(st, rest, turns) {
          DeadTurnGivesUp(Serve(st, rest[0], io), Onward(st, rest, turns), turns[1..]);
        } else {
          SparingWalk(Serve(st, rest[0], io), Onward(st, rest, turns), turns[1..]);
        }
      }
      SocketRuns(st, rest, turns);
    }
  }

  lemma SparingTurn(st: State, rest: seq<nat>, turns: seq<Turn>)
    requires Inv(st) && OnList(st, rest) && turns != [] && turns[0].OnSocket? && rest != []
    requires Possible(st, rest, turns)
    ensures var st1 := Serve(st, rest[0], turns[0].io); var onward := Onward(st, rest, turns);
      && Inv(st1)
      && if HitsNext(st, rest, turns) then onward == rest[1..] && onward[0] !in st1.readableList
         else OnList(st1, onward)
  {
    ServeKeepsInv(st, rest[0], turns[0].io);
    if HitsNext(st, rest, turns) {
      NextIsDead(st, rest, turns);
    } else {
      OnwardOnList(st, rest, turns);
    }
  }

  /** A walk that strikes somebody breaks the socket pool. */
  lemma {:induction false} StrikingWalk(st: State, rest: seq<nat>, turns: seq<Turn>)
    requires Inv(st) && OnList(st, rest) && Possible(st, rest, turns) && !Spares(st, rest, turns)
    ensures Broken(Walk(st, rest, turns).socketPool)
    decreases |turns|
  {
    if turns[0].OnListener? {
      var io := turns[0].listenIo;
      ListenKeepsInv(st, io);
      assert Listen(st, io).0.readableList == st.readableList;
      StrikingWalk(Listen(st, io).0, rest, turns[1..]);
    } else if HitsNext(st, rest, turns) {
      HitStrikes(st, rest, turns);
      Struck(st, rest, turns);
    } else {
      SparingTurn(st, rest, turns);
      StrikingWalk(Serve(st, rest[0], turns[0].io), Onward(st, rest, turns), turns[1..]);
    }
  }

  /** After a hit that does not strike the walk gives up at once, and so strikes nobody later. */
  lemma HitStrikes(st: State, rest: seq<nat>, turns: seq<Turn>)
    requires Shape(st) && Below(rest, |st.sockets|) && turns != [] && turns[0].OnSocket? && rest != []
    requires HitsNext(st, rest, turns) && !Spares(st, rest, turns)
    ensures Strikes(st, rest, turns)
  {
    var st1, onward := Serve(st, rest[0], turns[0].io), Onward(st, rest, turns);
    assert turns[1].io.busSpace < REQ_SIZE + 1 ==> GivesUp(Recv(st1, onward[0], turns[1].io).1);
  }

  lemma Struck(st: State, rest: seq<nat>, turns: seq<Turn>)
    requires Inv(st) && OnList(st, rest) && turns != [] && turns[0].OnSocket? && rest != []
    requires Possible(st, rest, turns) && Strikes(st, rest, turns)
    ensures Broken(Walk(st, rest, turns).socketPool)
  {
    var st1 := Serve(st, rest[0], turns[0].io);
    NextIsDead(st, rest, turns);
    DeadTurnBreaks(st1, rest[1], turns[1].io);
    BreaksForGood(st1, rest[1..], turns[1..]);
  }

  lemma BreaksForGood(st: State, rest: seq<nat>, turns: seq<Turn>)
    requires Shape(st) && Below(rest, |st.sockets|) && turns != [] && turns[0].OnSocket? && rest != []
    requires Broken(Serve(st, rest[0], turns[0].io).socketPool)
    ensures Broken(Walk(st, rest, turns).socketPool)
  {
    var st1 := Serve(st, rest[0], turns[0].io);
    if !GivesUp(Recv(st, rest[0], turns[0].io).1) {
      WalkCounts(st1, Onward(st, rest, turns), turns[1..]);
      KeepsBroken(st1, Walk(st, rest, turns));
    }
  }

  // ----- the main loop -----

  /** What process() does, in any order: a pass over the readable list, or another call. Sockets are accepted and
      served in passes only. */
  datatype Event = Pass(turns: seq<Turn>) | Call(step: Step)

  predicate Happens(st: State, event: Event)
    requires Shape(st)
  {
    match event
    case Pass(turns) => Possible(st, st.readableList, turns)
    case Call(step) => !step.Accept? && !step.Receive? && Enabled(st, step)
  }

  function Handle(st: State, event: Event): (r: State)
    requires Shape(st) && Happens(st, event)
    ensures Shape(r)
  {
    match event
    case Pass(turns) => Walk(st, st.readableList, turns)
    case Call(step) => Apply(st, step)
  }

  /** The state after the events, if each could happen when its turn came. */
  function Loop(st: State, events: seq<Event>): (r: Option<State>)
    requires Shape(st)
    ensures r.Some? ==> Shape(r.value)
    decreases |events|
  {
    if events == [] then Some(st)
    else if !Happens(st, events[0]) then None
    else Loop(Handle(st, events[0]), events[1..])
  }

  /** No pass deletes the socket saved as next and then has bus space to serve it. */
  predicate SparesNext(st: State, events: seq<Event>)
    requires Shape(st) && Loop(st, events).Some?
    decreases |events|
  {
    events == [] || (
      && (events[0].Pass? ==> Spares(st, st.readableList, events[0].turns))
      && SparesNext(Handle(st, events[0]), events[1..]))
  }

  /** The calls of one event, and of all of them. */
  function CallsOf(st: State, event: Event): seq<Step>
    requires Shape(st)
  {
    match event
    case Pass(turns) => Calls(st, st.readableList, turns)
    case Call(step) => [step]
  }

  function AllCalls(st: State, events: seq<Event>): seq<Step>
    requires Shape(st) && Loop(st, events).Some?
    decreases |events|
  {
    if events == [] then [] else CallsOf(st, events[0]) + AllCalls(Handle(st, events[0]), events[1..])
  }

  lemma {:induction false} RunAppend(st: State, a: seq<Step>, b: seq<Step>)
    requires Shape(st) && Run(st, a).Some?
    ensures Run(st, a + b) == Run(Run(st, a).value, b)
    decreases |a|
  {
    if a == [] {
      assert a + b == b;
    } else {
      assert (a + b)[1..] == a[1..] + b;
      RunAppend(Apply(st, a[0]), a[1..], b);
    }
  }

  lemma HandleRuns(st: State, event: Event)
    requires Inv(st) && Happens(st, event)
    requires event.Pass? ==> Spares(st, st.readableList, event.turns)
    ensures Run(st, CallsOf(st, event)) == Some(Handle(st, event)) && Inv(Handle(st, event))
  {
    match event
    case Pass(turns) =>
      SparingWalk(st, st.readableList, turns);
      RunKeepsInv(st, Calls(st, st.readableList, turns));
    case Call(step) =>
      RunOne(st, step);
      ApplyKeepsInv(st, step);
  }

  /** A loop that spares the next sockets is a run of calls on live sockets. */
  lemma {:induction false} LoopRuns(st: State, events: seq<Event>)
    requires Inv(st) && Loop(st, events).Some? && SparesNext(st, events)
    ensures Run(st, AllCalls(st, events)) == Loop(st, events)
    decreases |events|
  {
    if events != [] {
      HandleRuns(st, events[0]);
      LoopRuns(Handle(st, events[0]), events[1..]);
      RunAppend(st, CallsOf(st, events[0]), AllCalls(Handle(st, events[0]), events[1..]));
    }
  }

  lemma HandleCounts(st: State, event: Event)
    requires Shape(st) && Happens(st, event)
    ensures Keeps(st, Handle(st, event))
  {
    match event
    case Pass(turns) => WalkCounts(st, st.readableList, turns);
    case Call(step) => ApplyCounts(st, step);
  }

  lemma {:induction false} LoopCounts(st: State, events: seq<Event>)
    requires Shape(st) && Loop(st, events).Some?
    ensures Keeps(st, Loop(st, events).value)
    decreases |events|
  {
    if events != [] {
      HandleCounts(st, events[0]);
      LoopCounts(Handle(st, events[0]), events[1..]);
    }
  }

  lemma {:induction false} LoopBreaks(st: State, events: seq<Event>)
    requires Inv(st) && Loop(st, events).Some? && !SparesNext(st, events)
    ensures Broken(Loop(st, events).value.socketPool)
    decreases |events|
  {
    var st1 := Handle(st, events[0]);
    if events[0].Pass? && !Spares(st, st.readableList, events[0].turns) {
      StrikingWalk(st, st.readableList, events[0].turns);
      LoopCounts(st1, events[1..]);
      KeepsBroken(st1, Loop(st, events).value);
    } else {
      HandleRuns(st, events[0]);
      LoopBreaks(st1, events[1..]);
    }
  }

  /** One pass keeps the global invariant if and only if it strikes nobody. */
  lemma PassKeepsInvExactly(st: State, turns: seq<Turn>)
    requires Inv(st) && Possible(st, st.readableList, turns)
    ensures Inv(Walk(st, st.readableList, turns)) <==> Spares(st, st.readableList, turns)
  {
    if Spares(st, st.readableList, turns) {
      HandleRuns(st, Pass(turns));
    } else {
      StrikingWalk(st, st.readableList, turns);
      BrokenIsNoPartition(Walk(st, st.readableList, turns).socketPool);
    }
  }

  /** Over every run of the loop from the start: the global invariant holds if and only if no pass deleted the socket
      it had saved as next and then had bus space to serve it. Otherwise the socket pool is broken, for good. */
  lemma LoopKeepsInvExactly(config: Config, events: seq<Event>, st: State)
    requires Loop(Start(config), events) == Some(st)
    ensures Inv(st) <==> SparesNext(Start(config), events)
    ensures !SparesNext(Start(config), events) ==> !P.Partition(st.socketPool)
  {
    StartHasInv(config);
    if SparesNext(Start(config), events) {
      LoopRuns(Start(config), events);
      RunKeepsInv(Start(config), AllCalls(Start(config), events));
    } else {
      LoopBreaks(Start(config), events);
      BrokenIsNoPartition(st.socketPool);
    }
  }
}