/**
 A pass over the readable list serves everybody: with bus space at every turn, each socket on the list gets its receive, or
 was deleted to free a package buffer before its turn came.
 */
module TconndFairness {
  import opened Basics
  import opened Sip
  import opened TconndState
  import opened TconndOwnership
  import opened TconndSteps
  import opened TconndStream
  import opened TconndStarvation
  import opened TconndReceive
  import opened TconndFates
  import opened TconndTime
  import opened TconndLoop
  import P = MempoolSpec

  // ----- dead handles -----

  /** A handle issued before and dead now is never live again. */
  lemma DeadStaysDead(st: State, step: Step, h: Cid)
    requires Inv(st) && Enabled(st, step) && h.sn < st.socketPool.sn && !Live(st, h)
    ensures h.sn < Apply(st, step).socketPool.sn && !Live(Apply(st, step), h)
  {
    match step
    case Tick(c) =>
    case Accept(io) => AdmitsExactly(st, io);
    case Readable(id) =>
    case Receive(id, io) => OnlyDeletes(st, id, io, h);
    case Input(batch, os) => ProcessInputShrinks(st, batch, os);
    case Timer => TimerShrinks(st);
  }

  lemma {:induction false} RunStaysDead(st: State, steps: seq<Step>, h: Cid)
    requires Inv(st) && Run(st, steps).Some? && h.sn < st.socketPool.sn && !Live(st, h)
    ensures !Live(Run(st, steps).value, h)
    decreases |steps|
  {
    if steps != [] {
      ApplyKeepsInv(st, steps[0]);
      DeadStaysDead(st, steps[0], h);
      RunStaysDead(Apply(st, steps[0]), steps[1..], h);
    }
  }

  // ----- a walk with bus space -----

  /** Every turn is one of a socket, and has bus space for one byte more than what the socket holds. */
  predicate Roomy(st: State, rest: seq<nat>, turns: seq<Turn>)
    requires Shape(st) && Below(rest, |st.sockets|)
    decreases |turns|
  {
    turns == [] || (
      && turns[0].OnSocket?
      && (rest == [] || (
            && turns[0].io.busSpace > REQ_SIZE + |Cached(st, rest[0])|
            && Roomy(Serve(st, rest[0], turns[0].io), Onward(st, rest, turns), turns[1..]))))
  }

  /** A turn of such a walk goes on, and hits nobody that is next. */
  lemma RoomyTurn(st: State, rest: seq<nat>, turns: seq<Turn>)
    requires Inv(st) && OnList(st, rest) && rest != [] && turns != []
    requires Possible(st, rest, turns) && Spares(st, rest, turns) && Roomy(st, rest, turns)
    ensures !GivesUp(Recv(st, rest[0], turns[0].io).1)
    ensures Enabled(st, Receive(rest[0], turns[0].io)) && !HitsNext(st, rest, turns)
  {
    RetriesExactly(st, rest[0], turns[0].io);
  }

  /** A socket ahead that is not deleted by a turn is still ahead, with the same handle. */
  lemma StillAhead(st: State, rest: seq<nat>, turns: seq<Turn>, x: nat)
    requires Inv(st) && OnList(st, rest) && rest != [] && turns != [] && turns[0].OnSocket?
    requires Enabled(st, Receive(rest[0], turns[0].io)) && !HitsNext(st, rest, turns) && x in rest[1..]
    ensures x < |st.sockets|
    ensures var st1, onward := Serve(st, rest[0], turns[0].io), Onward(st, rest, turns);
      && Inv(st1) && OnList(st1, onward) && st1.socketPool.sn == st.socketPool.sn
      && if Victim(st, rest[0], turns[0].io) == Some(x) then !Live(st1, CidOf(st, x))
         else x in onward && CidOf(st1, x) == CidOf(st, x)
  {
    var st1, onward, victim := Serve(st, rest[0], turns[0].io), Onward(st, rest, turns), Victim(st, rest[0], turns[0].io);
    assert x in rest;
    ServeKeepsInv(st, rest[0], turns[0].io);
    OnwardOnList(st, rest, turns);
    OnlyDeletes(st, rest[0], turns[0].io, CidOf(st, x));
    if victim == Some(x) {
      RetriesExactly(st, rest[0], turns[0].io);
      DeleteRecords(st, x);
    } else {
      if victim.Some? {
        UnlinkedOthers(rest[1..], victim.value, x);
      }
      SameHandle(st, rest[0], turns[0].io, x);
    }
  }

  lemma {:induction false} UnlinkedOthers(s: seq<nat>, y: nat, x: nat)
    requires x in s && x != y
    ensures x in Unlink(s, y)
  {
    if s[0] != x && s[0] != y {
      UnlinkedOthers(s[1..], y, x);
    }
  }

  lemma SameHandle(st: State, id: nat, io: RecvIo, x: nat)
    requires Inv(st) && Enabled(st, Receive(id, io)) && x < |st.sockets|
    requires Inv(Serve(st, id, io)) && x in Serve(st, id, io).readableList
    ensures CidOf(Serve(st, id, io), x) == CidOf(st, x)
  {
    var st1 := Serve(st, id, io);
    ReadableIsEstablished(st1, x);
    LiveIsUsed(st1, CidOf(st1, x));
    OnlyDeletes(st, id, io, CidOf(st1, x));
  }

  /** The walk serves a socket ahead of it, or deletes it before its turn. */
  lemma {:induction false} WalkServes(st: State, rest: seq<nat>, turns: seq<Turn>, x: nat)
    requires Inv(st) && OnList(st, rest) && Possible(st, rest, turns) && Spares(st, rest, turns)
    requires Roomy(st, rest, turns) && |turns| >= |rest| && x in rest
    ensures x < |st.sockets|
    ensures (exists io :: Receive(x, io) in Calls(st, rest, turns)) || !Live(Walk(st, rest, turns), CidOf(st, x))
    decreases |turns|
  {
    var io := turns[0].io;
    RoomyTurn(st, rest, turns);
    if x == rest[0] {
      assert Calls(st, rest, turns)[0] == Receive(x, io);
    } else {
      assert x in rest[1..];
      var st1, onward := Serve(st, rest[0], io), Onward(st, rest, turns);
      StillAhead(st, rest, turns, x);
      if x in onward && CidOf(st1, x) == CidOf(st, x) {
        OnwardShorter(st, rest, turns);
        WalkServes(st1, onward, turns[1..], x);
        assert Calls(st, rest, turns) == [Receive(rest[0], io)] + Calls(st1, onward, turns[1..]);
      } else {
        IssuedBefore(st, x);
        SparingWalk(st1, onward, turns[1..]);
        RunStaysDead(st1, Calls(st1, onward, turns[1..]), CidOf(st, x));
      }
    }
  }

  lemma OnwardShorter(st: State, rest: seq<nat>, turns: seq<Turn>)
    requires Shape(st) && Below(rest, |st.sockets|) && turns != [] && turns[0].OnSocket? && rest != []
    ensures |Onward(st, rest, turns)| < |rest|
  {
    var victim := Victim(st, rest[0], turns[0].io);
    if victim.Some? {
      UnlinkNoLonger(rest[1..], victim.value);
    }
  }

  lemma {:induction false} UnlinkNoLonger(s: seq<nat>, x: nat)
    ensures |Unlink(s, x)| <= |s|
  {
    if s != [] && s[0] != x {
      UnlinkNoLonger(s[1..], x);
    }
  }

  lemma IssuedBefore(st: State, x: nat)
    requires Inv(st) && x < |st.sockets| && x in st.readableList
    ensures st.socketPool.sns[x] < st.socketPool.sn
  {
    ReadableIsEstablished(st, x);
  }

  /** A pass with a turn for everybody and bus space at each: every socket on the readable list gets its receive, or is
      deleted before its turn. */
  lemma PassServesAll(st: State, turns: seq<Turn>, x: nat)
    requires Inv(st) && Possible(st, st.readableList, turns) && Spares(st, st.readableList, turns)
    requires Roomy(st, st.readableList, turns) && |turns| >= |st.readableList| && x in st.readableList
    ensures x < |st.sockets|
    ensures (exists io :: Receive(x, io) in Calls(st, st.readableList, turns))
      || !Live(Walk(st, st.readableList, turns), CidOf(st, x))
  {
    WalkServes(st, st.readableList, turns, x);
  }
}
