/**
 What one turn of the receive loop does to its connection, from the answer of recv and the bytes held alone: who stays,
 what goes out on the bus, what is kept for the next turn.
 */
module TconndReceive {
  import opened Basics
  import opened Sip
  import opened TconndState
  import opened TconndOwnership
  import opened TconndSteps
  import opened TconndStream
  import F = Framing
  import P = MempoolSpec

  /** There is bus space for one byte more than what is held, and a package buffer is free: recv is called. */
  predicate Asks(st: State, id: nat, io: RecvIo)
    requires Shape(st) && id < |st.sockets|
  {
    io.busSpace > REQ_SIZE + |Cached(st, id)| && st.packagePool.unused != []
  }

  /** What recv wrote behind the bytes held. */
  function Chunk(st: State, id: nat, io: RecvIo): Bytes
    requires Shape(st) && id < |st.sockets| && Asks(st, id, io)
  {
    match io.outcome
    case Data(bytes) =>
      var room := io.busSpace - REQ_SIZE - |Cached(st, id)|;
      if |bytes| > room then bytes[..room] else bytes
    case _ => []
  }

  function Held(st: State, id: nat, io: RecvIo): Bytes
    requires Shape(st) && id < |st.sockets| && Asks(st, id, io)
  {
    Cached(st, id) + Chunk(st, id, io)
  }

  /** The peer has closed, or recv failed. */
  predicate HangsUp(io: RecvIo) {
    io.outcome.RecvFailed? || io.outcome == Data([])
  }

  /** What is held breaks the protocol: a header announces more than package_size, or the tail is one byte too long. */
  ghost predicate Breaks(held: Bytes, packageSize: nat) {
    F.AnnouncesOver(held, packageSize) || |F.Split(held).1| == packageSize + 1
  }

  // ----- recv is not called, or would block -----

  /** The three retries, each with its condition, and no other; they leave the state as it was. */
  lemma RetriesExactly(st: State, id: nat, io: RecvIo)
    requires Shape(st) && id < |st.sockets|
    ensures Recv(st, id, io).1 == NotEnoughSpace <==> io.busSpace <= REQ_SIZE + |Cached(st, id)|
    ensures Recv(st, id, io).1 == NoMemory <==>
      io.busSpace > REQ_SIZE + |Cached(st, id)| && st.packagePool.unused == []
    ensures Recv(st, id, io).1 == Errno <==> Asks(st, id, io) && io.outcome.Eagain?
    ensures io.busSpace <= REQ_SIZE + |Cached(st, id)| || st.packagePool.unused == [] || io.outcome.Eagain? ==>
      Recv(st, id, io).0 == st
    ensures io.busSpace <= REQ_SIZE + |Cached(st, id)| ==> Serve(st, id, io) == st
  {
  }

  /** EAGAIN ends the burst: the socket leaves the readable list, in place, and nothing else happens. */
  lemma EagainPauses(st: State, id: nat, io: RecvIo)
    requires Inv(st) && Enabled(st, Receive(id, io)) && Asks(st, id, io) && io.outcome.Eagain?
    ensures var r := Serve(st, id, io);
      && r == st.(readableList := r.readableList, sockets := st.sockets[id := st.sockets[id].(readable := false)])
      && (forall h :: Live(r, h) <==> Live(st, h))
      && (forall x :: x in r.readableList <==> x in st.readableList && x != id)
      && exists k :: 0 <= k < |st.readableList| && st.readableList[k] == id && r.readableList == CutOut(st.readableList, k)
  {
    UnlinkDistinct(st.readableList, id);
    var k := UnlinkIndex(st.readableList, id);
  }

  // ----- recv answers -----

  lemma ChunkIsReceived(st: State, id: nat, io: RecvIo)
    requires Shape(st) && id < |st.sockets| && Asks(st, id, io)
    ensures Received(io, |Cached(st, id)|) == Chunk(st, id, io)
    ensures Chunk(st, id, io) == [] <==> HangsUp(io) || io.outcome.Eagain?
  {
    if io.outcome.Data? {
      assert io.outcome.bytes[..|io.outcome.bytes|] == io.outcome.bytes;
    }
  }

  /** The connection is closed with a close marker on the bus. */
  lemma HangUp(st: State, id: nat, io: RecvIo)
    requires Inv(st) && Enabled(st, Receive(id, io)) && Asks(st, id, io) && HangsUp(io)
    ensures var r, h := Serve(st, id, io), CidOf(st, id);
      !Live(r, h) && r.outbox == st.outbox + [Req(CMD_RECV, h, [])] && r.received == st.received
  {
    ChunkIsReceived(st, id, io);
    DeleteRecords(Publish(st, id, CMD_RECV, []), id);
  }

  /** The connection is closed without a word. */
  lemma Refusal(st: State, id: nat, io: RecvIo)
    requires Inv(st) && Enabled(st, Receive(id, io)) && Asks(st, id, io) && Chunk(st, id, io) != []
    requires Breaks(Held(st, id, io), st.config.packageSize)
    ensures var r, h := Serve(st, id, io), CidOf(st, id);
      && !Live(r, h) && r.outbox == st.outbox
      && r.received == st.received[h := StreamOf(st, h) + Chunk(st, id, io)]
  {
    ChunkIsReceived(st, id, io);
    RefusalIsExact(st, id, io);
    TakeInRecords(st, id, Chunk(st, id, io));
    DeleteRecords(TakeIn(st, id, Chunk(st, id, io)), id);
  }

  /** The complete frames go out in one message, the rest is kept, with a new deadline. */
  lemma Goes(st: State, id: nat, io: RecvIo)
    requires Inv(st) && Enabled(st, Receive(id, io)) && Asks(st, id, io) && Chunk(st, id, io) != []
    requires !Breaks(Held(st, id, io), st.config.packageSize)
    ensures var r, h, held := Serve(st, id, io), CidOf(st, id), Held(st, id, io); var tail := F.Split(held).1;
      && r.socketPool == st.socketPool && |tail| <= |held| && held[|held| - |tail|..] == tail
      && r.outbox == st.outbox
                     + (if F.Split(held).0 == [] then [] else [Req(CMD_RECV, h, held[..|held| - |tail|])])
      && r.received == st.received[h := StreamOf(st, h) + Chunk(st, id, io)]
      && Cached(r, id) == tail
      && (r.sockets[id].packageBuff.Some? <==> tail != [])
      && (tail != [] ==> r.sockets[id].packageTicks == st.curTicks + st.config.packageTicksLimit)
  {
    var held, chunk := Held(st, id, io), Chunk(st, id, io);
    ChunkIsReceived(st, id, io);
    RefusalIsExact(st, id, io);
    RecvEmits(st, id, io);
    ReadableIsEstablished(st, id);
    var pos := F.CutFrom(held, 0, st.config.packageSize).pos;
    EmitServes(st, id, chunk, held, pos);
    EmitArms(TakeIn(st, id, chunk), id, held, pos);
    CutFrames(held, st.config.packageSize);
  }

  lemma EmitArms(st: State, id: nat, buf: Bytes, pos: nat)
    requires Shape(st) && id < |st.sockets| && pos <= |buf| && !P.Empty(st.packagePool)
    requires st.sockets[id].packageBuff.None?
    ensures var r := Emit(st, id, buf, pos);
      && (r.sockets[id].packageBuff.Some? <==> buf[pos..] != [])
      && (buf[pos..] != [] ==> r.sockets[id].packageTicks == st.curTicks + st.config.packageTicksLimit)
  {
  }

  /** What lies before the cut are the complete frames. */
  lemma CutFrames(held: Bytes, packageSize: nat)
    requires F.CutFrom(held, 0, packageSize).CutAt?
    ensures var pos := F.CutFrom(held, 0, packageSize).pos;
      && held[pos..] == F.Split(held).1 && pos == |held| - |F.Split(held).1|
      && (pos == 0 <==> F.Split(held).0 == [])
  {
    var pos := F.CutFrom(held, 0, packageSize).pos;
    F.CutMeetsSplit(held, 0, packageSize);
    assert held[0..] == held && held[0..pos] == held[..pos];
    F.SplitLossless(held[..pos]);
    assert F.Frames(F.Split(held).0) + [] == F.Frames(F.Split(held).0);
    if pos > 0 {
      assert held[..pos] != [];
    }
  }

  // ----- when a connection ends -----

  /** A turn that asks recv ends its connection if and only if the peer has closed, recv failed, or the bytes held break
      the protocol; a close marker is published exactly in the first two cases. */
  lemma TurnEndsExactly(st: State, id: nat, io: RecvIo)
    requires Inv(st) && Enabled(st, Receive(id, io)) && Asks(st, id, io)
    ensures !Live(Serve(st, id, io), CidOf(st, id)) <==>
      HangsUp(io) || (io.outcome.Data? && Breaks(Held(st, id, io), st.config.packageSize))
    ensures Serve(st, id, io).outbox == st.outbox + [Req(CMD_RECV, CidOf(st, id), [])] <==> HangsUp(io)
  {
    TurnPublishes(st, id, io);
    MarkerIsNoData(st.outbox, Serve(st, id, io).outbox, CidOf(st, id), HangsUp(io));
    TurnEnds(st, id, io);
  }

  lemma TurnEnds(st: State, id: nat, io: RecvIo)
    requires Inv(st) && Enabled(st, Receive(id, io)) && Asks(st, id, io)
    ensures !Live(Serve(st, id, io), CidOf(st, id)) <==>
      HangsUp(io) || (io.outcome.Data? && Breaks(Held(st, id, io), st.config.packageSize))
  {
    ChunkIsReceived(st, id, io);
    ReadableIsEstablished(st, id);
    LiveIsUsed(st, CidOf(st, id));
    if HangsUp(io) {
      HangUp(st, id, io);
    } else if io.outcome.Eagain? {
      EagainPauses(st, id, io);
    } else if Breaks(Held(st, id, io), st.config.packageSize) {
      Refusal(st, id, io);
    } else {
      Goes(st, id, io);
    }
  }

  /** What is published about a connection by a turn: the close marker, or nothing or data. */
  ghost predicate Publishes(before: seq<Req>, after: seq<Req>, h: Cid, marker: bool) {
    if marker then after == before + [Req(CMD_RECV, h, [])]
    else after == before || exists data :: data != [] && after == before + [Req(CMD_RECV, h, data)]
  }

  lemma MarkerIsNoData(before: seq<Req>, after: seq<Req>, h: Cid, marker: bool)
    requires Publishes(before, after, h, marker)
    ensures after == before + [Req(CMD_RECV, h, [])] <==> marker
  {
    if !marker && after != before {
      var data :| data != [] && after == before + [Req(CMD_RECV, h, data)];
      assert after[|before|].payload == data;
    }
  }

  /** Any turn publishes at most one message: the close marker if and only if the connection hangs up, or data. */
  lemma TurnPublishes(st: State, id: nat, io: RecvIo)
    requires Inv(st) && Enabled(st, Receive(id, io))
    ensures Publishes(st.outbox, Serve(st, id, io).outbox, CidOf(st, id), Asks(st, id, io) && HangsUp(io))
  {
    RetriesExactly(st, id, io);
    if !Asks(st, id, io) || io.outcome.Eagain? {
      RetryShrinks(st, id, io);
    } else if HangsUp(io) {
      HangUp(st, id, io);
    } else {
      ChunkIsReceived(st, id, io);
      DataPublishes(st, id, io);
    }
  }

  lemma DataPublishes(st: State, id: nat, io: RecvIo)
    requires Inv(st) && Enabled(st, Receive(id, io)) && Asks(st, id, io) && Chunk(st, id, io) != []
    ensures Publishes(st.outbox, Serve(st, id, io).outbox, CidOf(st, id), false)
  {
    var held := Held(st, id, io);
    if Breaks(held, st.config.packageSize) {
      Refusal(st, id, io);
    } else {
      Goes(st, id, io);
      if F.Split(held).0 != [] {
        assert F.Split(held).1 != held;
        assert held[..|held| - |F.Split(held).1|] != [];
      }
    }
  }

  /** Nobody else notices. */
  lemma TurnSparesOthers(st: State, id: nat, io: RecvIo, x: nat)
    requires Inv(st) && Enabled(st, Receive(id, io)) && Asks(st, id, io)
    requires x < |st.sockets| && x in st.socketPool.used && x != id
    ensures Spared(st, Serve(st, id, io), x)
  {
    ChunkIsReceived(st, id, io);
    RetriesExactly(st, id, io);
    match Recv(st, id, io).1
    case NoError => GoesSparesOthers(st, id, io, x);
    case Close => EndSparesOthers(st, id, io, x);
    case _ => SocketsDiffer(st, id, x);
  }

  lemma EndSparesOthers(st: State, id: nat, io: RecvIo, x: nat)
    requires Shape(st) && id < |st.sockets| && Recv(st, id, io).1 == Close && x < |st.sockets| && x != id
    ensures Spared(st, Serve(st, id, io), x)
  {
    SocketsDiffer(st, id, x);
    var chunk := Received(io, |Cached(st, id)|);
    if chunk == [] {
      DeleteRecords(Publish(st, id, CMD_RECV, []), id);
    } else {
      TakeInRecords(st, id, chunk);
      DeleteRecords(TakeIn(st, id, chunk), id);
    }
  }

  /** The connection in slot x is as it was. */
  ghost predicate Spared(st: State, r: State, x: nat)
    requires Shape(st) && Shape(r) && x < |st.sockets|
  {
    && |r.sockets| == |st.sockets| && r.sockets[x] == st.sockets[x] && Cached(r, x) == Cached(st, x)
    && CidOf(r, x) == CidOf(st, x) && StreamOf(r, CidOf(st, x)) == StreamOf(st, CidOf(st, x))
  }

  lemma SocketsDiffer(st: State, id: nat, x: nat)
    requires Shape(st) && id < |st.sockets| && x < |st.sockets| && x != id
    ensures CidOf(st, x) != CidOf(st, id)
  {
  }

  lemma GoesSparesOthers(st: State, id: nat, io: RecvIo, x: nat)
    requires Inv(st) && Enabled(st, Receive(id, io)) && Recv(st, id, io).1 == NoError
    requires x < |st.sockets| && x in st.socketPool.used && x != id
    ensures Spared(st, Serve(st, id, io), x)
  {
    RecvEmits(st, id, io);
    ReadableIsEstablished(st, id);
    var chunk := Received(io, |Cached(st, id)|);
    var held := Cached(st, id) + chunk;
    var pos := F.CutFrom(held, 0, st.config.packageSize).pos;
    EmitServes(st, id, chunk, held, pos);
    TakeInRecords(st, id, chunk);
    EmitSparesSocket(TakeIn(st, id, chunk), id, held, pos, x);
  }

  lemma EmitSparesSocket(st: State, id: nat, buf: Bytes, pos: nat, x: nat)
    requires Shape(st) && id < |st.sockets| && pos <= |buf| && !P.Empty(st.packagePool) && x < |st.sockets| && x != id
    ensures Emit(st, id, buf, pos).sockets[x] == st.sockets[x]
  {
  }
}
