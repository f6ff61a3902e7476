/**
 The client side of a bus (tbusapi/source/tbusapi.c): sending one message, and processing what is pending with a
 callback that may refuse a message. A refused message and those behind it stay on the bus.

 What tbus_read_begin finds depends only on the tail seen, not on what the producer does after that look, so a
 turn of the consumer is its look at the tail (Bus.SeeTail) and the rest of tbusapi_process, with any number of
 the producer's turns between them.
 */
module Tbusapi {
  import opened Basics
  import opened TbusSpec
  import opened Tbus

  const IOV_NUM: nat := 65535

  datatype Outcome = NoError | WouldBlock

  /** tbusapi_on_recviov: offers one message after the other to on_recv, which accepts the first `willing` ones
      it is offered; the position of the one it refused, or the number of messages. */
  method OnRecviov(bus: Bus, iov: seq<Iov>, willing: nat, ghost bodies: seq<Bytes>, ghost places: seq<nat>)
    returns (pos: nat, accepted: seq<Bytes>)
    requires Entries(iov, bus.buff[..], bodies, places)
    ensures pos == Min(willing, |iov|) && accepted == bodies[..pos]
  {
    pos, accepted := 0, [];
    while pos < |iov| && pos < willing
      invariant pos <= |iov| && pos <= willing && accepted == bodies[..pos]
    {
      var message := bus.buff[..][iov[pos].base..iov[pos].base + iov[pos].len];
      assert message == bodies[pos];
      accepted := accepted + [message];
      pos := pos + 1;
    }
  }

  /** The messages a turn of the consumer can see. */
  ghost function Visible(pending: seq<Bytes>, seen: nat): seq<Bytes>
    requires seen <= |pending|
  {
    pending[..Min(IOV_NUM, seen)]
  }

  /** All of those seen, up to 65535. */
  lemma VisibleExactly(pending: seq<Bytes>, seen: nat)
    requires seen <= |pending|
    ensures |Visible(pending, seen)| == (if seen > 65535 then 65535 else seen) && Visible(pending, seen) <= pending
  {
  }

  lemma SeenIsPending(bus: Bus)
    requires bus.Valid()
    ensures bus.seen <= |bus.Pending()| && bus.seenTail <= bus.size
    ensures Reads(ReadOf(bus.buff[..], bus.head, bus.seenTail, IOV_NUM), bus.head, bus.tail, bus.ahead, bus.wrapped,
              IOV_NUM, bus.seen)
  {
    ReadsSeen(bus.buff[..], bus.head, bus.tail, bus.ahead, bus.wrapped, bus.seenTail, bus.seen, IOV_NUM);
  }

  /** What tbus_read_begin found. */
  ghost predicate Found(bus: Bus, iov: seq<Iov>, r: Reading)
    reads bus, bus.buff
  {
    && bus.Valid() && Entries(iov, bus.buff[..], r.bodies, r.places)
    && Reads(r, bus.head, bus.tail, bus.ahead, bus.wrapped, IOV_NUM, bus.seen)
  }

  /** The part of tbusapi_process with messages in iov. */
  method Offer(bus: Bus, stop: nat, iov: seq<Iov>, willing: nat, ghost r: Reading)
    returns (ret: Outcome, accepted: seq<Bytes>)
    requires Found(bus, iov, r) && stop == r.stop && iov != []
    modifies bus`head, bus`ahead, bus`wrapped, bus`taken, bus`seenTail, bus`seen
    ensures bus.Valid()
    ensures |accepted| == Min(willing, |r.bodies|) && accepted == r.bodies[..|accepted|]
    ensures bus.taken == old(bus.taken) + accepted
    ensures |accepted| <= |old(bus.Pending())| && bus.Pending() == old(bus.Pending())[|accepted|..]
    ensures ret == WouldBlock <==> willing == 0
  {
    var pos, messages := OnRecviov(bus, iov, willing, r.bodies, r.places);
    accepted := messages;
    var tbusHead := if pos < |iov| then iov[pos].base - HEADER else stop;
    ret := if pos == 0 then WouldBlock else NoError;
    assert r.bodies[..pos] == bus.Pending()[..pos];
    bus.ReadEnd(tbusHead, pos);
  }

  /** tbusapi_process, with the tail it looked at. */
  method Process(bus: Bus, t: nat, willing: nat)
    returns (ret: Outcome, accepted: seq<Bytes>, ghost visible: seq<Bytes>)
    requires bus.Valid() && t == bus.seenTail
    modifies bus`head, bus`ahead, bus`wrapped, bus`taken, bus`seenTail, bus`seen
    ensures bus.Valid()
    ensures old(bus.seen) <= |old(bus.Pending())| && visible == Visible(old(bus.Pending()), old(bus.seen))
    ensures |accepted| == Min(willing, |visible|) && accepted == visible[..|accepted|]
    ensures bus.taken == old(bus.taken) + accepted && bus.Pending() == old(bus.Pending())[|accepted|..]
    ensures ret == WouldBlock <==> if visible == [] then bus.head == old(bus.head) else willing == 0
  {
    SeenIsPending(bus);
    ghost var r := ReadOf(bus.buff[..], bus.head, t, IOV_NUM);
    visible := r.bodies;
    var tbusHead, iov := bus.ReadBegin(t, IOV_NUM);
    if iov == [] {
      ret, accepted := if tbusHead == bus.head then WouldBlock else NoError, [];
      if tbusHead != bus.head {
        bus.ReadEnd(tbusHead, 0);
      }
    } else {
      ret, accepted := Offer(bus, tbusHead, iov, willing, r);
    }
  }

  /** The message refused is the first one offered the next time. */
  lemma RefusedComesNext(pending: seq<Bytes>, seen: nat, willing: nat, later: nat)
    requires seen <= |pending| && willing < |Visible(pending, seen)|
    requires var rest := pending[willing..]; 0 < later <= |rest|
    ensures Visible(pending[willing..], later)[0] == Visible(pending, seen)[willing]
  {
  }

  // ----- sending -----

  /** tbusapi_send with an encoder that copies `body`, or returns 0 when it does not fit. A message is sent if and only
      if it fits the space its offsets leave; on an empty bus of two packets or more every message of the packet size
      does. */
  method Send(bus: Bus, body: Bytes) returns (ok: bool)
    requires bus.Valid()
    modifies bus`saw, bus`tail, bus`room, bus`ahead, bus`wrapped, bus`sent, bus.buff
    ensures bus.Valid()
    ensures ok ==> body != [] && bus.sent == old(bus.sent) + [body] && bus.Pending() == old(bus.Pending()) + [body]
    ensures !ok ==> bus.sent == old(bus.sent) && bus.Pending() == old(bus.Pending())
    ensures bus.tail <= bus.size && old(bus.tail) <= bus.size
    ensures ok <==> 0 < |body| <= Granted(bus.head, old(bus.tail), bus.size, bus.packetSize)
    ensures old(bus.head == bus.tail) && 2 * bus.packetSize <= bus.size ==>
      0 < |body| <= bus.packetSize - HEADER ==> ok
  {
    var n := bus.SendBegin();
    var h := bus.SeeHead();
    ok := Commit(bus, h, n, body);
  }

  /** The second half of tbusapi_send: encode into the space, and publish what was encoded. */
  method Commit(bus: Bus, h: nat, n: nat, body: Bytes) returns (ok: bool)
    requires bus.Valid() && h == bus.saw && n == bus.room
    modifies bus`tail, bus`room, bus`ahead, bus`wrapped, bus`sent, bus.buff
    ensures bus.Valid() && (ok <==> 0 < |body| <= n)
    ensures ok ==> bus.room == 0
    ensures ok ==> bus.sent == old(bus.sent) + [body] && bus.Pending() == old(bus.Pending()) + [body]
    ensures !ok ==> bus.room == n && bus.sent == old(bus.sent) && bus.Pending() == old(bus.Pending())
  {
    var codeSize := Encode(bus, n, body);
    ok := codeSize > 0;
    if ok {
      bus.SendEnd(codeSize, h, body);
    }
  }

  /** The encoder, between tbus_send_begin and tbus_send_end. */
  method Encode(bus: Bus, n: nat, body: Bytes) returns (codeSize: nat)
    requires bus.Valid() && n == bus.room
    modifies bus.buff
    ensures bus.Valid() && codeSize == (if |body| <= n then |body| else 0)
    ensures codeSize > 0 ==>
      && bus.tail + HEADER + codeSize <= bus.size
      && bus.buff[..][bus.tail + HEADER..bus.tail + HEADER + codeSize] == body
  {
    codeSize := 0;
    if 0 < |body| <= n {
      bus.Fill(body);
      codeSize := |body|;
    }
  }

  // ----- runs -----

  /** What the two programs do to the bus, in any order: the producer looks at head, begins and ends a send; the
      consumer looks at tail and processes. */
  datatype Access = SeeHead | Begin | End(body: Bytes) | SeeTail | Process(willing: nat)

  /** What each side remembers between its turns: the producer head and the space it was given, the consumer
      tail. */
  datatype Local = Local(h: nat, n: nat, t: nat)

  ghost predicate Remembers(bus: Bus, local: Local)
    reads bus
  {
    local.h == bus.saw && local.n == bus.room && local.t == bus.seenTail
  }

  method Take(bus: Bus, turn: Access, local: Local) returns (now: Local, ok: bool, accepted: seq<Bytes>)
    requires bus.Valid() && Remembers(bus, local)
    modifies bus, bus.buff
    ensures bus.Valid() && Remembers(bus, now)
    ensures ok ==> turn.End?
    ensures bus.sent == if ok then old(bus.sent) + [turn.body] else old(bus.sent)
    ensures bus.taken == if turn.Process? then old(bus.taken) + accepted else old(bus.taken)
  {
    now, ok, accepted := local, false, [];
    match turn
    case SeeHead =>
      var h := bus.SeeHead();
      now := local.(h := h);
    case Begin =>
      var r := bus.Reserve(local.h);
      now := local.(n := if r.Space? then r.n else 0);
    case End(body) =>
      ok := Commit(bus, local.h, local.n, body);
      now := local.(n := if ok then 0 else local.n);
    case SeeTail =>
      var t := bus.SeeTail();
      now := local.(t := t);
    case Process(willing) =>
      var ret, messages, visible := Process(bus, local.t, willing);
      accepted := messages;
      var t := bus.SeeTail();
      now := local.(t := t);
  }

  /**
   Exactly once, in order: over any interleaving on a new bus, the accepted messages are a prefix of the sent ones,
   and the rest of them is on the bus.
   */
  method Interleave(size: nat, number: nat, turns: seq<Access>)
    returns (sent: seq<Bytes>, accepted: seq<Bytes>, ghost pending: seq<Bytes>)
    requires number > 0 && Capacity(size + HEADER, number) <= UINT32_MAX
    ensures accepted <= sent && sent == accepted + pending
  {
    var bus := new Bus(size, number);
    var h := bus.SeeHead();
    var t := bus.SeeTail();
    var local := Local(h, 0, t);
    sent, accepted := [], [];
    for i := 0 to |turns|
      invariant fresh(bus) && fresh(bus.buff) && bus.Valid() && Remembers(bus, local)
      invariant sent == bus.sent && accepted == bus.taken
    {
      var now, ok, messages := Take(bus, turns[i], local);
      local := now;
      if ok {
        sent := sent + [turns[i].body];
      }
      if turns[i].Process? {
        accepted := accepted + messages;
      }
    }
    pending := bus.Pending();
  }
}
