/**
 The server's end of the protocol (tconnapi/source/tconnapi.c): what tconnapi_on_recv reports to the
 application for one bus message.
 */
module Tconnapi {
  import opened Basics
  import opened Sip
  import F = Framing

  datatype Callback = OnConnect(cid: Cid) | OnClose(cid: Cid) | OnPacket(cid: Cid, packet: Bytes)

  function PacketCallbacks(cid: Cid, packets: seq<Bytes>): (r: seq<Callback>)
    ensures |r| == |packets|
  {
    if packets == [] then [] else [OnPacket(cid, packets[0])] + PacketCallbacks(cid, packets[1..])
  }

  lemma {:induction false} PacketCallbacksSnoc(cid: Cid, packets: seq<Bytes>, packet: Bytes)
    ensures PacketCallbacks(cid, packets + [packet]) == PacketCallbacks(cid, packets) + [OnPacket(cid, packet)]
  {
    if packets == [] {
      assert packets + [packet] == [packet];
    } else {
      assert (packets + [packet])[1..] == packets[1..] + [packet];
      PacketCallbacksSnoc(cid, packets[1..], packet);
    }
  }

  /** The callbacks made for a decoded message: a data message reports each of its complete frames, and the
      zero-size data message reports the close. */
  function CallbacksFor(m: Req): seq<Callback> {
    if m.cmd == CMD_CONNECT then [OnConnect(m.cid)]
    else if m.cmd != CMD_RECV then []
    else if m.payload == [] then [OnClose(m.cid)]
    else PacketCallbacks(m.cid, F.Split(m.payload).0)
  }

  /** The callbacks made for the bytes of a message; one that fails the length checks is ignored. */
  function Callbacks(msg: Bytes): seq<Callback> {
    match DecodeReq(msg)
    case None => []
    case Some(m) => CallbacksFor(m)
  }

  /** The pointer loop of tconnapi_on_recv over a payload. */
  method CutPackets(cid: Cid, payload: Bytes) returns (callbacks: seq<Callback>)
    ensures callbacks == PacketCallbacks(cid, F.Split(payload).0)
  {
    callbacks := [];
    var limit := |payload|;
    var iter := 0;
    ghost var packets := [];
    while iter < limit
      invariant iter <= limit
      invariant callbacks == PacketCallbacks(cid, packets)
      invariant F.Split(payload).0 == packets + F.Split(payload[iter..]).0
    {
      var packet := iter + F.HEADER;
      if packet > limit {
        assert F.Split(payload).0 == packets;
        return;
      }
      var packetSize := F.FrameLen(payload[iter..]);
      var next := packet + packetSize;
      if next > limit {
        assert F.Split(payload).0 == packets;
        return;
      }
      F.SplitAtOffset(payload, iter, packets);
      PacketCallbacksSnoc(cid, packets, payload[packet..next]);
      packets := packets + [payload[packet..next]];
      callbacks := callbacks + [OnPacket(cid, payload[packet..next])];
      iter := next;
    }
    assert F.Split(payload).0 == packets;
  }

  /** tconnapi_on_recv */
  method OnRecv(msg: Bytes) returns (callbacks: seq<Callback>)
    ensures callbacks == Callbacks(msg)
  {
    callbacks := [];
    var decoded := DecodeReq(msg);
    if decoded.Some? {
      var req := decoded.value;
      if req.cmd == CMD_CONNECT {
        callbacks := [OnConnect(req.cid)];
      } else if req.cmd == CMD_RECV {
        if |req.payload| == 0 {
          callbacks := [OnClose(req.cid)];
        } else {
          callbacks := CutPackets(req.cid, req.payload);
        }
      }
    }
  }

  // ----- a whole bus -----

  /** Everything reported for a sequence of bus messages. */
  function Heard(msgs: seq<Req>, fill: Filler): seq<Callback> {
    if msgs == [] then [] else Callbacks(EncodeReq(msgs[0], fill)) + Heard(msgs[1..], fill)
  }

  /** The packets reported for one connection, in order. */
  function PacketsOf(callbacks: seq<Callback>, h: Cid): seq<Bytes> {
    if callbacks == [] then []
    else
      (if callbacks[0].OnPacket? && callbacks[0].cid == h then [callbacks[0].packet] else []) + PacketsOf(callbacks[1..], h)
  }

  lemma {:induction false} PacketsOfAppend(a: seq<Callback>, b: seq<Callback>, h: Cid)
    ensures PacketsOf(a + b, h) == PacketsOf(a, h) + PacketsOf(b, h)
  {
    if a == [] {
      assert a + b == b;
    } else {
      assert (a + b)[1..] == a[1..] + b;
      PacketsOfAppend(a[1..], b, h);
    }
  }

  lemma {:induction false} PacketsOfMessage(cid: Cid, packets: seq<Bytes>, h: Cid)
    ensures PacketsOf(PacketCallbacks(cid, packets), h) == if cid == h then packets else []
  {
    if packets != [] {
      assert PacketCallbacks(cid, packets)[1..] == PacketCallbacks(cid, packets[1..]);
      PacketsOfMessage(cid, packets[1..], h);
    }
  }

  /** The payloads of one connection's data messages, joined. */
  function DataOf(msgs: seq<Req>, h: Cid): Bytes {
    if msgs == [] then []
    else (if msgs[0].cmd == CMD_RECV && msgs[0].cid == h then msgs[0].payload else []) + DataOf(msgs[1..], h)
  }

  lemma {:induction false} DataOfSnoc(msgs: seq<Req>, m: Req, h: Cid)
    ensures DataOf(msgs + [m], h) == DataOf(msgs, h) + if m.cmd == CMD_RECV && m.cid == h then m.payload else []
  {
    if msgs == [] {
      assert msgs + [m] == [m];
      assert [m][1..] == [];
    } else {
      assert (msgs + [m])[1..] == msgs[1..] + [m];
      DataOfSnoc(msgs[1..], m, h);
    }
  }

  ghost predicate MessageOk(m: Req) {
    (m.cmd == CMD_CONNECT || m.cmd == CMD_RECV) && |m.payload| <= UINT32_MAX && CidInRange(m.cid) && F.Whole(m.payload)
  }

  lemma HeardMessage(m: Req, fill: Filler, h: Cid)
    requires MessageOk(m)
    ensures PacketsOf(Callbacks(EncodeReq(m, fill)), h) ==
      if m.cmd == CMD_RECV && m.cid == h then F.Split(m.payload).0 else []
  {
    ReqRoundTrip(m, fill);
    PacketsOfMessage(m.cid, F.Split(m.payload).0, h);
  }

  lemma DataStep(m: Req, rest: seq<Req>, packets: seq<Bytes>, h: Cid)
    requires MessageOk(m) && F.Split(DataOf(rest, h)) == (packets, [])
    ensures F.Split(DataOf([m] + rest, h)) ==
      ((if m.cmd == CMD_RECV && m.cid == h then F.Split(m.payload).0 else []) + packets, [])
  {
    assert ([m] + rest)[1..] == rest;
    var data := DataOf(rest, h);
    if m.cmd == CMD_RECV && m.cid == h {
      F.SplitWholeAppend(m.payload, data);
    } else {
      assert [] + data == data && [] + packets == packets;
    }
  }

  /** When every published payload consists of whole frames, the packets the application hears for a
      connection are the frames of that connection's joined data. */
  lemma {:induction false} HeardIsSplit(msgs: seq<Req>, fill: Filler, h: Cid)
    requires forall i :: 0 <= i < |msgs| ==> MessageOk(msgs[i])
    ensures F.Split(DataOf(msgs, h)) == (PacketsOf(Heard(msgs, fill), h), [])
  {
    if msgs != [] {
      HeardIsSplit(msgs[1..], fill, h);
      PacketsOfAppend(Callbacks(EncodeReq(msgs[0], fill)), Heard(msgs[1..], fill), h);
      HeardMessage(msgs[0], fill, h);
      DataStep(msgs[0], msgs[1..], PacketsOf(Heard(msgs[1..], fill), h), h);
      assert [msgs[0]] + msgs[1..] == msgs;
    }
  }
}
