/**
 From the clients' sockets to the server's callbacks: the main loop of tconnd publishes on the bus, tconnapi takes
 from it what the interleaving of the two programs lets it see, and nothing is lost or reordered on the way.
 */
module TconndBus {
  import opened Basics
  import opened Sip
  import opened TconndState
  import opened TconndStream
  import opened TconndLoop
  import opened TconndService
  import F = Framing
  import A = Tconnapi
  import Tbusapi
  import Bus = TbusSpec
  import Ring = Tbus

  /** The messages as they lie on the bus. */
  function Encoded(msgs: seq<Req>, fill: Filler): (bodies: seq<Bytes>) {
    if msgs == [] then [] else [EncodeReq(msgs[0], fill)] + Encoded(msgs[1..], fill)
  }

  /** What the application is told about bus messages. */
  function Reported(bodies: seq<Bytes>): seq<A.Callback> {
    if bodies == [] then [] else A.Callbacks(bodies[0]) + Reported(bodies[1..])
  }

  lemma {:induction false} ReportedAppend(a: seq<Bytes>, b: seq<Bytes>)
    ensures Reported(a + b) == Reported(a) + Reported(b)
  {
    if a == [] {
      assert a + b == b;
    } else {
      assert (a + b)[1..] == a[1..] + b;
      ReportedAppend(a[1..], b);
      ConcatAssociates(A.Callbacks(a[0]), Reported(a[1..]), Reported(b));
    }
  }

  lemma {:induction false} HeardIsReported(msgs: seq<Req>, fill: Filler)
    ensures A.Heard(msgs, fill) == Reported(Encoded(msgs, fill))
  {
    if msgs != [] {
      HeardIsReported(msgs[1..], fill);
      var bodies := Encoded(msgs[1..], fill);
      assert ([EncodeReq(msgs[0], fill)] + bodies)[1..] == bodies;
    }
  }

  /** The complete frames of a connection are what the application has heard, what is still on the bus, and what was
      lost in a refusal. */
  lemma OverTheBus(
      config: Config, events: seq<Event>, st: State, fill: Filler, accepted: seq<Bytes>, pending: seq<Bytes>, h: Cid)
    requires config.connections <= UINT32_MAX
    requires Loop(Start(config), events) == Some(st) && SparesNext(Start(config), events)
    requires Encoded(st.outbox, fill) == accepted + pending
    ensures F.Split(StreamOf(st, h)).0 ==
      A.PacketsOf(Reported(accepted), h) + A.PacketsOf(Reported(pending), h) + LostFrames(config, events, h)
  {
    EndToEnd(config, events, st, h, fill);
    HeardIsReported(st.outbox, fill);
    ReportedAppend(accepted, pending);
    A.PacketsOfAppend(Reported(accepted), Reported(pending), h);
  }

  /**
   tconnapi_process over any interleaving with a tconnd that sends what its main loop published: the callbacks made
   account for every frame, with the messages that are still on the bus.
   */
  method ServeApplication(
      config: Config, ghost events: seq<Event>, ghost st: State, fill: Filler,
      size: nat, number: nat, turns: seq<Tbusapi.Access>)
    returns (sent: seq<Bytes>, accepted: seq<Bytes>, callbacks: seq<A.Callback>)
    requires config.connections <= UINT32_MAX
    requires Loop(Start(config), events) == Some(st) && SparesNext(Start(config), events)
    requires number > 0 && Ring.Capacity(size + Bus.HEADER, number) <= UINT32_MAX
    ensures accepted <= sent && callbacks == Reported(accepted)
    ensures sent == Encoded(st.outbox, fill) ==> forall h ::
      F.Split(StreamOf(st, h)).0 ==
        A.PacketsOf(callbacks, h) + A.PacketsOf(Reported(sent[|accepted|..]), h) + LostFrames(config, events, h)
  {
    ghost var pending;
    sent, accepted, pending := Tbusapi.Interleave(size, number, turns);
    callbacks := Report(accepted);
    assert sent[|accepted|..] == pending;
    if sent == Encoded(st.outbox, fill) {
      forall h {
        OverTheBus(config, events, st, fill, accepted, pending, h);
      }
    }
  }

  /** tconnapi_on_recv for every message accepted. */
  method Report(bodies: seq<Bytes>) returns (callbacks: seq<A.Callback>)
    ensures callbacks == Reported(bodies)
  {
    callbacks := [];
    var i := 0;
    while i < |bodies|
      invariant i <= |bodies| && callbacks + Reported(bodies[i..]) == Reported(bodies)
    {
      var made := A.OnRecv(bodies[i]);
      assert bodies[i..][1..] == bodies[i + 1..];
      ConcatAssociates(callbacks, made, Reported(bodies[i + 1..]));
      callbacks := callbacks + made;
      i := i + 1;
    }
    assert callbacks + [] == callbacks;
  }
}
