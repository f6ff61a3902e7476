/**
 From the server's application to its clients: what the application encoded with tconnapi, broadcast or not, is what the
 clients are written, and what becomes of a connection that gets one answer.
 */
module TconndDownward {
  import opened Basics
  import opened Sip
  import opened TconndState
  import opened TconndOwnership
  import opened TconndSteps
  import opened TconndOutput
  import opened TconndFates

  // ----- answers -----

  /** The messages of the batch are these answers, each encoded into some bus space. */
  ghost predicate Carries(batch: seq<Bytes>, answers: seq<Answer>) {
    |batch| == |answers| && forall k :: 0 <= k < |batch| ==> Carried(batch[k], answers[k])
  }

  ghost predicate Carried(msg: Bytes, a: Answer) {
    AnswerOk(a) && msg != [] && exists space, fill :: 0 <= space <= UINT32_MAX && msg == Encode(a, space, fill)
  }

  function Repeat(body: Bytes, n: nat): Bytes {
    if n == 0 then [] else body + Repeat(body, n - 1)
  }

  /** How often a connection is named. */
  function Times(cids: seq<Cid>, h: Cid): nat {
    if cids == [] then 0 else (if cids[0] == h then 1 else 0) + Times(cids[1..], h)
  }

  /** What the application asked to be sent to a connection: a body goes out once for every time it is named. */
  function Asked(answers: seq<Answer>, h: Cid): Bytes {
    if answers == [] then []
    else
      (if answers[0].cmd == CMD_SEND && answers[0].data.Some? then
         Repeat(answers[0].data.value, Times(answers[0].cids, h))
       else [])
      + Asked(answers[1..], h)
  }

  lemma CarriedDecodes(msg: Bytes, a: Answer)
    requires Carried(msg, a)
    ensures DecodeRsp(msg) ==
      Rsp(a.cmd, a.cids, if a.cmd == CMD_SEND && a.data.Some? then a.data.value else [])
  {
    var space, fill :| 0 <= space <= UINT32_MAX && msg == Encode(a, space, fill);
    RspRoundTrip(a, space, fill);
  }

  /** A broadcast names every connection on its list, in order. */
  lemma {:induction false} EachNamed(cids: seq<Cid>, cmd: nat, body: Bytes)
    ensures var ds := ForEachCid(cids, cmd, body);
      |ds| == |cids| && forall i :: 0 <= i < |ds| ==> ds[i] == Delivery(cids[i], cmd, body)
  {
    if cids != [] {
      EachNamed(cids[1..], cmd, body);
    }
  }

  lemma AddressedCons(d: Delivery, ds: seq<Delivery>, h: Cid)
    ensures Addressed([d] + ds, h) == (if d.cid == h && d.cmd == CMD_SEND then d.body else []) + Addressed(ds, h)
  {
    assert ([d] + ds)[1..] == ds;
  }

  lemma {:induction false} EachAddressed(cids: seq<Cid>, cmd: nat, body: Bytes, h: Cid)
    ensures Addressed(ForEachCid(cids, cmd, body), h) ==
      if cmd == CMD_SEND then Repeat(body, Times(cids, h)) else []
  {
    if cids != [] {
      EachAddressed(cids[1..], cmd, body, h);
      AddressedCons(Delivery(cids[0], cmd, body), ForEachCid(cids[1..], cmd, body), h);
      var n := Times(cids[1..], h);
      assert Repeat(body, n + 1) == body + Repeat(body, n);
    }
  }

  lemma {:induction false} JoinAddressed(a: seq<Delivery>, b: seq<Delivery>, h: Cid)
    ensures Addressed(a + b, h) == Addressed(a, h) + Addressed(b, h)
  {
    if a == [] {
      assert a + b == b;
    } else {
      assert (a + b)[1..] == a[1..] + b;
      JoinAddressed(a[1..], b, h);
    }
  }

  lemma {:induction false} RepeatNothing(n: nat)
    ensures Repeat([], n) == []
  {
    if n > 0 {
      RepeatNothing(n - 1);
    }
  }

  lemma {:induction false} AnswersAddressed(batch: seq<Bytes>, answers: seq<Answer>, h: Cid)
    requires Carries(batch, answers)
    ensures Addressed(Deliveries(batch), h) == Asked(answers, h)
  {
    if batch != [] {
      var a := answers[0];
      var body := if a.cmd == CMD_SEND && a.data.Some? then a.data.value else [];
      CarriedDecodes(batch[0], a);
      AnswersAddressed(batch[1..], answers[1..], h);
      EachAddressed(a.cids, a.cmd, body, h);
      JoinAddressed(ForEachCid(a.cids, a.cmd, body), Deliveries(batch[1..]), h);
      RepeatNothing(Times(a.cids, h));
    }
  }

  /** Over one call of process_input_tbus and all answers of the operating system: a connection that survives was written
      exactly what the application asked for, once for each time it was named, in order; one that was deleted a prefix of
      it; and a handle that was not live nothing. */
  lemma AnswersReachClients(st: State, batch: seq<Bytes>, answers: seq<Answer>, os: Os, h: Cid)
    requires Inv(st) && Carries(batch, answers)
    ensures var r := ProcessInput(st, batch, os); var asked := Asked(answers, h);
      && (Live(r, h) ==> Live(st, h) && Wire(r, h) == Wire(st, h) + asked)
      && (Live(st, h) && !Live(r, h) ==> Wire(st, h) <= Wire(r, h) <= Wire(st, h) + asked)
      && (!Live(st, h) ==> Wire(r, h) == Wire(st, h))
  {
    AnswersAddressed(batch, answers, h);
    BatchedOutput(st, batch, os, h);
  }

  // ----- one answer to one connection -----

  /** The connection is still there after this answer: a waiting one that is accepted and that epoll takes, or an
      established one that is sent something that is written in one go. */
  predicate Stays(st: State, s: Socket, a: Answer, os: Os) {
    || (a.cmd == CMD_ACCEPT && s.status == SynSent && os.epollAdd(st.calls))
    || (a.cmd == CMD_SEND && s.status == Established && a.data.Some? && a.data.value != []
        && os.writev(st.calls).Wrote? && os.writev(st.calls).n >= |a.data.value|)
  }

  lemma OneDelivery(msg: Bytes, a: Answer, h: Cid)
    requires Carried(msg, a) && a.cids == [h]
    ensures Deliveries([msg]) ==
      [Delivery(h, a.cmd, if a.cmd == CMD_SEND && a.data.Some? then a.data.value else [])]
  {
    CarriedDecodes(msg, a);
    var body := if a.cmd == CMD_SEND && a.data.Some? then a.data.value else [];
    EachNamed([h], a.cmd, body);
    assert ForEachCid([h], a.cmd, body) == [Delivery(h, a.cmd, body)];
    assert [msg][1..] == [];
    assert Deliveries([msg]) == ForEachCid([h], a.cmd, body) + Deliveries([msg][1..]);
    assert ForEachCid([h], a.cmd, body) + [] == ForEachCid([h], a.cmd, body);
  }

  /** The flush that follows a single delivery. */
  lemma FlushAfterOne(st: State, d: Delivery, os: Os)
    requires Inv(st) && Live(st, d.cid)
    ensures var w := Deliver(Work(st, []), d, os); var r := FlushAll(w.st, w.writable, os);
      Live(r, d.cid) <==>
        && Live(w.st, d.cid) && d.cid.id < |w.st.sockets|
        && WritesOut(w.st, w.st.sockets[d.cid.id], os)
  {
    var w := Deliver(Work(st, []), d, os);
    QuietIsWork(st);
    LiveIsUsed(st, d.cid);
    DeliverExactly(Work(st, []), d, os);
    DeliverKeeps(Work(st, []), d, os);
    LiveIsUsed(w.st, d.cid);
    if Live(w.st, d.cid) {
      DeliverMarks(Work(st, []), d, os);
      assert w.writable == [d.cid.id];
      assert FlushAll(w.st, w.writable, os) == FlushOne(w.st, d.cid.id, os);
      FlushOneExactly(w.st, d.cid.id, os);
    } else {
      DeliverDeletes(Work(st, []), d, os);
      assert w.writable == [];
    }
  }

  lemma QueuedAfterOne(st: State, d: Delivery, os: Os)
    requires Inv(st) && Live(st, d.cid) && Live(Deliver(Work(st, []), d, os).st, d.cid)
    ensures d.cid.id < |st.sockets| == |Deliver(Work(st, []), d, os).st.sockets|
    ensures var r := Deliver(Work(st, []), d, os).st;
      && r.sockets[d.cid.id].iov == (if d.cmd == CMD_SEND then [d.body] else [])
      && (d.cmd == CMD_SEND ==> r.calls == st.calls)
  {
    LiveIsUsed(st, d.cid);
    QuietIsWork(st);
    DeliverExactly(Work(st, []), d, os);
    assert st.sockets[d.cid.id].iov == [];
  }

  /** What one answer to one connection does to it, from the answer to the end of the call. */
  lemma OneAnswerExactly(st: State, msg: Bytes, a: Answer, os: Os, h: Cid)
    requires Inv(st) && Live(st, h) && Carried(msg, a) && a.cids == [h]
    ensures h.id < |st.sockets|
    ensures Live(ProcessInput(st, [msg], os), h) <==> Stays(st, st.sockets[h.id], a, os)
  {
    var d := Delivery(h, a.cmd, if a.cmd == CMD_SEND && a.data.Some? then a.data.value else []);
    var w := Deliver(Work(st, []), d, os);
    LiveIsUsed(st, h);
    QuietIsWork(st);
    OneDelivery(msg, a, h);
    assert DeliverAll(Work(st, []), [d], os) == w by {
      assert [d][1..] == [];
    }
    DataFits(msg, a);
    DeliverExactly(Work(st, []), d, os);
    FlushAfterOne(st, d, os);
    if Live(w.st, h) {
      QueuedAfterOne(st, d, os);
      OneQueued(d.body);
    }
  }

  lemma OneQueued(body: Bytes)
    ensures Flatten([body]) == body
  {
    assert [body][1..] == [];
    assert Flatten([body]) == body + [];
  }

  lemma DataFits(msg: Bytes, a: Answer)
    requires Carried(msg, a)
    ensures a.data.Some? ==> |a.data.value| <= UINT32_MAX
  {
  }
}
