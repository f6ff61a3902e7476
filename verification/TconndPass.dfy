/**
 tconnd_epool_proc's loop over the readable list on its links: the next pointer is saved before the current socket is
 served, and serving may delete any of them. The loop is proved to be the walk of TconndLoop.
 */
module TconndPass {
  import opened Basics
  import opened Sip
  import opened TconndState
  import opened TconndOwnership
  import opened TconndSteps
  import opened TconndStream
  import opened TconndLoop
  import opened TconndEngine
  import opened TlibcList
  import P = MempoolSpec

  // ----- a pass, seen from the sockets ahead -----

  function Turns(ios: seq<RecvIo>): (turns: seq<Turn>)
    ensures |turns| == |ios| && forall i :: 0 <= i < |ios| ==> turns[i] == OnSocket(ios[i])
  {
    seq(|ios|, i requires 0 <= i < |ios| => OnSocket(ios[i]))
  }

  lemma TurnsNext(ios: seq<RecvIo>, k: nat)
    requires k < |ios|
    ensures Turns(ios[k..])[0] == OnSocket(ios[k]) && Turns(ios[k..])[1..] == Turns(ios[k + 1..])
  {
  }

  /** The sockets ahead are the end of the readable list; or the first of them is dead, and there is no bus space. */
  ghost predicate Standing(st: State, done: seq<nat>, rest: seq<nat>, ios: seq<RecvIo>) {
    || st.readableList == done + rest
    || (ios != [] && rest != [] && rest[0] !in st.readableList && ios[0].busSpace < REQ_SIZE + 1)
  }

  lemma {:induction false} UnlinkConcat(a: seq<nat>, b: seq<nat>, x: nat)
    ensures Unlink(a + b, x) == if x in a then Unlink(a, x) + b else a + Unlink(b, x)
  {
    if a == [] {
      assert a + b == b;
    } else {
      assert (a + b)[1..] == a[1..] + b;
      if a[0] != x {
        UnlinkConcat(a[1..], b, x);
        ConcatAssociates([a[0]], Unlink(a[1..], x), b);
        ConcatAssociates([a[0]], a[1..], Unlink(b, x));
        assert [a[0]] + a[1..] == a;
      }
    }
  }

  /** What a turn does to the readable list. */
  lemma ServedReadable(st: State, id: nat, io: RecvIo)
    requires Inv(st) && id < |st.sockets| && id in st.readableList
    ensures var ret, list := Recv(st, id, io).1, Serve(st, id, io).readableList;
      if ret == Close || ret == Errno then list == Unlink(st.readableList, id)
      else if Victim(st, id, io).Some? then list == Unlink(st.readableList, Victim(st, id, io).value)
      else list == st.readableList
  {
    RecvKeepsReadable(st, id, io);
    ReadableIsEstablished(st, id);
    if Recv(st, id, io).1 == Close {
      CloseKeepsFlag(st, id, io);
    } else if Victim(st, id, io).Some? {
      var victim := Victim(st, id, io).value;
      RetriesChangeNothing(st, id, io);
      assert victim in st.packageList;
      if !st.sockets[victim].readable {
        UnlinkAbsent(st.readableList, victim);
      }
    }
  }

  lemma CloseKeepsFlag(st: State, id: nat, io: RecvIo)
    requires Shape(st) && id < |st.sockets| && Recv(st, id, io).1 == Close
    ensures var s := Recv(st, id, io).0.sockets[id];
      s.readable == st.sockets[id].readable && s.status == st.sockets[id].status
  {
  }

  /** What the walk over the sockets ahead comes to, as long as the pass may go on from here. */
  ghost function Goal(now: Option<State>, done: seq<nat>, rest: seq<nat>, ios: seq<RecvIo>, k: nat): Option<State> {
    if now.None? || !Inv(now.value) || !Below(rest, |now.value.sockets|) || k > |ios| then None
    else if !Possible(now.value, rest, Turns(ios[k..])) || !Spares(now.value, rest, Turns(ios[k..])) then None
    else if !Standing(now.value, done, rest, ios[k..]) then None
    else Some(Walk(now.value, rest, Turns(ios[k..])))
  }

  /** The list behind a turn still ends with the sockets ahead. */
  lemma ServedEnds(st: State, done: seq<nat>, rest: seq<nat>, turns: seq<Turn>) returns (done': seq<nat>)
    requires Inv(st) && rest != [] && st.readableList == done + rest && Below(rest, |st.sockets|)
    requires turns != [] && turns[0].OnSocket? && !HitsNext(st, rest, turns)
    ensures Serve(st, rest[0], turns[0].io).readableList == done' + Onward(st, rest, turns)
  {
    var x, more, victim := rest[0], rest[1..], Victim(st, rest[0], turns[0].io);
    var ret := Recv(st, x, turns[0].io).1;
    StandsOnFirst(st, done, rest);
    ServedReadable(st, x, turns[0].io);
    if ret == Close || ret == Errno {
      done' := CutEnds(done, x, more, x);
    } else if victim.Some? {
      done' := CutEnds(done, x, more, victim.value);
    } else {
      done' := done + [x];
    }
  }

  lemma StandsOnFirst(st: State, done: seq<nat>, rest: seq<nat>)
    requires Core(st) && rest != [] && st.readableList == done + rest
    ensures rest[0] in st.readableList && rest[0] !in done && rest[0] !in rest[1..]
    ensures forall y :: y in done ==> y !in rest[1..]
    ensures st.readableList == (done + [rest[0]]) + rest[1..] && Unlink(rest[1..], rest[0]) == rest[1..]
  {
    assert rest == [rest[0]] + rest[1..];
    assert rest[0] in done + rest;
    DistinctParts(done, rest[0], rest[1..]);
    UnlinkAbsent(rest[1..], rest[0]);
    ConcatAssociates(done, [rest[0]], rest[1..]);
  }

  /** Unlinking cuts a list with its end. */
  lemma CutEnds(done: seq<nat>, x: nat, more: seq<nat>, v: nat) returns (done': seq<nat>)
    requires x !in done && x !in more && forall y :: y in done ==> y !in more
    ensures Unlink((done + [x]) + more, v) == done' + Unlink(more, v)
  {
    UnlinkConcat(done + [x], more, v);
    done' := if v in done + [x] then Unlink(done + [x], v) else done + [x];
    if v in done + [x] {
      UnlinkAbsent(more, v);
    }
  }

  lemma DistinctParts(done: seq<nat>, x: nat, more: seq<nat>)
    requires Distinct(done + ([x] + more))
    ensures x !in done && x !in more && forall y :: y in done ==> y !in more
  {
    var all := done + ([x] + more);
    forall i | 0 <= i < |done| ensures done[i] != x {
      assert all[i] == done[i] && all[|done|] == x;
    }
    forall j | 0 <= j < |more| ensures more[j] != x {
      assert all[|done|] == x && all[|done| + 1 + j] == more[j];
    }
    forall i, j | 0 <= i < |done| && 0 <= j < |more| ensures done[i] != more[j] {
      assert all[i] == done[i] && all[|done| + 1 + j] == more[j];
    }
  }

  /** What a turn of a sparing pass may rely on, and what a walk comes to that gives up. */
  lemma PassTurn(st: State, done: seq<nat>, rest: seq<nat>, ios: seq<RecvIo>, k: nat)
    requires Inv(st) && k < |ios| && rest != [] && Below(rest, |st.sockets|)
    requires Possible(st, rest, Turns(ios[k..])) && Standing(st, done, rest, ios[k..])
    ensures ios[k].busSpace >= REQ_SIZE + 1 ==> Enabled(st, Receive(rest[0], ios[k]))
    ensures rest[0] in st.readableList ==> st.readableList == done + rest
    ensures GivesUp(Recv(st, rest[0], ios[k]).1) ==>
      Walk(st, rest, Turns(ios[k..])) == Serve(st, rest[0], ios[k])
    ensures rest[0] !in st.readableList ==> GivesUp(Recv(st, rest[0], ios[k]).1)
    ensures Inv(Serve(st, rest[0], ios[k]))
  {
    TurnsNext(ios, k);
    assert ios[k..][0] == ios[k];
    ServeReady(st, rest[0], ios[k]);
  }

  lemma PassOn(st: State, done: seq<nat>, rest: seq<nat>, ios: seq<RecvIo>, k: nat)
    returns (done': seq<nat>, rest': seq<nat>)
    requires Inv(st) && k < |ios| && rest != [] && Below(rest, |st.sockets|) && st.readableList == done + rest
    requires Possible(st, rest, Turns(ios[k..])) && Spares(st, rest, Turns(ios[k..]))
    requires !GivesUp(Recv(st, rest[0], ios[k]).1) && Inv(Serve(st, rest[0], ios[k]))
    ensures Goal(Some(Serve(st, rest[0], ios[k])), done', rest', ios, k + 1) == Some(Walk(st, rest, Turns(ios[k..])))
    ensures k + 1 < |ios| ==> (rest' == [] <==> |rest| == 1) && (rest' != [] ==> rest'[0] == rest[1])
  {
    rest' := Onward(st, rest, Turns(ios[k..]));
    done' := StandsOn(st, done, rest, ios, k);
    WalksOn(st, rest, ios, k);
  }

  lemma WalksOn(st: State, rest: seq<nat>, ios: seq<RecvIo>, k: nat)
    requires Shape(st) && k < |ios| && rest != [] && Below(rest, |st.sockets|)
    requires Possible(st, rest, Turns(ios[k..])) && Spares(st, rest, Turns(ios[k..]))
    requires !GivesUp(Recv(st, rest[0], ios[k]).1)
    ensures var st1, turns, onward := Serve(st, rest[0], ios[k]), Turns(ios[k + 1..]), Onward(st, rest, Turns(ios[k..]));
      && Possible(st1, onward, turns) && Spares(st1, onward, turns)
      && Walk(st1, onward, turns) == Walk(st, rest, Turns(ios[k..]))
  {
    TurnsNext(ios, k);
  }

  lemma StandsOn(st: State, done: seq<nat>, rest: seq<nat>, ios: seq<RecvIo>, k: nat) returns (done': seq<nat>)
    requires Inv(st) && k < |ios| && rest != [] && Below(rest, |st.sockets|) && st.readableList == done + rest
    requires !Strikes(st, rest, Turns(ios[k..]))
    ensures var onward := Onward(st, rest, Turns(ios[k..]));
      && Standing(Serve(st, rest[0], ios[k]), done', onward, ios[k + 1..])
      && (k + 1 < |ios| ==> (onward == [] <==> |rest| == 1) && (onward != [] ==> onward[0] == rest[1]))
  {
    var turns := Turns(ios[k..]);
    if HitsNext(st, rest, turns) {
      done' := done;
      assert turns[1] == OnSocket(ios[k + 1]) && ios[k + 1..][0] == ios[k + 1];
      RestOnList(st, done, rest);
      NextIsDead(st, rest, turns);
    } else {
      done' := ServedEnds(st, done, rest, turns);
      OnwardStarts(st, rest, turns);
    }
  }

  lemma RestOnList(st: State, done: seq<nat>, rest: seq<nat>)
    requires Core(st) && st.readableList == done + rest && Below(rest, |st.sockets|)
    ensures OnList(st, rest)
  {
    forall i, j | 0 <= i < j < |rest| ensures rest[i] != rest[j] {
      assert st.readableList[|done| + i] == rest[i] && st.readableList[|done| + j] == rest[j];
    }
  }

  /** The walk goes on with the socket that was saved. */
  lemma OnwardStarts(st: State, rest: seq<nat>, turns: seq<Turn>)
    requires Shape(st) && Below(rest, |st.sockets|) && turns != [] && turns[0].OnSocket? && rest != []
    requires !HitsNext(st, rest, turns) && (|turns| > 1 ==> turns[1].OnSocket?)
    ensures var onward := Onward(st, rest, turns);
      |turns| > 1 ==> (onward == [] <==> |rest| == 1) && (onward != [] ==> onward[0] == rest[1])
  {
  }

  // ----- the loop on the links -----

  /** The link that leads to these sockets. */
  ghost predicate Leads(e: Engine, iter: Link, rest: seq<nat>) {
    if rest == [] then iter == e.links.lists.readable.head
    else rest[0] < |e.links.lists.readable.nodes| && iter == e.links.lists.readable.nodes[rest[0]]
  }

  /** tconnd_epool_proc's loop over the readable list, on its links: the next pointer is saved before the current
      socket is served, and serving may delete any of them. */
  method ReceivePass(e: Engine, ios: seq<RecvIo>)
    requires e.Apart() && e.View().Some? && Inv(e.View().value)
    requires Possible(e.View().value, e.View().value.readableList, Turns(ios))
    requires Spares(e.View().value, e.View().value.readableList, Turns(ios))
    modifies e`outbox, e`received, e.sockets, e.buffs, e.links.repr
    ensures e.View() == Some(Walk(old(e.View().value), old(e.View().value).readableList, Turns(ios)))
  {
    ghost var st := e.View().value;
    PassStarts(st, ios);
    var first := FirstReadable(e);
    PassFrom(e, first, ios, st.readableList);
  }

  lemma PassStarts(st: State, ios: seq<RecvIo>)
    requires Inv(st) && Possible(st, st.readableList, Turns(ios)) && Spares(st, st.readableList, Turns(ios))
    ensures Goal(Some(st), [], st.readableList, ios, 0) == Some(Walk(st, st.readableList, Turns(ios)))
  {
    assert [] + st.readableList == st.readableList && ios[0..] == ios;
  }

  method FirstReadable(e: Engine) returns (first: Link)
    requires e.View().Some?
    ensures Leads(e, first, e.View().value.readableList)
  {
    e.links.WhatListsSay();
    e.links.lists.Walks(e.links.lists.readable, 0);
    first := e.links.lists.readable.head.next;
  }

  method PassFrom(e: Engine, first: Link, ios: seq<RecvIo>, ghost ahead: seq<nat>)
    requires e.Apart() && Leads(e, first, ahead) && Goal(e.View(), [], ahead, ios, 0).Some?
    modifies e`outbox, e`received, e.sockets, e.buffs, e.links.repr
    ensures e.View() == old(Goal(e.View(), [], ahead, ios, 0))
  {
    ghost var goal := Goal(e.View(), [], ahead, ios, 0);
    ghost var rest, done: seq<nat> := ahead, [];
    var iter, k := first, 0;
    while k < |ios| && iter != e.links.lists.readable.head
      invariant k <= |ios| && Goal(e.View(), done, rest, ios, k) == goal && (k < |ios| ==> Leads(e, iter, rest))
    {
      HeadIsNoNode(e, rest);
      var over;
      iter, over, done, rest := PassHere(e, iter, ios, k, done, rest);
      k := k + 1;
      if over {
        return;
      }
    }
    HeadIsNoNode(e, rest);
    PassEnds(e.View(), done, rest, ios, k);
  }

  lemma HeadIsNoNode(e: Engine, rest: seq<nat>)
    requires e.View().Some?
    ensures Leads(e, e.links.lists.readable.head, rest) ==> rest == []
  {
    e.links.WhatListsSay();
  }

  lemma PassEnds(now: Option<State>, done: seq<nat>, rest: seq<nat>, ios: seq<RecvIo>, k: nat)
    requires Goal(now, done, rest, ios, k).Some? && (k < |ios| ==> rest == [])
    ensures Goal(now, done, rest, ios, k) == now
  {
  }

  /** The body of that loop. */
  method PassHere(e: Engine, iter: Link, ios: seq<RecvIo>, k: nat, ghost done: seq<nat>, ghost rest: seq<nat>)
    returns (next: Link, over: bool, ghost done': seq<nat>, ghost rest': seq<nat>)
    requires e.Apart() && k < |ios| && rest != [] && Leads(e, iter, rest) && Goal(e.View(), done, rest, ios, k).Some?
    modifies e`outbox, e`received, e.sockets, e.buffs, e.links.repr
    ensures over ==> e.View() == old(Goal(e.View(), done, rest, ios, k))
    ensures !over ==>
      && Goal(e.View(), done', rest', ios, k + 1) == old(Goal(e.View(), done, rest, ios, k))
      && (k + 1 < |ios| ==> Leads(e, next, rest'))
  {
    ghost var st := e.View().value;
    PassTurn(st, done, rest, ios, k);
    var ret;
    next, ret := ReceiveHere(e, iter, ios[k], done, rest);
    assert e.View() == Some(Serve(st, rest[0], ios[k]));
    over := GivesUp(ret);
    done', rest' := done, rest;
    if !over {
      done', rest' := PassOn(st, done, rest, ios, k);
    }
  }

  /** One turn of that loop. */
  method ReceiveHere(e: Engine, iter: Link, io: RecvIo, ghost done: seq<nat>, ghost rest: seq<nat>)
    returns (next: Link, ret: Ret)
    requires e.Apart() && e.View().Some? && Inv(e.View().value) && rest != [] && Leads(e, iter, rest)
    requires rest[0] < e.sockets.Length && (io.busSpace >= REQ_SIZE + 1 ==> Enabled(e.View().value, Receive(rest[0], io)))
    requires rest[0] in e.View().value.readableList ==> e.View().value.readableList == done + rest
    modifies e`outbox, e`received, e.sockets, e.buffs, e.links.repr
    ensures e.View() == Some(Serve(old(e.View().value), rest[0], io))
    ensures ret == Recv(old(e.View().value), rest[0], io).1
    ensures rest[0] in old(e.View().value).readableList ==> Leads(e, next, rest[1..])
  {
    var id;
    next, id := SaveNext(e, iter, done, rest);
    ret := e.ServeReadable(id, io);
  }

  /** next = iter->next, and the socket that iter is a node of. */
  method SaveNext(e: Engine, iter: Link, ghost done: seq<nat>, ghost rest: seq<nat>) returns (next: Link, id: nat)
    requires e.View().Some? && rest != [] && Leads(e, iter, rest)
    requires rest[0] in e.View().value.readableList ==> e.View().value.readableList == done + rest
    ensures id == rest[0] && (rest[0] in e.View().value.readableList ==> Leads(e, next, rest[1..]))
  {
    e.links.WhatListsSay();
    if rest[0] in e.View().value.readableList {
      e.links.lists.Walks(e.links.lists.readable, |done|);
      e.links.lists.Walks(e.links.lists.readable, |done| + 1);
    }
    next, id := iter.next, iter.owner;
  }
}
