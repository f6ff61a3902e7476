/**
 The tconnd engine in its own form: socket and buffer memory updated in place, the two pools and the three global
 lists as linked nodes, and one method per C function. Every method is proved to do to the abstract state, which is
 what the memory and the links say, exactly what the function of the same name in TconndState does. The loops follow
 links: the flush loop reads iter->next after it may have deleted the socket, the others save the next pointer.
 */
module TconndEngine {
  import opened Basics
  import opened Sip
  import opened TconndState
  import opened TconndOwnership
  import opened TconndSteps
  import opened TconndLinks
  import opened TlibcList
  import M = Mempool
  import F = Framing
  import P = MempoolSpec

  /** A socket just taken from the pool is on none of the lists. */
  lemma NewIsOnNoList(st: State)
    requires Core(st) && !P.Empty(st.socketPool)
    ensures var id := st.socketPool.unused[0];
      id < |st.sockets| && id !in st.pendingList && id !in st.packageList && id !in st.readableList
  {
    P.AllocPartitions(st.socketPool);
  }

  class Engine {
    const config: Config
    var curTicks: nat
    const sockets: array<Socket>
    const buffs: array<Bytes>
    const links: Links
    /** Every socket's node for the local list of process_input_tbus. */
    const writableNodes: seq<Link>
    var outbox: seq<Req>
    var calls: nat
    /** What the peers have been sent and have sent. */
    ghost var sent: map<Cid, Bytes>
    ghost var received: map<Cid, Bytes>

    /** The parts of the memory are separate. */
    ghost predicate Apart() {
      && this !in links.repr && sockets !in links.repr && buffs !in links.repr
      && links.Nodes() == |writableNodes| == sockets.Length
      && (forall i :: 0 <= i < |writableNodes| ==> writableNodes[i].owner == i && writableNodes[i] !in links.repr)
    }

    /** The abstract state, as long as the links are sound. */
    ghost function View(): Option<State>
      reads this, sockets, buffs, links, links.repr
    {
      match links.Now()
      case None => None
      case Some(Memory(Pooled(socketPool, packagePool), Listed(pending, package, readable, _))) =>
        Some(State(config, curTicks, socketPool, sockets[..], packagePool, buffs[..],
                   pending, package, readable, outbox, sent, received, calls))
    }

    /** The engine over memory that was allocated for it. */
    constructor (config: Config, sockets: array<Socket>, buffs: array<Bytes>, links: Links, nodes: seq<Link>)
      requires sockets[..] == Start(config).sockets && buffs[..] == Start(config).buffs
      requires links.Now() ==
        Some(Memory(Pooled(P.Init(config.connections), P.Init(config.packageConnections)), Listed([], [], [], None)))
      requires sockets !in links.repr && buffs !in links.repr && links.Nodes() == |nodes| == sockets.Length
      requires forall i :: 0 <= i < |nodes| ==> nodes[i].owner == i && nodes[i] !in links.repr
      ensures Apart() && View() == Some(Start(config))
      ensures this.sockets == sockets && this.buffs == buffs && this.links == links
      ensures writableNodes == nodes
    {
      this.config, this.sockets, this.buffs, this.links, writableNodes := config, sockets, buffs, links, nodes;
      curTicks, outbox, calls, sent, received := 0, [], 0, map[], map[];
    }

    static method Assemble(config: Config, sockets: array<Socket>, buffs: array<Bytes>) returns (engine: Engine)
      requires sockets[..] == Start(config).sockets && buffs[..] == Start(config).buffs
      ensures engine.Apart() && engine.View() == Some(Start(config)) && engine.sockets == sockets && engine.buffs == buffs
      ensures fresh(engine) && fresh(engine.writableNodes) && fresh(engine.links) && fresh(engine.links.repr)
    {
      var links := Links.Create(config.connections, config.packageConnections);
      var nodes := M.Pool.NewNodes(config.connections);
      engine := new Engine(config, sockets, buffs, links, nodes);
    }

    /** What tconnd's initialisation allocates. */
    static method Create(config: Config) returns (engine: Engine)
      ensures engine.Apart() && engine.View() == Some(Start(config)) && Inv(Start(config))
      ensures fresh(engine) && fresh(engine.sockets) && fresh(engine.buffs) && fresh(engine.writableNodes)
      ensures fresh(engine.links) && fresh(engine.links.repr)
    {
      StartHasInv(config);
      var sockets := new Socket[config.connections](_ => BLANK);
      var buffs := new Bytes[config.packageConnections](_ => []);
      assert sockets[..] == Start(config).sockets;
      assert buffs[..] == Start(config).buffs;
      engine := Assemble(config, sockets, buffs);
    }

    // ----- the memory, piece by piece -----

    method PutSocket(id: nat, s: Socket)
      requires Apart() && View().Some? && id < sockets.Length
      modifies sockets
      ensures View() == Some(old(View().value).(sockets := old(View().value).sockets[id := s]))
      ensures links.Now() == old(links.Now())
    {
      sockets[id] := s;
    }

    method PutBuffer(b: nat, bytes: Bytes)
      requires Apart() && View().Some? && b < buffs.Length
      modifies buffs
      ensures View() == Some(old(View().value).(buffs := old(View().value).buffs[b := bytes]))
    {
      buffs[b] := bytes;
    }

    /** A message on the output bus. */
    method Put(m: Req)
      requires Apart() && View().Some?
      modifies this`outbox
      ensures View() == Some(old(View().value).(outbox := old(View().value).outbox + [m]))
    {
      outbox := outbox + [m];
    }

    method TakeSlot() returns (id: nat)
      requires Apart() && View().Some? && !P.Empty(View().value.socketPool)
      modifies links.repr
      ensures var st := old(View().value);
        && st.socketPool.unused[0] < |st.socketPool.sns| && id == st.socketPool.unused[0]
        && View() == Some(st.(socketPool := P.Alloc(st.socketPool).0))
    {
      id := links.AllocSocket();
    }

    method GiveSlot(id: nat)
      requires Apart() && View().Some? && id in View().value.socketPool.used
      modifies links.repr
      ensures var st := old(View().value);
        id < |st.socketPool.sns| && View() == Some(st.(socketPool := P.Free(st.socketPool, id)))
    {
      links.FreeSocket(id);
    }

    method TakeBuffer() returns (b: nat)
      requires Apart() && View().Some? && !P.Empty(View().value.packagePool)
      modifies links.repr
      ensures var st := old(View().value);
        && st.packagePool.unused[0] < |st.packagePool.sns| && b == st.packagePool.unused[0]
        && View() == Some(st.(packagePool := P.Alloc(st.packagePool).0))
    {
      b := links.AllocPackage();
    }

    method GiveBuffer(b: nat)
      requires Apart() && View().Some? && b in View().value.packagePool.used
      modifies links.repr
      ensures var st := old(View().value);
        b < |st.packagePool.sns| && View() == Some(st.(packagePool := P.Free(st.packagePool, b)))
    {
      links.FreePackage(b);
    }

    method JoinPending(id: nat)
      requires Apart() && View().Some? && id < sockets.Length && id !in View().value.pendingList
      modifies links.repr
      ensures View() == Some(old(View().value).(pendingList := old(View().value).pendingList + [id]))
    {
      links.AppendPending(id);
    }

    method LeavePending(id: nat)
      requires Apart() && View().Some? && id in View().value.pendingList
      modifies links.repr
      ensures View() == Some(old(View().value).(pendingList := Unlink(old(View().value).pendingList, id)))
      ensures links.Now().Some? && links.Now().value.lists.gone == Some(id)
    {
      links.UnlinkPending(id);
    }

    method LeavePendingAgain(id: nat)
      requires Apart() && View().Some? && (id in View().value.pendingList || links.Now().value.lists.gone == Some(id))
      modifies links.repr
      ensures View() == Some(old(View().value).(pendingList := Unlink(old(View().value).pendingList, id)))
    {
      links.UnlinkPendingAgain(id);
    }

    method JoinPackage(id: nat)
      requires Apart() && View().Some? && id < sockets.Length && id !in View().value.packageList
      modifies links.repr
      ensures View() == Some(old(View().value).(packageList := old(View().value).packageList + [id]))
    {
      links.AppendPackage(id);
    }

    method LeavePackage(id: nat)
      requires Apart() && View().Some? && id in View().value.packageList
      modifies links.repr
      ensures View() == Some(old(View().value).(packageList := Unlink(old(View().value).packageList, id)))
    {
      links.UnlinkPackage(id);
    }

    method JoinReadable(id: nat)
      requires Apart() && View().Some? && id < sockets.Length && id !in View().value.readableList
      modifies links.repr
      ensures View() == Some(old(View().value).(readableList := old(View().value).readableList + [id]))
    {
      links.AppendReadable(id);
    }

    method LeaveReadable(id: nat)
      requires Apart() && View().Some? && id in View().value.readableList
      modifies links.repr
      ensures View() == Some(old(View().value).(readableList := Unlink(old(View().value).readableList, id)))
    {
      links.UnlinkReadable(id);
    }

    /** The tlibc_list_init calls of tcond_socket_construct. */
    method InitNodes(id: nat)
      requires Apart() && View().Some? && id < sockets.Length
      requires var st := View().value; id !in st.pendingList && id !in st.packageList && id !in st.readableList
      modifies links.repr, writableNodes
      ensures View() == old(View())
    {
      links.InitNodes(id);
      writableNodes[id].Init();
    }

    // ----- sockets -----

    /** tconnd_socket_new, with its construction of the socket. */
    method NewSocket() returns (socket: Option<nat>)
      requires Apart() && View().Some? && Core(View().value)
      modifies sockets, links.repr, writableNodes
      ensures (View(), socket) == (Some(New(old(View().value)).0), New(old(View().value)).1)
    {
      var empty := links.SocketsEmpty();
      if empty {
        return None;
      }
      var over := links.SocketsOver();
      if over {
        return None;
      }
      NewIsOnNoList(View().value);
      var id := TakeSlot();
      PutSocket(id, BLANK);
      InitNodes(id);
      return Some(id);
    }

    /** The socket is used, and what it holds can be given back. A pending one is on its list, or was unlinked from it
        just before. */
    ghost predicate Deletable(id: nat)
      requires View().Some?
      reads this, sockets, buffs, links, links.repr
    {
      var st := View().value;
      && Shape(st) && Owned(st, id)
      && (st.sockets[id].status == SynSent ==> id in st.pendingList || links.Now().value.lists.gone == Some(id))
    }

    /** tconnd_socket_delete: the destructor, then the slot goes back. */
    method DeleteSocket(id: nat)
      requires Apart() && View().Some? && Deletable(id)
      modifies sockets, links.repr
      ensures View() == Some(Delete(old(View().value), id))
    {
      DestructSocket(id);
      GiveSlot(id);
    }

    /** tcond_socket_destruct */
    method DestructSocket(id: nat)
      requires Apart() && View().Some? && Deletable(id)
      modifies sockets, links.repr
      ensures View() == Some(Destruct(old(View().value), id))
    {
      match sockets[id].status {
        case Closed =>
        case SynSent =>
          LeavePendingAgain(id);
        case Established =>
          if sockets[id].packageBuff.Some? {
            DropBuffer(id);
          }
          if sockets[id].readable {
            LeaveReadable(id);
          }
        case Listening =>
          if sockets[id].readable {
            LeaveReadable(id);
          }
      }
    }

    /** The cached package buffer goes back, the socket leaves the package list. */
    method DropBuffer(id: nat)
      requires Apart() && View().Some? && Shape(View().value) && Owned(View().value, id) && sockets[id].packageBuff.Some?
      modifies sockets, links.repr
      ensures View() == Some(DropPackage(old(View().value), id))
    {
      LeavePackage(id);
      GiveBuffer(sockets[id].packageBuff.value);
      PutSocket(id, sockets[id].(packageBuff := None));
    }

    // ----- output -----

    /** The call of writev: what the kernel took is on the wire. */
    method Writev(id: nat, os: Os) returns (taken: Option<nat>)
      requires Apart() && View().Some? && Shape(View().value) && id < sockets.Length
      modifies this`calls, this`sent
      ensures var st, all := old(View().value), Flatten(sockets[id].iov); var h := CidOf(st, id);
        match os.writev(st.calls)
        case WriteFailed => taken == None && View() == Some(st.(calls := st.calls + 1))
        case Wrote(n) =>
          && taken == Some(Min(n, |all|))
          && View() == Some(st.(calls := st.calls + 1, sent := st.sent[h := At(st.sent, h) + all[..Min(n, |all|)]]))
    {
      ghost var h := CidOf(View().value, id);
      var outcome := os.writev(calls);
      calls := calls + 1;
      if outcome.WriteFailed? {
        return None;
      }
      var all := Flatten(sockets[id].iov);
      taken := Some(Min(outcome.n, |all|));
      sent := sent[h := At(sent, h) + all[..taken.value]];
    }

    /** tconnd_socket_flush */
    method FlushSocket(id: nat, os: Os) returns (ret: Ret)
      requires Apart() && View().Some? && Shape(View().value) && id < sockets.Length
      modifies this`calls, this`sent, sockets
      ensures View() == Some(Flush(old(View().value), id, os).0) && ret == Flush(old(View().value), id, os).1
    {
      if sockets[id].status != Established {
        return Close;
      }
      if |sockets[id].iov| == 0 {
        return NoError;
      }
      var taken := Writev(id, os);
      if taken.None? {
        return Close;
      }
      if taken.value != sockets[id].iovTotalSize {
        return Close;
      }
      PutSocket(id, sockets[id].(iov := [], iovTotalSize := 0));
      return NoError;
    }

    /** tconnd_socket_on_cmd_send. Its assertion on the number of queued entries is proved. */
    method QueueBody(id: nat, body: Bytes, os: Os) returns (ret: Ret)
      requires Apart() && View().Some? && Shape(View().value) && id < sockets.Length && QueueOk(sockets[id])
      modifies this`calls, this`sent, sockets
      ensures View() == Some(OnCmdSend(old(View().value), id, body, os).0)
      ensures ret == OnCmdSend(old(View().value), id, body, os).1
    {
      if |body| > SSIZE_MAX || |body| == 0 {
        return Close;
      }
      if |sockets[id].iov| >= IOV_MAX || sockets[id].iovTotalSize > SSIZE_MAX - |body| {
        FlushKeeps(View().value, id, os);
        ret := FlushSocket(id, os);
        if ret != NoError {
          return;
        }
      }
      assert |sockets[id].iov| < IOV_MAX;
      PutSocket(id, sockets[id].(
        iovTotalSize := sockets[id].iovTotalSize + |body|, iov := sockets[id].iov + [body]));
      return NoError;
    }

    /** The call of epoll_ctl. */
    method EpollAdd(id: nat, os: Os) returns (added: bool)
      requires Apart() && View().Some?
      modifies this`calls
      ensures View() == Some(old(View().value).(calls := old(View().value).calls + 1))
      ensures added == os.epollAdd(old(View().value).calls)
      ensures links.Now() == old(links.Now())
    {
      added := os.epollAdd(calls);
      calls := calls + 1;
    }

    /** tconnd_socket_on_cmd_accept. When it fails the socket is no longer linked, and its node still shows where it
        was. */
    method AcceptSocket(id: nat, os: Os) returns (ret: Ret)
      requires Apart() && View().Some? && Shape(View().value) && id < sockets.Length
      requires sockets[id].status == SynSent ==> id in View().value.pendingList
      modifies this`calls, sockets, links.repr
      ensures View() == Some(OnCmdAccept(old(View().value), id, os).0)
      ensures ret == OnCmdAccept(old(View().value), id, os).1
      ensures sockets[id].status == SynSent ==> links.Now().Some? && links.Now().value.lists.gone == Some(id)
    {
      if sockets[id].status != SynSent {
        return Close;
      }
      ghost var st := View().value;
      LeavePending(id);
      ghost var mid := View().value;
      ghost var st1 := mid.(calls := mid.calls + 1);
      AcceptOutcome(st, mid, st1, id, os);
      var added := EpollAdd(id, os);
      if !added {
        return Close;
      }
      var s := sockets[id];
      assert s == st1.sockets[id];
      PutSocket(id, s.(status := Established));
      return NoError;
    }

    /** tconnd_socket_push_pkg */
    method Push(id: nat, cmd: nat, body: Bytes, os: Os) returns (ret: Ret)
      requires Apart() && View().Some? && Shape(View().value) && id < sockets.Length && QueueOk(sockets[id])
      requires sockets[id].status == SynSent ==> id in View().value.pendingList
      modifies this`calls, this`sent, sockets, links.repr
      ensures View() == Some(PushPkg(old(View().value), id, cmd, body, os).0)
      ensures ret == PushPkg(old(View().value), id, cmd, body, os).1
      ensures sockets[id].status == SynSent ==>
        id in View().value.pendingList || (links.Now().Some? && links.Now().value.lists.gone == Some(id))
    {
      if cmd == CMD_SEND {
        SendLinksNothing(View().value, id, body, os);
        ret := QueueBody(id, body, os);
      } else if cmd == CMD_ACCEPT {
        ret := AcceptSocket(id, os);
      } else if cmd == CMD_CLOSE {
        if sockets[id].status == Established {
          ret := FlushSocket(id, os);
        }
        ret := Close;
      } else {
        ret := Close;
      }
    }

    // ----- process_input_tbus -----

    /** The local list is threaded through the sockets' nodes for it, away from everything else. */
    ghost predicate Beside(writable: LocalList) {
      && writable !in links.repr && writable.repr !! links.repr && links !in writable.repr
      && this !in writable.repr && sockets !in writable.repr && buffs !in writable.repr
      && |writable.list.nodes| == sockets.Length
    }

    /** The engine and the local list, as the steps of process_input_tbus see them. */
    ghost function Working(writable: LocalList): Work
      requires View().Some? && writable.Now().Some?
      reads this, sockets, buffs, links, links.repr, writable, writable.repr
    {
      Work(View().value, writable.Now().value)
    }

    /** What tconnd_socket_push_pkg leaves can be deleted if it asks for that. */
    lemma PushedIsDeletable(before: State, id: nat, cmd: nat, body: Bytes, os: Os)
      requires Core(before) && id < |before.sockets| && id in before.socketPool.used
      requires View() == Some(PushPkg(before, id, cmd, body, os).0)
      requires View().value.sockets[id].status == SynSent ==>
        id in View().value.pendingList || links.Now().value.lists.gone == Some(id)
      ensures Deletable(id)
    {
      PushOwns(before, id, cmd, body, os);
    }

    /** A socket to be closed leaves the local list before it is deleted. */
    method CloseSocket(id: nat, writable: LocalList)
      requires Apart() && Beside(writable) && View().Some? && writable.Now().Some? && Deletable(id)
      requires View().value.sockets[id].writable ==> id in writable.Now().value
      modifies sockets, links.repr, writable.repr
      ensures View().Some? && writable.Now().Some? && Working(writable) == CloseOutcome(old(Working(writable)), id)
    {
      if sockets[id].writable {
        PutSocket(id, sockets[id].(writable := false));
        writable.Unlink(id);
      }
      DeleteSocket(id);
    }

    method MarkSocket(id: nat, writable: LocalList)
      requires Apart() && Beside(writable) && View().Some? && writable.Now().Some? && id < sockets.Length
      requires !View().value.sockets[id].writable ==> id !in writable.Now().value
      modifies sockets, writable.repr
      ensures View().Some? && writable.Now().Some? && Working(writable) == MarkOutcome(old(Working(writable)), id)
    {
      if !sockets[id].writable {
        PutSocket(id, sockets[id].(writable := true));
        writable.Append(id);
      }
    }

    /** The body of the inner loop. */
    method DeliverTo(cid: Cid, cmd: nat, body: Bytes, os: Os, writable: LocalList)
      requires Apart() && Beside(writable) && View().Some? && writable.Now().Some? && WorkInv(Working(writable))
      modifies this`calls, this`sent, sockets, links.repr, writable.repr
      ensures View().Some? && writable.Now().Some?
      ensures Working(writable) == Deliver(old(Working(writable)), Delivery(cid, cmd, body), os)
    {
      var ok := links.Test(cid.id, cid.sn);
      if !ok {
        return;
      }
      ghost var w := Working(writable);
      DeliverOutcome(w, Delivery(cid, cmd, body), os);
      var ret := Push(cid.id, cmd, body, os);
      if ret == Close {
        PushedIsDeletable(w.st, cid.id, cmd, body, os);
        CloseSocket(cid.id, writable);
      } else {
        MarkSocket(cid.id, writable);
      }
    }

    /** The inner loop of process_input_tbus: every cid of one message. */
    method DeliverToAll(cids: seq<Cid>, cmd: nat, body: Bytes, os: Os, writable: LocalList)
      requires Apart() && Beside(writable) && View().Some? && writable.Now().Some? && WorkInv(Working(writable))
      modifies this`calls, this`sent, sockets, links.repr, writable.repr
      ensures View().Some? && writable.Now().Some?
      ensures Working(writable) == DeliverAll(old(Working(writable)), ForEachCid(cids, cmd, body), os)
    {
      ghost var goal := DeliverAll(Working(writable), ForEachCid(cids, cmd, body), os);
      var i := 0;
      while i < |cids|
        invariant i <= |cids|
        invariant View().Some? && writable.Now().Some? && WorkInv(Working(writable))
        invariant DeliverAll(Working(writable), ForEachCid(cids[i..], cmd, body), os) == goal
      {
        DeliverNext(Working(writable), cids, i, cmd, body, os);
        DeliverTo(cids[i], cmd, body, os, writable);
        i := i + 1;
      }
    }

    /** process_input_tbus on the messages handed out by tbus_read_begin: a malformed message ends the outer loop, and
        what was queued is flushed in any case. */
    method ProcessInputTbus(batch: seq<Bytes>, os: Os)
      requires Apart() && View().Some? && Inv(View().value)
      modifies this`calls, this`sent, sockets, links.repr, writableNodes
      ensures View() == Some(ProcessInput(old(View().value), batch, os)) && Inv(View().value)
    {
      ProcessInputKeepsInv(View().value, batch, os);
      QuietIsWork(View().value);
      var writable := new LocalList(writableNodes);
      DeliverBatch(batch, os, writable);
      DeliverAllKeeps(Work(old(View().value), []), Deliveries(batch), os);
      FlushWritable(os, writable);
    }

    /** The two nested loops. */
    method DeliverBatch(batch: seq<Bytes>, os: Os, writable: LocalList)
      requires Apart() && Beside(writable) && View().Some? && writable.Now().Some? && WorkInv(Working(writable))
      modifies this`calls, this`sent, sockets, links.repr, writable.repr
      ensures View().Some? && writable.Now().Some?
      ensures Working(writable) == DeliverAll(old(Working(writable)), Deliveries(batch), os)
    {
      ghost var goal := DeliverAll(Working(writable), Deliveries(batch), os);
      var k := 0;
      while k < |batch|
        invariant k <= |batch|
        invariant View().Some? && writable.Now().Some? && WorkInv(Working(writable))
        invariant DeliverAll(Working(writable), Deliveries(batch[k..]), os) == goal
      {
        var rsp := DecodeRsp(batch[k]);
        DeliverMessage(Working(writable), batch, k, os);
        if rsp.Malformed? {
          break;
        }
        DeliverAllKeeps(Working(writable), ForEachCid(rsp.cids, rsp.cmd, rsp.body), os);
        DeliverToAll(rsp.cids, rsp.cmd, rsp.body, os, writable);
        k := k + 1;
      }
    }

    /** The body of the flush loop. */
    method FlushTurn(id: nat, os: Os)
      requires Apart() && View().Some? && Core(View().value)
      requires id < sockets.Length && id in View().value.socketPool.used && QueueOk(sockets[id])
      modifies this`calls, this`sent, sockets, links.repr
      ensures View() == Some(FlushOne(old(View().value), id, os))
    {
      FlushedOwns(View().value, id, os);
      var r := FlushSocket(id, os);
      PutSocket(id, sockets[id].(writable := false));
      if r == Close {
        DeleteSocket(id);
      }
    }

    /** The flush loop of process_input_tbus: iter->next is read after the socket may have been deleted. Deleting
        writes the links of the pools and of the global lists, never those of the local one, so every socket on it is
        visited exactly once. */
    method FlushWritable(os: Os, writable: LocalList)
      requires Apart() && Beside(writable) && View().Some? && writable.Now().Some? && WorkInv(Working(writable))
      modifies this`calls, this`sent, sockets, links.repr
      ensures View() == Some(FlushAll(old(View().value), old(Working(writable)).writable, os))
    {
      ghost var ids := writable.Now().value;
      ghost var k := 0;
      var iter := writable.list.head.next;
      writable.Walks(0);
      assert ids[0..] == ids;
      while iter != writable.list.head
        invariant k <= |ids| && writable.Now() == Some(ids) && |writable.list.chain| == |ids|
        invariant iter == writable.list.Place(k)
        invariant View().Some? && WorkInv(Work(View().value, ids[k..]))
        invariant FlushAll(View().value, ids[k..], os) == FlushAll(old(View().value), ids, os)
        decreases |ids| - k
      {
        writable.Walks(k);
        FlushNext(View().value, ids, k, os);
        iter := FlushHere(iter, os, writable, ids, k);
        k := k + 1;
      }
      writable.Walks(k);
    }

    /** One turn of that loop: the socket is flushed and may be deleted, then its node leads on. */
    method FlushHere(iter: Link, os: Os, writable: LocalList, ghost ids: seq<nat>, ghost k: nat) returns (next: Link)
      requires Apart() && Beside(writable) && View().Some? && writable.Now() == Some(ids)
      requires k < |ids| == |writable.list.chain| && iter == writable.list.Place(k)
      requires WorkInv(Work(View().value, ids[k..]))
      modifies this`calls, this`sent, sockets, links.repr
      ensures writable.Now() == Some(ids) && |writable.list.chain| == |ids| && next == writable.list.Place(k + 1)
      ensures View() == Some(FlushOne(old(View().value), ids[k], os))
    {
      writable.Walks(k);
      FlushNext(View().value, ids, k, os);
      FlushBeside(iter.owner, os, writable, ids);
      writable.Walks(k);
      next := iter.next;
    }

    method FlushBeside(id: nat, os: Os, writable: LocalList, ghost ids: seq<nat>)
      requires Apart() && Beside(writable) && View().Some? && Core(View().value) && writable.Now() == Some(ids)
      requires id < sockets.Length && id in View().value.socketPool.used && QueueOk(sockets[id])
      modifies this`calls, this`sent, sockets, links.repr
      ensures writable.Now() == Some(ids) && writable.list.chain == old(writable.list.chain)
      ensures View() == Some(FlushOne(old(View().value), id, os))
    {
      FlushTurn(id, os);
    }

    // ----- tconnd_socket_recv -----

    /** The part that follows a successful recv: the cached bytes move in front of the chunk and their buffer is given
        back. */
    method TakeCached(id: nat, chunk: Bytes)
      requires Apart() && View().Some? && Shape(View().value) && Owned(View().value, id)
      modifies this`received, sockets, links.repr
      ensures View() == Some(TakeIn(old(View().value), id, chunk))
    {
      ghost var cid := CidOf(View().value, id);
      received := received[cid := At(received, cid) + chunk];
      if sockets[id].packageBuff.Some? {
        DropBuffer(id);
      }
    }

    /** Caches the incomplete tail in a pooled buffer, with a deadline. */
    method CacheTail(id: nat, tail: Bytes)
      requires Apart() && View().Some? && Shape(View().value) && id < sockets.Length
      requires !P.Empty(View().value.packagePool) && id !in View().value.packageList
      modifies sockets, buffs, links.repr
      ensures View() == Some(CachePackage(old(View().value), id, tail))
    {
      ghost var st := View().value;
      var b := TakeBuffer();
      PutBuffer(b, tail);
      var s := sockets[id].(packageBuff := Some(b), packageTicks := curTicks + config.packageTicksLimit);
      assert s == st.sockets[id].(packageBuff := Some(b), packageTicks := st.curTicks + st.config.packageTicksLimit);
      PutSocket(id, s);
      JoinPackage(id);
    }

    /** A message about a socket. */
    method Announce(id: nat, cmd: nat, payload: Bytes)
      requires Apart() && View().Some? && Shape(View().value) && id < sockets.Length
      modifies this`outbox
      ensures View() == Some(Publish(old(View().value), id, cmd, payload))
    {
      var sn := links.Sn(id);
      Put(Req(cmd, Cid(id, sn), payload));
    }

    /** The end of tconnd_socket_recv: cache the tail, publish what comes before it. */
    method EmitFrames(id: nat, buf: Bytes, remain: nat)
      requires Apart() && View().Some? && Shape(View().value) && id < sockets.Length && remain <= |buf|
      requires !P.Empty(View().value.packagePool) && id !in View().value.packageList
      modifies this`outbox, sockets, buffs, links.repr
      ensures View() == Some(Emit(old(View().value), id, buf, remain))
    {
      if |buf| - remain > 0 {
        CacheTail(id, buf[remain..]);
      }
      if remain > 0 {
        Announce(id, CMD_RECV, buf[..remain]);
      }
    }

    /** tconnd_socket_recv */
    method ReceiveFrom(id: nat, io: RecvIo) returns (ret: Ret)
      requires Apart() && View().Some? && Core(View().value) && id < sockets.Length
      requires io.busSpace >= REQ_SIZE + 1 ==> id in View().value.socketPool.used && sockets[id].status == Established
      modifies this`outbox, this`received, sockets, buffs, links.repr
      ensures View() == Some(Recv(old(View().value), id, io).0) && ret == Recv(old(View().value), id, io).1
    {
      var cached := if sockets[id].packageBuff.None? then [] else buffs[sockets[id].packageBuff.value];
      if io.busSpace < REQ_SIZE + |cached| + 1 {
        return NotEnoughSpace;
      }
      var empty := links.PackagesEmpty();
      if empty {
        return NoMemory;
      }
      if io.outcome.Eagain? {
        return Errno;
      }
      var chunk := Received(io, |cached|);
      if |chunk| == 0 {
        Announce(id, CMD_RECV, []);
        return Close;
      }
      ret := Scan(id, cached, chunk);
    }

    /** The rest of it, with bytes received: the scan, and what it decides. */
    method Scan(id: nat, cached: Bytes, chunk: Bytes) returns (ret: Ret)
      requires Apart() && View().Some? && Core(View().value) && !P.Empty(View().value.packagePool)
      requires id < sockets.Length && id in View().value.socketPool.used
      modifies this`outbox, this`received, sockets, buffs, links.repr
      ensures View() == Some(Scanned(old(View().value), id, cached + chunk, chunk).0)
      ensures ret == Scanned(old(View().value), id, cached + chunk, chunk).1
    {
      CoreOwns(View().value, id);
      TakenIn(View().value, id, chunk);
      TakeCached(id, chunk);
      var buf := cached + chunk;
      var refused, remain := F.ScanFrames(buf, config.packageSize);
      if refused || |buf| - remain > config.packageSize {
        return Close;
      }
      EmitFrames(id, buf, remain);
      return NoError;
    }

    // ----- the timer -----

    /** One of the two loops of tconnd_timer_process: the next pointer is saved before the current socket is deleted,
        and the first socket that is not yet due ends the loop. */
    method ExpireList(d: Deadline)
      requires Apart() && View().Some? && Inv(View().value)
      modifies sockets, links.repr
      ensures View() == Some(Expire(d, old(View().value), ListOf(d, old(View().value))))
    {
      ghost var goal := Expired(d, View());
      var list := if d.Pending? then links.lists.pending else links.lists.package;
      links.lists.Walks(list, 0);
      var iter := list.head.next;
      while iter != list.head
        invariant View().Some? && list.ids == ListOf(d, View().value)
        invariant |list.chain| == |list.ids| && iter == list.Place(0) && (iter == list.head <==> list.ids == [])
        invariant Expired(d, View()) == goal
        decreases |list.ids|
      {
        links.lists.Walks(list, 0);
        if Due(d, sockets[iter.owner]) > curTicks {
          break;
        }
        iter := ExpireFirst(d, list, iter);
      }
    }

    /** One turn of that loop. */
    method ExpireFirst(d: Deadline, list: NodeList, iter: Link) returns (next: Link)
      requires Apart() && Expired(d, View()).Some? && list.ids == ListOf(d, View().value) && list.ids != []
      requires list == if d.Pending? then links.lists.pending else links.lists.package
      requires Due(d, View().value.sockets[list.ids[0]]) <= curTicks
      requires |list.chain| == |list.ids| && iter == list.Place(0)
      modifies sockets, links.repr
      ensures Expired(d, View()) == old(Expired(d, View()))
      ensures list.ids == old(list.ids)[1..] && list.ids == ListOf(d, View().value)
      ensures |list.chain| == |list.ids| && next == list.Place(0) && (next == list.head <==> list.ids == [])
    {
      ExpireNext(d, View().value);
      next := DeleteFirst(list, iter);
    }

    /** One turn of that loop: the next pointer, then the deletion. The pointer leads to what is first on the list now. */
    method DeleteFirst(list: NodeList, iter: Link) returns (next: Link)
      requires Apart() && View().Some? && list in {links.lists.pending, links.lists.package}
      requires list.ids != [] && |list.chain| == |list.ids| && iter == list.Place(0) && Deletable(list.ids[0])
      requires var st, r := View().value, Delete(View().value, list.ids[0]);
        if list == links.lists.pending then r.pendingList == list.ids[1..] else r.packageList == list.ids[1..]
      modifies sockets, links.repr
      ensures View() == Some(Delete(old(View().value), old(list.ids)[0])) && list.ids == old(list.ids)[1..]
      ensures |list.chain| == |list.ids| && next == list.Place(0) && (next == list.head <==> list.ids == [])
    {
      ghost var ids := list.ids;
      links.lists.Walks(list, 0);
      links.lists.Walks(list, 1);
      next := iter.next;
      DeleteSocket(iter.owner);
      assert list.ids == ids[1..];
      links.lists.Walks(list, 0);
    }

    /** tconnd_timer_process: what is left afterwards is decided by the clock alone. */
    method ProcessTimer()
      requires Apart() && View().Some? && Inv(View().value)
      modifies sockets, links.repr
      ensures View() == Some(TimerProcess(old(View().value))) && Inv(View().value)
      ensures var before, after := old(View().value), View().value;
        forall id :: 0 <= id < |before.sockets| ==>
          (id in after.socketPool.used <==>
             id in before.socketPool.used && !Overdue(Pending, before, id) && !Overdue(Package, before, id))
    {
      TimerTurns(View().value);
      ExpireList(Pending);
      ExpireList(Package);
    }

    /** tconnd_timer_on_tick: the expirations read from the timer, until there are no more. */
    method OnTick(counts: seq<nat>)
      modifies this`curTicks
      ensures curTicks == old(curTicks) + Sum(counts)
    {
      var i := 0;
      while i < |counts|
        invariant i <= |counts|
        invariant curTicks + Sum(counts[i..]) == old(curTicks) + Sum(counts)
      {
        assert counts[i..][1..] == counts[i + 1..];
        curTicks := curTicks + counts[i];
        i := i + 1;
      }
    }

    // ----- listener and epoll driver -----

    /** The second half of tconnd_listen, once a connection is there. */
    method AdmitSocket()
      requires Apart() && View().Some? && Core(View().value)
      requires !P.Empty(View().value.socketPool) && !P.Over(View().value.socketPool)
      modifies this`outbox, sockets, links.repr, writableNodes
      ensures var st := old(View().value);
        View() == Some(Publish(Admit(st), st.socketPool.unused[0], CMD_CONNECT, []))
    {
      NewIsOnNoList(View().value);
      AdmitOutcome(View().value);
      ghost var st := View().value;
      var socket := NewSocket();
      StartPending(socket.value);
      assert View() == Some(Admit(st));
      Announce(socket.value, CMD_CONNECT, []);
    }

    method StartPending(id: nat)
      requires Apart() && View().Some? && id < sockets.Length && id !in View().value.pendingList
      modifies sockets, links.repr
      ensures var st := old(View().value);
        var s := st.sockets[id].(pendingTicks := st.curTicks + config.acceptTicksLimit, status := SynSent);
        View() == Some(st.(sockets := st.sockets[id := s], pendingList := st.pendingList + [id]))
    {
      ghost var st := View().value;
      PutSocket(id, sockets[id].(pendingTicks := curTicks + config.acceptTicksLimit));
      JoinPending(id);
      PutSocket(id, sockets[id].(status := SynSent));
      assert View().value.sockets == st.sockets[id := View().value.sockets[id]];
    }

    /** tconnd_listen */
    method AcceptConnection(io: ListenIo) returns (ret: Ret)
      requires Apart() && View().Some? && Inv(View().value)
      modifies this`outbox, sockets, links.repr, writableNodes
      ensures View() == Some(Listen(old(View().value), io).0) && ret == Listen(old(View().value), io).1
      ensures Inv(View().value)
    {
      ListenKeepsInv(View().value, io);
      if io.busSpace < REQ_SIZE {
        return NotEnoughSpace;
      }
      var over := links.SocketsOver();
      if over {
        return Error;
      }
      var empty := links.SocketsEmpty();
      if empty {
        return TooManySocket;
      }
      if !io.accepted {
        return Errno;
      }
      AdmitSocket();
      return NoError;
    }

    /** A socket that epoll_wait found readable. */
    method NotifyReadable(id: nat)
      requires Apart() && View().Some? && Inv(View().value) && Enabled(View().value, Readable(id))
      modifies sockets, links.repr
      ensures View() == Some(Notify(old(View().value), id)) && Inv(View().value)
    {
      NotifyKeepsInv(View().value, id);
      PutSocket(id, sockets[id].(readable := true));
      JoinReadable(id);
    }

    /** tconnd_epool_proc's switch over the result of a receive. */
    method ReactTo(id: nat, ret: Ret)
      requires Apart() && View().Some? && Core(View().value) && id < sockets.Length
      requires ret == Close || ret == Errno ==> id in View().value.socketPool.used && id in View().value.readableList
      modifies sockets, links.repr
      ensures View() == Some(React(old(View().value), id, ret))
    {
      match ret {
        case Close =>
          CoreOwns(View().value, id);
          DeleteSocket(id);
        case NoMemory =>
          var first := links.FirstPackage();
          if first.Some? {
            assert first.value in View().value.packageList;
            CoreOwns(View().value, first.value);
            DeleteSocket(first.value);
          }
        case Errno =>
          PutSocket(id, sockets[id].(readable := false));
          LeaveReadable(id);
        case _ =>
      }
    }

    /** One turn of tconnd_epool_proc's loop over the readable list. Without bus space the socket may be dead. */
    method ServeReadable(id: nat, io: RecvIo) returns (ret: Ret)
      requires Apart() && View().Some? && Inv(View().value) && id < sockets.Length
      requires io.busSpace >= REQ_SIZE + 1 ==> Enabled(View().value, Receive(id, io))
      modifies this`outbox, this`received, sockets, buffs, links.repr
      ensures View() == Some(Serve(old(View().value), id, io)) && ret == Recv(old(View().value), id, io).1
      ensures Inv(View().value)
    {
      ServeReady(View().value, id, io);
      ret := ReceiveFrom(id, io);
      ReactTo(id, ret);
    }
  }

  /** What a turn may rely on. */
  lemma ServeReady(st: State, id: nat, io: RecvIo)
    requires Inv(st) && id < |st.sockets| && (io.busSpace >= REQ_SIZE + 1 ==> Enabled(st, Receive(id, io)))
    ensures io.busSpace >= REQ_SIZE + 1 ==> id in st.socketPool.used && st.sockets[id].status == Established
    ensures var (st1, ret) := Recv(st, id, io);
      && Inv(st1) && st1.socketPool == st.socketPool && st1.readableList == st.readableList
      && (ret == Close || ret == Errno ==> id in st.socketPool.used && id in st.readableList)
    ensures Inv(Serve(st, id, io))
  {
    RecvKeepsReadable(st, id, io);
    if io.busSpace >= REQ_SIZE + 1 {
      ReadableIsEstablished(st, id);
      ServeKeepsInv(st, id, io);
      RecvKeepsInv(st, id, io);
    }
  }

  lemma AdmitOutcome(st: State)
    requires Shape(st) && !P.Empty(st.socketPool) && !P.Over(st.socketPool)
    ensures var (st1, socket) := New(st); var id := st.socketPool.unused[0];
      && socket == Some(id) && id < |st1.sockets| && st1.pendingList == st.pendingList
      && var s := st1.sockets[id].(pendingTicks := st1.curTicks + st1.config.acceptTicksLimit, status := SynSent);
         Admit(st) == st1.(sockets := st1.sockets[id := s], pendingList := st1.pendingList + [id])
  {
  }

  function Sum(counts: seq<nat>): nat {
    if counts == [] then 0 else counts[0] + Sum(counts[1..])
  }

  /** What Recv comes to when it got bytes. */
  function Scanned(st: State, id: nat, buf: Bytes, chunk: Bytes): (State, Ret)
    requires Shape(st) && id < |st.sockets| && !P.Empty(st.packagePool)
  {
    var st1 := TakeIn(st, id, chunk);
    var cut := F.CutFrom(buf, 0, st.config.packageSize);
    if cut.Oversize? || |buf| - cut.pos > st.config.packageSize then (st1, Close)
    else (Emit(st1, id, buf, cut.pos), NoError)
  }

  lemma TakenIn(st: State, id: nat, chunk: Bytes)
    requires Core(st) && id < |st.sockets| && id in st.socketPool.used && !P.Empty(st.packagePool)
    ensures var st1 := TakeIn(st, id, chunk);
      Shape(st1) && id !in st1.packageList && !P.Empty(st1.packagePool)
  {
    if st.sockets[id].packageBuff.Some? {
      UnlinkDistinct(st.packageList, id);
    }
  }

  lemma RecvKeepsReadable(st: State, id: nat, io: RecvIo)
    requires Shape(st) && id < |st.sockets|
    ensures Recv(st, id, io).0.readableList == st.readableList
  {
    var cached := Cached(st, id);
    if io.busSpace >= REQ_SIZE + |cached| + 1 && !P.Empty(st.packagePool) {
      var chunk := Received(io, |cached|);
      var cut := F.CutFrom(cached + chunk, 0, st.config.packageSize);
      if cut.CutAt? {
        EmitKeepsReadable(TakeIn(st, id, chunk), id, cached + chunk, cut.pos);
      }
    }
  }

  lemma EmitKeepsReadable(st: State, id: nat, buf: Bytes, pos: nat)
    requires Shape(st) && id < |st.sockets| && pos <= |buf| && !P.Empty(st.packagePool)
    ensures Emit(st, id, buf, pos).readableList == st.readableList
  {
  }

  lemma DeliverNext(w: Work, cids: seq<Cid>, i: nat, cmd: nat, body: Bytes, os: Os)
    requires WorkInv(w) && i < |cids|
    ensures WorkInv(Deliver(w, Delivery(cids[i], cmd, body), os))
    ensures DeliverAll(w, ForEachCid(cids[i..], cmd, body), os) ==
      DeliverAll(Deliver(w, Delivery(cids[i], cmd, body), os), ForEachCid(cids[i + 1..], cmd, body), os)
  {
    assert cids[i..][1..] == cids[i + 1..];
    assert ForEachCid(cids[i..], cmd, body)[1..] == ForEachCid(cids[i + 1..], cmd, body);
    DeliverKeeps(w, Delivery(cids[i], cmd, body), os);
  }

  /** One turn of the loop over the batch: the message's own deliveries, then those of the rest. */
  lemma DeliverMessage(w: Work, batch: seq<Bytes>, k: nat, os: Os)
    requires WorkShape(w) && k < |batch|
    ensures DeliverAll(w, Deliveries(batch[k..]), os) ==
      match DecodeRsp(batch[k])
      case Malformed => w
      case Rsp(cmd, cids, body) =>
        DeliverAll(DeliverAll(w, ForEachCid(cids, cmd, body), os), Deliveries(batch[k + 1..]), os)
  {
    var rsp := DecodeRsp(batch[k]);
    assert batch[k..][1..] == batch[k + 1..];
    if rsp.Rsp? {
      DeliverAllAppend(w, ForEachCid(rsp.cids, rsp.cmd, rsp.body), Deliveries(batch[k + 1..]), os);
    }
  }

  /** What a timer loop comes to. */
  ghost function Expired(d: Deadline, now: Option<State>): Option<State> {
    if now.Some? && Inv(now.value) then Some(Expire(d, now.value, ListOf(d, now.value))) else None
  }

  lemma TimerTurns(st: State)
    requires Inv(st)
    ensures var st1 := Expire(Pending, st, st.pendingList);
      Inv(st1) && TimerProcess(st) == Expire(Package, st1, st1.packageList) && Inv(TimerProcess(st))
    ensures var r := TimerProcess(st);
      forall id :: 0 <= id < |st.sockets| ==>
        (id in r.socketPool.used <==>
           id in st.socketPool.used && !Overdue(Pending, st, id) && !Overdue(Package, st, id))
  {
    TimerIsExact(st);
    ExpireIsFullScan(Pending, st);
  }

  lemma ExpireNext(d: Deadline, st: State)
    requires Inv(st) && ListOf(d, st) != [] && Due(d, st.sockets[ListOf(d, st)[0]]) <= st.curTicks
    ensures var id := ListOf(d, st)[0]; var r := Delete(st, id);
      && id in st.socketPool.used && Owned(st, id) && Inv(r) && ListOf(d, r) == ListOf(d, st)[1..]
      && Expire(d, r, ListOf(d, r)) == Expire(d, st, ListOf(d, st))
  {
    DeleteHead(d, st);
    CoreOwns(st, ListOf(d, st)[0]);
  }

  lemma FlushNext(st: State, ids: seq<nat>, k: nat, os: Os)
    requires k < |ids| && WorkInv(Work(st, ids[k..]))
    ensures ids[k] < |st.sockets| && ids[k] in st.socketPool.used && QueueOk(st.sockets[ids[k]])
    ensures WorkInv(Work(FlushOne(st, ids[k], os), ids[k + 1..]))
    ensures FlushAll(st, ids[k..], os) == FlushAll(FlushOne(st, ids[k], os), ids[k + 1..], os)
  {
    assert ids[k..][1..] == ids[k + 1..] && ids[k..][0] == ids[k];
    assert ids[k] in ids[k..];
    FlushOneKeeps(st, ids[k..], os);
  }

  /** A flush leaves what the socket owns alone. */
  lemma FlushedOwns(st: State, id: nat, os: Os)
    requires Core(st) && id < |st.sockets| && id in st.socketPool.used && QueueOk(st.sockets[id])
    ensures var st1 := Flush(st, id, os).0;
      var st2 := SetSocket(st1, id, st1.sockets[id].(writable := false));
      Owned(st2, id) && (st2.sockets[id].status == SynSent ==> id in st2.pendingList)
  {
    FlushKeeps(st, id, os);
    CoreOwns(st, id);
  }

  /** The two ends of a delivery: the socket is deleted, or is on the local list. */
  function CloseOutcome(w: Work, id: nat): Work
    requires Shape(w.st) && id < |w.st.sockets|
  {
    if w.st.sockets[id].writable then
      Work(Delete(SetSocket(w.st, id, w.st.sockets[id].(writable := false)), id), Unlink(w.writable, id))
    else Work(Delete(w.st, id), w.writable)
  }

  function MarkOutcome(w: Work, id: nat): Work
    requires id < |w.st.sockets|
  {
    if w.st.sockets[id].writable then w
    else
      Work(w.st.(sockets := w.st.sockets[id := w.st.sockets[id].(writable := true)]), w.writable + [id])
  }

  lemma DeliverOutcome(w: Work, d: Delivery, os: Os)
    requires WorkInv(w) && Live(w.st, d.cid)
    ensures var id := d.cid.id; var s := w.st.sockets[id];
      && id < |w.st.sockets| && id in w.st.socketPool.used && QueueOk(s)
      && (s.status == SynSent ==> id in w.st.pendingList)
      && var (st1, ret) := PushPkg(w.st, id, d.cmd, d.body, os);
         && (st1.sockets[id].writable <==> id in w.writable)
         && Deliver(w, d, os) ==
              if ret == Close then CloseOutcome(Work(st1, w.writable), id)
              else MarkOutcome(Work(st1, w.writable), id)
  {
    LiveIsUsed(w.st, d.cid);
    CoreOwns(w.st, d.cid.id);
    PushKeepsSocket(w.st, d.cid.id, d.cmd, d.body, os);
  }

  /** A push changes nothing of what a socket owns. */
  lemma PushOwns(st: State, id: nat, cmd: nat, body: Bytes, os: Os)
    requires Core(st) && id < |st.sockets| && id in st.socketPool.used
    ensures Owned(PushPkg(st, id, cmd, body, os).0, id)
  {
    CoreOwns(st, id);
    PushOwnsSame(st, id, cmd, body, os);
    PushKeepsSocket(st, id, cmd, body, os);
  }

  lemma PushOwnsSame(st: State, id: nat, cmd: nat, body: Bytes, os: Os)
    requires Shape(st) && id < |st.sockets|
    ensures var st1 := PushPkg(st, id, cmd, body, os).0;
      && st1.socketPool == st.socketPool && st1.packagePool == st.packagePool
      && st1.packageList == st.packageList && st1.readableList == st.readableList
  {
  }

  lemma PushKeepsSocket(st: State, id: nat, cmd: nat, body: Bytes, os: Os)
    requires Shape(st) && id < |st.sockets|
    ensures SameButQueue(st.sockets[id], PushPkg(st, id, cmd, body, os).0.sockets[id])
  {
    if cmd == CMD_SEND {
      SendKeepsSocket(st, id, body, os);
    } else if cmd != CMD_ACCEPT {
      FlushKeepsSocket(st, id, os);
    }
  }

  ghost predicate SameButQueue(s: Socket, r: Socket) {
    r.packageBuff == s.packageBuff && r.readable == s.readable && r.writable == s.writable
  }

  lemma FlushKeepsSocket(st: State, id: nat, os: Os)
    requires Shape(st) && id < |st.sockets|
    ensures SameButQueue(st.sockets[id], Flush(st, id, os).0.sockets[id])
  {
  }

  lemma SendKeepsSocket(st: State, id: nat, body: Bytes, os: Os)
    requires Shape(st) && id < |st.sockets|
    ensures SameButQueue(st.sockets[id], OnCmdSend(st, id, body, os).0.sockets[id])
  {
    FlushKeepsSocket(st, id, os);
  }

  lemma AcceptOutcome(st: State, mid: State, st1: State, id: nat, os: Os)
    requires Shape(st) && id < |st.sockets| && st.sockets[id].status == SynSent
    requires mid == st.(pendingList := Unlink(st.pendingList, id)) && st1 == mid.(calls := mid.calls + 1)
    ensures OnCmdAccept(st, id, os) ==
      if os.epollAdd(st.calls) then
        (st1.(sockets := st1.sockets[id := st1.sockets[id].(status := Established)]), NoError)
      else (st1, Close)
  {
  }

  /** A send neither links nor unlinks. */
  lemma SendLinksNothing(st: State, id: nat, body: Bytes, os: Os)
    requires Shape(st) && id < |st.sockets|
    ensures var st1 := OnCmdSend(st, id, body, os).0;
      st1.pendingList == st.pendingList && st1.sockets[id].status == st.sockets[id].status
  {
  }
}
