/**
 The tconnd connection engine as a state machine over values: the socket pool, the pool of package
 buffers, the three global lists, and the tick counter, together with the record of what the outside
 world has seen (bytes received from and written to every connection, messages put on the output bus).

 Every function here follows one C function, branch for branch. Lists hold socket ids in list order;
 TlibcList shows that the intrusive lists behave like them. Results of system calls are parameters.
 */
module TconndState {
  import opened Basics
  import opened Sip
  import F = Framing
  import P = MempoolSpec

  /** TCONND_SOCKET_OP_LIST_MAX */
  const IOV_MAX: nat := 128

  datatype Config = Config(
    packageSize: nat, packageConnections: nat, packageTicksLimit: nat,
    connections: nat, acceptTicksLimit: nat)

  datatype Status = Closed | SynSent | Established | Listening

  /** tconnd_socket_t without its pool entry. `packageBuff` is the slot of the cached package buffer. */
  datatype Socket = Socket(
    status: Status, pendingTicks: nat, packageTicks: nat, packageBuff: Option<nat>,
    readable: bool, writable: bool, iov: seq<Bytes>, iovTotalSize: nat)

  datatype State = State(
    config: Config, curTicks: nat,
    socketPool: P.Pool, sockets: seq<Socket>,
    packagePool: P.Pool, buffs: seq<Bytes>,
    pendingList: seq<nat>, packageList: seq<nat>, readableList: seq<nat>,
    outbox: seq<Req>, sent: map<Cid, Bytes>, received: map<Cid, Bytes>, calls: nat)

  datatype Ret = NoError | Close | NotEnoughSpace | NoMemory | Errno | TooManySocket | Error

  /** The operating system's answers, indexed by the number of calls made so far. EINTR is retried by
      the code, so an answer is the first one that is not EINTR. `epollAdd` is true on success. */
  datatype WriteOutcome = Wrote(n: nat) | WriteFailed
  datatype Os = Os(writev: nat -> WriteOutcome, epollAdd: nat -> bool)

  // ----- reading the state -----

  predicate Below(ids: seq<nat>, n: nat) {
    forall i :: 0 <= i < |ids| ==> ids[i] < n
  }

  lemma StaysBelow(ids: seq<nat>, id: nat, n: nat)
    requires Below(ids, n)
    ensures Below(Unlink(ids, id), n)
  {
    UnlinkSubset(ids, id);
    var u := Unlink(ids, id);
    forall i | 0 <= i < |u| ensures u[i] < n {
      assert u[i] in ids;
    }
  }

  /** Indices stay inside the two memory blocks. */
  predicate Shape(st: State) {
    && |st.sockets| == |st.socketPool.sns|
    && |st.buffs| == |st.packagePool.sns|
    && Below(st.socketPool.unused, |st.sockets|) && Below(st.packagePool.unused, |st.buffs|)
    && Below(st.pendingList, |st.sockets|) && Below(st.packageList, |st.sockets|)
    && Below(st.readableList, |st.sockets|)
    && forall id :: 0 <= id < |st.sockets| && st.sockets[id].packageBuff.Some? ==>
         st.sockets[id].packageBuff.value < |st.buffs|
  }

  function CidOf(st: State, id: nat): Cid
    requires id < |st.socketPool.sns|
  {
    Cid(id, st.socketPool.sns[id])
  }

  /** The socket that the handle names is still the one it was issued for. */
  predicate Live(st: State, h: Cid) {
    P.Passes(st.socketPool, h.id, h.sn)
  }

  function At(m: map<Cid, Bytes>, h: Cid): Bytes {
    if h in m then m[h] else []
  }

  function Cached(st: State, id: nat): Bytes
    requires Shape(st) && id < |st.sockets|
  {
    match st.sockets[id].packageBuff
    case None => []
    case Some(b) => st.buffs[b]
  }

  function SetSocket(st: State, id: nat, s: Socket): (r: State)
    requires Shape(st) && id < |st.sockets|
    requires s.packageBuff.Some? ==> s.packageBuff.value < |st.buffs|
    ensures Shape(r)
  {
    st.(sockets := st.sockets[id := s])
  }

  // ----- start, new, delete -----

  const BLANK: Socket := Socket(Closed, 0, 0, None, false, false, [], 0)

  function Start(config: Config): (st: State)
    ensures Shape(st)
  {
    State(config, 0, P.Init(config.connections), seq(config.connections, _ => BLANK),
          P.Init(config.packageConnections), seq(config.packageConnections, _ => []),
          [], [], [], [], map[], map[], 0)
  }

  /** tconnd_socket_new: no socket when the pool is empty or its serial numbers are used up. */
  function New(st: State): (r: (State, Option<nat>))
    requires Shape(st)
    ensures Shape(r.0) && |r.0.sockets| == |st.sockets|
  {
    if P.Empty(st.socketPool) || P.Over(st.socketPool) then (st, None)
    else
      var (pool, id) := P.Alloc(st.socketPool);
      (st.(socketPool := pool, sockets := st.sockets[id := BLANK]), Some(id))
  }

  /** tcond_socket_destruct */
  function Destruct(st: State, id: nat): (r: State)
    requires Shape(st) && id < |st.sockets|
    ensures Shape(r) && |r.sockets| == |st.sockets|
  {
    var s := st.sockets[id];
    match s.status
    case Closed => st
    case SynSent =>
      StaysBelow(st.pendingList, id, |st.sockets|);
      st.(pendingList := Unlink(st.pendingList, id))
    case Established =>
      var st1 := if s.packageBuff.Some? then DropPackage(st, id) else st;
      StaysBelow(st.readableList, id, |st.sockets|);
      if s.readable then st1.(readableList := Unlink(st1.readableList, id)) else st1
    case Listening =>
      StaysBelow(st.readableList, id, |st.sockets|);
      if s.readable then st.(readableList := Unlink(st.readableList, id)) else st
  }

  /** Gives the cached package buffer back to its pool. */
  function DropPackage(st: State, id: nat): (r: State)
    requires Shape(st) && id < |st.sockets| && st.sockets[id].packageBuff.Some?
    ensures Shape(r) && |r.sockets| == |st.sockets|
  {
    StaysBelow(st.packageList, id, |st.sockets|);
    st.(packageList := Unlink(st.packageList, id),
        packagePool := P.Free(st.packagePool, st.sockets[id].packageBuff.value),
        sockets := st.sockets[id := st.sockets[id].(packageBuff := None)])
  }

  /** tconnd_socket_delete */
  function Delete(st: State, id: nat): (r: State)
    requires Shape(st) && id < |st.sockets|
    ensures Shape(r) && |r.sockets| == |st.sockets|
  {
    var st1 := Destruct(st, id);
    st1.(socketPool := P.Free(st1.socketPool, id))
  }

  // ----- output: flush and the three commands -----

  /** tconnd_socket_flush. The kernel takes at most the bytes offered; what it took is on the wire. */
  function Flush(st: State, id: nat, os: Os): (r: (State, Ret))
    requires Shape(st) && id < |st.sockets|
    ensures Shape(r.0) && |r.0.sockets| == |st.sockets|
  {
    var s := st.sockets[id];
    if s.status != Established then (st, Close)
    else if |s.iov| == 0 then (st, NoError)
    else
      var st1 := st.(calls := st.calls + 1);
      match os.writev(st.calls)
      case WriteFailed => (st1, Close)
      case Wrote(n) =>
        var all := Flatten(s.iov);
        var taken := Min(n, |all|);
        var h := CidOf(st, id);
        var st2 := st1.(sent := st1.sent[h := At(st1.sent, h) + all[..taken]]);
        if taken != s.iovTotalSize then (st2, Close)
        else (SetSocket(st2, id, s.(iov := [], iovTotalSize := 0)), NoError)
  }

  /** tconnd_socket_on_cmd_send */
  function OnCmdSend(st: State, id: nat, body: Bytes, os: Os): (r: (State, Ret))
    requires Shape(st) && id < |st.sockets|
    ensures Shape(r.0) && |r.0.sockets| == |st.sockets|
  {
    if |body| > SSIZE_MAX || |body| == 0 then (st, Close)
    else
      var s := st.sockets[id];
      var (st1, ret) :=
        if |s.iov| >= IOV_MAX || s.iovTotalSize > SSIZE_MAX - |body| then Flush(st, id, os) else (st, NoError);
      if ret != NoError then (st1, ret)
      else
        var s1 := st1.sockets[id];
        (SetSocket(st1, id, s1.(iov := s1.iov + [body], iovTotalSize := s1.iovTotalSize + |body|)), NoError)
  }

  /** tconnd_socket_on_cmd_accept */
  function OnCmdAccept(st: State, id: nat, os: Os): (r: (State, Ret))
    requires Shape(st) && id < |st.sockets|
    ensures Shape(r.0) && |r.0.sockets| == |st.sockets|
  {
    if st.sockets[id].status != SynSent then (st, Close)
    else
      StaysBelow(st.pendingList, id, |st.sockets|);
      var st1 := st.(pendingList := Unlink(st.pendingList, id), calls := st.calls + 1);
      if !os.epollAdd(st.calls) then (st1, Close)
      else (SetSocket(st1, id, st1.sockets[id].(status := Established)), NoError)
  }

  /** tconnd_socket_push_pkg */
  function PushPkg(st: State, id: nat, cmd: nat, body: Bytes, os: Os): (r: (State, Ret))
    requires Shape(st) && id < |st.sockets|
    ensures Shape(r.0) && |r.0.sockets| == |st.sockets|
  {
    if cmd == CMD_SEND then OnCmdSend(st, id, body, os)
    else if cmd == CMD_ACCEPT then OnCmdAccept(st, id, os)
    else if cmd == CMD_CLOSE then
      if st.sockets[id].status == Established then (Flush(st, id, os).0, Close) else (st, Close)
    else (st, Close)
  }

  // ----- process_input_tbus -----

  /** One (message, cid) pair of the two nested loops. */
  datatype Delivery = Delivery(cid: Cid, cmd: nat, body: Bytes)

  /** The engine in the middle of process_input_tbus, with its local writable list. */
  datatype Work = Work(st: State, writable: seq<nat>)

  predicate WorkShape(w: Work) { Shape(w.st) && Below(w.writable, |w.st.sockets|) }

  /** The inner loop's cids, in order. The list never exceeds SIP_BROADCAST_NUM: its length is a uint16. */
  function ForEachCid(cids: seq<Cid>, cmd: nat, body: Bytes): seq<Delivery> {
    if cids == [] then [] else [Delivery(cids[0], cmd, body)] + ForEachCid(cids[1..], cmd, body)
  }

  /** What the batch asks for: a malformed message abandons the rest of the batch. */
  function Deliveries(batch: seq<Bytes>): seq<Delivery> {
    if batch == [] then []
    else
      match DecodeRsp(batch[0])
      case Malformed => []
      case Rsp(cmd, cids, body) => ForEachCid(cids, cmd, body) + Deliveries(batch[1..])
  }

  /** The body of the inner loop. */
  function Deliver(w: Work, d: Delivery, os: Os): (r: Work)
    requires WorkShape(w)
    ensures WorkShape(r)
  {
    if !Live(w.st, d.cid) then w
    else
      var id := d.cid.id;
      var (st1, ret) := PushPkg(w.st, id, d.cmd, d.body, os);
      var s := st1.sockets[id];
      if ret == Close then
        StaysBelow(w.writable, id, |w.st.sockets|);
        if s.writable then
          Work(Delete(SetSocket(st1, id, s.(writable := false)), id), Unlink(w.writable, id))
        else Work(Delete(st1, id), w.writable)
      else if !s.writable then Work(SetSocket(st1, id, s.(writable := true)), w.writable + [id])
      else Work(st1, w.writable)
  }

  function DeliverAll(w: Work, ds: seq<Delivery>, os: Os): (r: Work)
    requires WorkShape(w)
    ensures WorkShape(r)
    decreases |ds|
  {
    if ds == [] then w else DeliverAll(Deliver(w, ds[0], os), ds[1..], os)
  }

  /** The body of the flush loop: write out, clear the flag, delete on failure. */
  function FlushOne(st: State, id: nat, os: Os): (r: State)
    requires Shape(st) && id < |st.sockets|
    ensures Shape(r) && |r.sockets| == |st.sockets|
  {
    var (st1, ret) := Flush(st, id, os);
    var st2 := SetSocket(st1, id, st1.sockets[id].(writable := false));
    if ret == Close then Delete(st2, id) else st2
  }

  function FlushAll(st: State, writable: seq<nat>, os: Os): (r: State)
    requires Shape(st) && Below(writable, |st.sockets|)
    ensures Shape(r)
    decreases |writable|
  {
    if writable == [] then st else FlushAll(FlushOne(st, writable[0], os), writable[1..], os)
  }

  /** process_input_tbus on the messages that tbus_read_begin handed out. */
  function ProcessInput(st: State, batch: seq<Bytes>, os: Os): (r: State)
    requires Shape(st)
    ensures Shape(r)
  {
    var w := DeliverAll(Work(st, []), Deliveries(batch), os);
    FlushAll(w.st, w.writable, os)
  }

  // ----- input: recv -----

  datatype RecvOutcome = Data(bytes: Bytes) | Eagain | RecvFailed

  /** `busSpace` is what tbus_send_begin returned. */
  datatype RecvIo = RecvIo(busSpace: nat, outcome: RecvOutcome)

  function Publish(st: State, id: nat, cmd: nat, payload: Bytes): (r: State)
    requires Shape(st) && id < |st.sockets|
    ensures Shape(r) && |r.sockets| == |st.sockets|
  {
    st.(outbox := st.outbox + [Req(cmd, CidOf(st, id), payload)])
  }

  /** tconnd_socket_recv. recv fills at most the rest of the reserved bus space; zero bytes mean that the
      peer has closed. */
  function Recv(st: State, id: nat, io: RecvIo): (r: (State, Ret))
    requires Shape(st) && id < |st.sockets|
    ensures Shape(r.0) && |r.0.sockets| == |st.sockets|
  {
    var cached := Cached(st, id);
    if io.busSpace < REQ_SIZE + |cached| + 1 then (st, NotEnoughSpace)
    else if P.Empty(st.packagePool) then (st, NoMemory)
    else if io.outcome.Eagain? then (st, Errno)
    else
      var chunk := Received(io, |cached|);
      if chunk == [] then (Publish(st, id, CMD_RECV, []), Close)
      else
        var buf := cached + chunk;
        var st1 := TakeIn(st, id, chunk);
        var cut := F.CutFrom(buf, 0, st.config.packageSize);
        if cut.Oversize? then (st1, Close)
        else if |buf| - cut.pos > st.config.packageSize then (st1, Close)
        else (Emit(st1, id, buf, cut.pos), NoError)
  }

  /** What recv puts behind the cached bytes: at most the rest of the reserved bus space. */
  function Received(io: RecvIo, cached: nat): Bytes
    requires io.busSpace >= REQ_SIZE + cached
  {
    if io.outcome.Data? then io.outcome.bytes[..Min(|io.outcome.bytes|, io.busSpace - REQ_SIZE - cached)] else []
  }

  /** The cached bytes are moved into the bus memory in front of the chunk and their buffer is freed. */
  function TakeIn(st: State, id: nat, chunk: Bytes): (r: State)
    requires Shape(st) && id < |st.sockets|
    ensures Shape(r) && |r.sockets| == |st.sockets| && r.config == st.config
    ensures !P.Empty(st.packagePool) ==> !P.Empty(r.packagePool)
  {
    var h := CidOf(st, id);
    var st1 := st.(received := st.received[h := At(st.received, h) + chunk]);
    if st1.sockets[id].packageBuff.Some? then DropPackage(st1, id) else st1
  }

  /** The tail from `pos` on is cached, the complete frames before it are published. */
  function Emit(st: State, id: nat, buf: Bytes, pos: nat): (r: State)
    requires Shape(st) && id < |st.sockets| && pos <= |buf| && !P.Empty(st.packagePool)
    ensures Shape(r) && |r.sockets| == |st.sockets|
  {
    var st1 := if |buf| - pos > 0 then CachePackage(st, id, buf[pos..]) else st;
    if pos > 0 then Publish(st1, id, CMD_RECV, buf[..pos]) else st1
  }

  /** Allocates a package buffer for the incomplete tail and arms its deadline. */
  function CachePackage(st: State, id: nat, tail: Bytes): (r: State)
    requires Shape(st) && id < |st.sockets|
    requires !P.Empty(st.packagePool)
    ensures Shape(r) && |r.sockets| == |st.sockets|
  {
    var (pool, b) := P.Alloc(st.packagePool);
    st.(packagePool := pool, buffs := st.buffs[b := tail],
        sockets := st.sockets[id := st.sockets[id].(
          packageBuff := Some(b), packageTicks := st.curTicks + st.config.packageTicksLimit)],
        packageList := st.packageList + [id])
  }

  // ----- timer -----

  /** The two deadlines a socket can carry, and the list sorted by each. */
  datatype Deadline = Pending | Package

  function Due(d: Deadline, s: Socket): nat {
    if d.Pending? then s.pendingTicks else s.packageTicks
  }

  function ListOf(d: Deadline, st: State): seq<nat> {
    if d.Pending? then st.pendingList else st.packageList
  }

  /** Either loop of tconnd_timer_process; `rest` is what the saved next pointers still lead to. */
  function Expire(d: Deadline, st: State, rest: seq<nat>): (r: State)
    requires Shape(st) && Below(rest, |st.sockets|)
    ensures Shape(r) && |r.sockets| == |st.sockets|
    decreases |rest|
  {
    if rest == [] || Due(d, st.sockets[rest[0]]) > st.curTicks then st
    else Expire(d, Delete(st, rest[0]), rest[1..])
  }

  /** tconnd_timer_process */
  function TimerProcess(st: State): (r: State)
    requires Shape(st)
    ensures Shape(r) && |r.sockets| == |st.sockets|
  {
    var st1 := Expire(Pending, st, st.pendingList);
    Expire(Package, st1, st1.packageList)
  }

  // ----- listener and epoll driver -----

  /** `accepted` covers accept and the ioctl that makes the connection non-blocking. */
  datatype ListenIo = ListenIo(busSpace: nat, accepted: bool)

  /** tconnd_listen. It makes the checks of tconnd_socket_new beforehand, so that call never fails. */
  function Listen(st: State, io: ListenIo): (r: (State, Ret))
    requires Shape(st)
    ensures Shape(r.0) && |r.0.sockets| == |st.sockets|
  {
    if io.busSpace < REQ_SIZE then (st, NotEnoughSpace)
    else if P.Over(st.socketPool) then (st, Error)
    else if P.Empty(st.socketPool) then (st, TooManySocket)
    else if !io.accepted then (st, Errno)
    else
      (Publish(Admit(st), st.socketPool.unused[0], CMD_CONNECT, []), NoError)
  }

  /** Allocates and constructs a socket and appends it to the pending list. */
  function Admit(st: State): (r: State)
    requires Shape(st) && !P.Empty(st.socketPool)
    ensures Shape(r) && |r.sockets| == |st.sockets|
  {
    var (pool, id) := P.Alloc(st.socketPool);
    var s := BLANK.(status := SynSent, pendingTicks := st.curTicks + st.config.acceptTicksLimit);
    st.(socketPool := pool, sockets := st.sockets[id := s], pendingList := st.pendingList + [id])
  }

  /** A socket found readable by epoll_wait. */
  function Notify(st: State, id: nat): (r: State)
    requires Shape(st) && id < |st.sockets|
    ensures Shape(r) && |r.sockets| == |st.sockets|
  {
    SetSocket(st, id, st.sockets[id].(readable := true)).(readableList := st.readableList + [id])
  }

  /** One turn of tconnd_epool_proc's loop over the readable list: receive, then react to the result. */
  function Serve(st: State, id: nat, io: RecvIo): (r: State)
    requires Shape(st) && id < |st.sockets|
    ensures Shape(r) && |r.sockets| == |st.sockets|
  {
    var (st1, ret) := Recv(st, id, io);
    React(st1, id, ret)
  }

  /** What the driver does with the result: a closed connection is deleted, and the lack of a package buffer
      is met by closing the first holder on the package list. */
  function React(st: State, id: nat, ret: Ret): (r: State)
    requires Shape(st) && id < |st.sockets|
    ensures Shape(r) && |r.sockets| == |st.sockets|
  {
    match ret
    case Close => Delete(st, id)
    case NoMemory => if st.packageList == [] then st else Delete(st, st.packageList[0])
    case Errno => StopReading(st, id)
    case _ => st
  }

  /** EAGAIN takes the socket off the readable list. */
  function StopReading(st: State, id: nat): (r: State)
    requires Shape(st) && id < |st.sockets|
    ensures Shape(r) && |r.sockets| == |st.sockets|
  {
    StaysBelow(st.readableList, id, |st.sockets|);
    SetSocket(st, id, st.sockets[id].(readable := false)).(readableList := Unlink(st.readableList, id))
  }

  // ----- runs -----

  datatype Step =
    | Tick(c: nat)
    | Accept(listenIo: ListenIo)
    | Readable(id: nat)
    | Receive(id: nat, io: RecvIo)
    | Input(batch: seq<Bytes>, os: Os)
    | Timer

  /** epoll reports established sockets not yet on the readable list; the receive loop runs over that list.
      Bus space is a uint32. */
  predicate Enabled(st: State, step: Step) {
    match step
    case Readable(id) =>
      && id < |st.sockets| && id in st.socketPool.used
      && st.sockets[id].status == Established && !st.sockets[id].readable
    case Receive(id, io) => id < |st.sockets| && id in st.readableList && io.busSpace <= UINT32_MAX
    case _ => true
  }

  function Apply(st: State, step: Step): (r: State)
    requires Shape(st) && Enabled(st, step)
    ensures Shape(r)
  {
    match step
    case Tick(c) => st.(curTicks := st.curTicks + c)
    case Accept(io) => Listen(st, io).0
    case Readable(id) => Notify(st, id)
    case Receive(id, io) => Serve(st, id, io)
    case Input(batch, os) => ProcessInput(st, batch, os)
    case Timer => TimerProcess(st)
  }

  /** The state after the steps from `st`, if each was enabled when its turn came. */
  function Run(st: State, steps: seq<Step>): (r: Option<State>)
    requires Shape(st)
    ensures r.Some? ==> Shape(r.value)
    decreases |steps|
  {
    if steps == [] then Some(st)
    else if !Enabled(st, steps[0]) then None
    else Run(Apply(st, steps[0]), steps[1..])
  }
}
