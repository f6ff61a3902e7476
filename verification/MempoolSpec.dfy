/**
 The abstract state of a tlibc_mempool (tutils/include/tlibc_mempool.h): which slots are on the
 unused and on the used list, in list order, and the serial number stamped on each slot.

 A handle is a pair (slot id, serial number). The main theorem, HandleSafety, says over every run of
 allocations and frees that a handle passes the two tests a caller makes exactly while the very
 allocation that produced it is still live.
 */
module MempoolSpec {
  import opened Basics

  const INVALID_ID: nat := UINT64_MAX

  datatype Pool = Pool(sn: nat, sns: seq<nat>, unused: seq<nat>, used: seq<nat>)

  /** tlibc_mempool_init: every slot unused, in slot order, stamped invalid. */
  function Init(unitNum: nat): Pool {
    Pool(0, seq(unitNum, _ => INVALID_ID), seq(unitNum, i => i), [])
  }

  predicate Empty(p: Pool) { p.unused == [] }

  /** The serial numbers are used up (tlibc_mempool_over). */
  predicate Over(p: Pool) { p.sn == INVALID_ID }

  predicate IdTest(p: Pool, id: nat) { id < |p.sns| }

  predicate PtrTest(p: Pool, id: nat, sn: nat)
    requires IdTest(p, id)
  {
    p.sns[id] != INVALID_ID && p.sns[id] == sn
  }

  /** The two tests a holder of the handle makes before using it. */
  predicate Passes(p: Pool, id: nat, sn: nat) {
    IdTest(p, id) && PtrTest(p, id, sn)
  }

  /** Takes the first unused slot; the serial number is a uint64 and wraps. */
  function Alloc(p: Pool): (r: (Pool, nat))
    requires !Empty(p) && p.unused[0] < |p.sns|
  {
    var id := p.unused[0];
    (Pool((p.sn + 1) % (UINT64_MAX + 1), p.sns[id := p.sn], p.unused[1..], [id] + p.used), id)
  }

  /** Puts the slot back in front of the unused list and stamps it invalid. */
  function Free(p: Pool, id: nat): Pool
    requires IdTest(p, id)
  {
    Pool(p.sn, p.sns[id := INVALID_ID], [id] + p.unused, Unlink(p.used, id))
  }

  /** The two lists partition the slots. */
  ghost predicate Partition(p: Pool) {
    && Distinct(p.unused) && Distinct(p.used)
    && (forall id :: id in p.unused ==> id < |p.sns|)
    && (forall id :: id in p.used ==> id < |p.sns|)
    && (forall id :: 0 <= id < |p.sns| ==> (id in p.used <==> id !in p.unused))
  }

  /** Serial numbers tell used slots apart and mark the unused ones. */
  ghost predicate Stamped(p: Pool) {
    && p.sn <= INVALID_ID
    && (forall id :: 0 <= id < |p.sns| && id in p.used ==> p.sns[id] < p.sn)
    && (forall id :: 0 <= id < |p.sns| && id !in p.used ==> p.sns[id] == INVALID_ID)
    && (forall i, j :: 0 <= i < j < |p.sns| && i in p.used && j in p.used ==> p.sns[i] != p.sns[j])
  }

  lemma InitPartitions(unitNum: nat)
    ensures Partition(Init(unitNum)) && Stamped(Init(unitNum))
  {
    var p := Init(unitNum);
    forall id | 0 <= id < |p.sns| ensures id in p.unused {
      assert p.unused[id] == id;
    }
  }

  lemma AllocPartitions(p: Pool)
    requires Partition(p) && !Empty(p)
    ensures p.unused[0] < |p.sns|
    ensures Partition(Alloc(p).0) && Alloc(p).1 !in p.used && Alloc(p).1 < |p.sns|
    ensures forall x :: x in Alloc(p).0.used <==> x == Alloc(p).1 || x in p.used
    ensures |Alloc(p).0.used| == |p.used| + 1 && |Alloc(p).0.unused| == |p.unused| - 1
  {
    assert p.unused[0] in p.unused;
    var (q, id) := Alloc(p);
    assert forall x :: x in p.unused <==> x == id || x in q.unused;
  }

  lemma AllocStamps(p: Pool)
    requires Partition(p) && Stamped(p) && !Empty(p) && !Over(p)
    ensures p.unused[0] < |p.sns|
    ensures Stamped(Alloc(p).0) && Alloc(p).0.sn == p.sn + 1
  {
    AllocPartitions(p);
    assert (p.sn + 1) % (UINT64_MAX + 1) == p.sn + 1;
  }

  lemma FreePartitions(p: Pool, id: nat)
    requires Partition(p) && id in p.used
    ensures Partition(Free(p, id))
    ensures forall x :: x in Free(p, id).used <==> x in p.used && x != id
    ensures |Free(p, id).used| == |p.used| - 1 && |Free(p, id).unused| == |p.unused| + 1
  {
    UnlinkDistinct(p.used, id);
  }

  /** The slot freed last is the next one handed out. */
  lemma FreeThenAlloc(p: Pool, id: nat)
    requires Partition(p) && id in p.used
    ensures !Empty(Free(p, id)) && Alloc(Free(p, id)).1 == id
  {
  }

  lemma FreeStamps(p: Pool, id: nat)
    requires Partition(p) && Stamped(p) && id in p.used
    ensures Stamped(Free(p, id))
  {
    FreePartitions(p, id);
  }

  // ----- runs -----

  datatype Op = AllocOp | FreeOp(id: nat)
  datatype Entry = Issued(id: nat, sn: nat) | Returned(id: nat, sn: nat)

  /** What the callers respect: tconnd_socket_new refuses an empty or exhausted pool, and only a
      used slot is freed. */
  predicate Permitted(p: Pool, op: Op) {
    match op
    case AllocOp => !Empty(p) && !Over(p) && p.unused[0] < |p.sns|
    case FreeOp(id) => id < |p.sns| && id in p.used
  }

  function Perform(p: Pool, op: Op): (r: (Pool, Entry))
    requires Permitted(p, op)
  {
    match op
    case AllocOp => var (q, id) := Alloc(p); (q, Issued(id, p.sn))
    case FreeOp(id) => (Free(p, id), Returned(id, p.sns[id]))
  }

  datatype History = History(pool: Pool, log: seq<Entry>)

  /** The outcome of a run, if every operation was permitted when its turn came. */
  function After(unitNum: nat, ops: seq<Op>): Option<History>
    decreases |ops|
  {
    if ops == [] then Some(History(Init(unitNum), []))
    else
      match After(unitNum, ops[..|ops| - 1])
      case None => None
      case Some(before) =>
        var op := ops[|ops| - 1];
        if Permitted(before.pool, op) then
          var (q, e) := Perform(before.pool, op);
          Some(History(q, before.log + [e]))
        else None
  }

  /** The allocation that produced the handle has happened and has not been undone since. */
  ghost predicate LiveIn(log: seq<Entry>, id: nat, sn: nat) {
    exists k :: 0 <= k < |log| && log[k] == Issued(id, sn)
      && forall m :: k < m < |log| ==> log[m] != Returned(id, sn)
  }

  ghost predicate IssuedOnce(log: seq<Entry>) {
    forall i, j :: 0 <= i < j < |log| && log[i].Issued? && log[j].Issued? ==> log[i].sn < log[j].sn
  }

  ghost predicate Explains(run: History) {
    && Partition(run.pool) && Stamped(run.pool) && IssuedOnce(run.log)
    && (forall k :: 0 <= k < |run.log| && run.log[k].Issued? ==> run.log[k].sn < run.pool.sn)
    && (forall id, sn :: Passes(run.pool, id, sn) <==> LiveIn(run.log, id, sn))
  }

  lemma LiveInSnoc(log: seq<Entry>, e: Entry, id: nat, sn: nat)
    ensures LiveIn(log + [e], id, sn) <==> e == Issued(id, sn) || (LiveIn(log, id, sn) && e != Returned(id, sn))
  {
    var longer := log + [e];
    assert longer[|log|] == e && forall m :: 0 <= m < |log| ==> longer[m] == log[m];
  }

  lemma AllocExplains(before: History)
    requires Explains(before) && Permitted(before.pool, AllocOp)
    ensures var (q, e) := Perform(before.pool, AllocOp); Explains(History(q, before.log + [e]))
  {
    var (q, e) := Perform(before.pool, AllocOp);
    AllocPartitions(before.pool);
    AllocStamps(before.pool);
    forall id, sn ensures Passes(q, id, sn) <==> LiveIn(before.log + [e], id, sn) {
      LiveInSnoc(before.log, e, id, sn);
      assert Passes(before.pool, id, sn) <==> LiveIn(before.log, id, sn);
    }
  }

  lemma FreeExplains(before: History, op: Op)
    requires Explains(before) && op.FreeOp? && Permitted(before.pool, op)
    ensures var (q, e) := Perform(before.pool, op); Explains(History(q, before.log + [e]))
  {
    var (q, e) := Perform(before.pool, op);
    FreePartitions(before.pool, op.id);
    FreeStamps(before.pool, op.id);
    forall id, sn ensures Passes(q, id, sn) <==> LiveIn(before.log + [e], id, sn) {
      LiveInSnoc(before.log, e, id, sn);
      assert Passes(before.pool, id, sn) <==> LiveIn(before.log, id, sn);
    }
  }

  /** Over every run: the lists partition the slots, no two allocations share a serial number, and a
      handle passes the tests if and only if the allocation that issued it is still live. */
  lemma {:induction false} HandleSafety(unitNum: nat, ops: seq<Op>, run: History)
    requires After(unitNum, ops) == Some(run)
    ensures Partition(run.pool) && IssuedOnce(run.log)
    ensures forall id, sn :: Passes(run.pool, id, sn) <==> LiveIn(run.log, id, sn)
    ensures Explains(run)
    decreases |ops|
  {
    if ops == [] {
      InitPartitions(unitNum);
    } else {
      var op := ops[|ops| - 1];
      var before := After(unitNum, ops[..|ops| - 1]).value;
      HandleSafety(unitNum, ops[..|ops| - 1], before);
      if op.AllocOp? {
        AllocExplains(before);
      } else {
        FreeExplains(before, op);
      }
    }
  }

  /** A handle of an earlier occupant of a slot never passes once the slot is used again. */
  lemma StaleHandleFails(unitNum: nat, ops: seq<Op>, run: History, i: nat, j: nat)
    requires After(unitNum, ops) == Some(run)
    requires i < j < |run.log| && run.log[i].Issued? && run.log[j].Issued? && run.log[i].id == run.log[j].id
    requires Passes(run.pool, run.log[j].id, run.log[j].sn)
    ensures !Passes(run.pool, run.log[i].id, run.log[i].sn)
  {
    HandleSafety(unitNum, ops, run);
    assert run.log[i].sn < run.log[j].sn;
  }

  // ----- slot addresses -----

  /** tlibc_mempool_id2ptr: the byte offset of a slot from the start of the pool memory. */
  function Id2Ptr(unitSize: nat, id: nat): nat { unitSize * id }

  /** tlibc_mempool_ptr2id. */
  function Ptr2Id(unitSize: nat, ptr: nat): nat
    requires unitSize > 0
  {
    ptr / unitSize
  }

  /** A pointer anywhere into a slot leads back to that slot and to no other. */
  lemma Ptr2IdInverts(unitSize: nat, id: nat, within: nat)
    requires within < unitSize
    ensures Ptr2Id(unitSize, Id2Ptr(unitSize, id) + within) == id
  {
    var ptr := Id2Ptr(unitSize, id) + within;
    var q := ptr / unitSize;
    assert unitSize * q <= ptr < unitSize * q + unitSize;
    if q < id {
      MulMonotone(unitSize, q + 1, id);
    } else if id < q {
      MulMonotone(unitSize, id + 1, q);
    }
  }

  lemma MulMonotone(u: nat, a: nat, b: nat)
    requires a <= b
    ensures u * a <= u * b
  {
  }
}
