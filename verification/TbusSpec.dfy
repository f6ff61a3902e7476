/**
 What lies in the shared memory of a message bus (tbus/source/tbus.c): records of a command, a length and a body,
 and behind the last record of a part possibly a gap.
 */
module TbusSpec {
  import opened Basics
  import Sip

  const PACKAGE: nat := 1
  const IGNORE: nat := 2
  /** sizeof(tbus_header_t) */
  const HEADER: nat := 8

  // ----- headers -----

  /** A little-endian 32-bit load. */
  function Load(mem: Bytes, at: nat): nat
    requires at + 4 <= |mem|
  {
    mem[at] as int + 0x100 * mem[at + 1] as int + 0x1_0000 * mem[at + 2] as int + 0x100_0000 * mem[at + 3] as int
  }

  lemma LoadStored(mem: Bytes, at: nat, n: nat)
    requires n <= UINT32_MAX && at + 4 <= |mem| && mem[at..at + 4] == Sip.Le(n, 4)
    ensures Load(mem, at) == n
  {
    var s := Sip.Le(n, 4);
    assert s[1..] == Sip.Le(n / 256, 3) && s[2..] == Sip.Le(n / 256 / 256, 2);
    assert s[3..] == Sip.Le(n / 256 / 256 / 256, 1);
    assert mem[at] == s[0] && mem[at + 1] == s[1] && mem[at + 2] == s[2] && mem[at + 3] == s[3];
  }

  function CmdAt(mem: Bytes, at: nat): nat
    requires at + HEADER <= |mem|
  {
    Load(mem, at)
  }

  function SizeAt(mem: Bytes, at: nat): nat
    requires at + HEADER <= |mem|
  {
    Load(mem, at + 4)
  }

  // ----- space -----

  /** The body bytes a producer is granted, from the two offsets: behind tail up to the end of the memory; if no packet
      fits there, from the start of the memory up to head, which it must not reach; or up to head, when tail is
      behind it. */
  function Granted(head: nat, tail: nat, size: nat, packetSize: nat): (n: nat)
    requires tail <= size && HEADER <= packetSize
    ensures n == 0 || n + HEADER >= packetSize
  {
    if head <= tail && size - tail >= packetSize then size - tail - HEADER
    else if head <= tail && head > packetSize then head - 1 - HEADER
    else if head > tail && head - tail > packetSize then head - tail - 1 - HEADER
    else 0
  }

  // ----- records -----

  ghost predicate RecordAt(mem: Bytes, at: nat, body: Bytes) {
    && at + HEADER + |body| <= |mem|
    && CmdAt(mem, at) == PACKAGE && SizeAt(mem, at) == |body|
    && mem[at + HEADER..at + HEADER + |body|] == body
  }

  /** The bytes these bodies take with their headers. */
  function Size(q: seq<Bytes>): nat {
    if q == [] then 0 else HEADER + |q[0]| + Size(q[1..])
  }

  /** One record behind the other from `at` on. */
  ghost predicate Chain(mem: Bytes, at: nat, q: seq<Bytes>)
    decreases |q|
  {
    q == [] || (RecordAt(mem, at, q[0]) && Chain(mem, at + HEADER + |q[0]|, q[1..]))
  }

  lemma {:induction false} SizeAppend(a: seq<Bytes>, b: seq<Bytes>)
    ensures Size(a + b) == Size(a) + Size(b)
  {
    if a == [] {
      assert a + b == b;
    } else {
      SizeAppend(a[1..], b);
      assert (a + b)[1..] == a[1..] + b;
    }
  }

  lemma {:induction false} ChainAppend(mem: Bytes, at: nat, a: seq<Bytes>, b: seq<Bytes>)
    ensures Chain(mem, at, a + b) <==> Chain(mem, at, a) && Chain(mem, at + Size(a), b)
    decreases |a|
  {
    if a == [] {
      assert a + b == b;
    } else {
      ChainAppend(mem, at + HEADER + |a[0]|, a[1..], b);
      assert (a + b)[1..] == a[1..] + b;
    }
  }

  lemma {:induction false} ChainFits(mem: Bytes, at: nat, q: seq<Bytes>)
    requires Chain(mem, at, q) && at <= |mem|
    ensures at + Size(q) <= |mem|
    decreases |q|
  {
    if q != [] {
      ChainFits(mem, at + HEADER + |q[0]|, q[1..]);
    }
  }

  /** Two memories agree from `from` to `to`. */
  ghost predicate Same(mem: Bytes, now: Bytes, from: nat, to: nat) {
    from <= to <= |mem| && |now| == |mem| && now[from..to] == mem[from..to]
  }

  lemma SameHeader(mem: Bytes, now: Bytes, from: nat, to: nat, at: nat)
    requires Same(mem, now, from, to) && from <= at && at + HEADER <= to
    ensures CmdAt(now, at) == CmdAt(mem, at) && SizeAt(now, at) == SizeAt(mem, at)
  {
    assert forall i :: from <= i < to ==> now[i] == now[from..to][i - from] == mem[i];
  }

  /** Writing elsewhere leaves the records alone. */
  lemma {:induction false} ChainKept(mem: Bytes, now: Bytes, from: nat, to: nat, at: nat, q: seq<Bytes>)
    requires Same(mem, now, from, to) && Chain(mem, at, q) && from <= at && at + Size(q) <= to
    ensures Chain(now, at, q)
    decreases |q|
  {
    if q != [] {
      var next := at + HEADER + |q[0]|;
      SameHeader(mem, now, from, to, at);
      assert forall i :: from <= i < to ==> now[i] == now[from..to][i - from] == mem[i];
      assert now[at + HEADER..next] == mem[at + HEADER..next];
      ChainKept(mem, now, from, to, next, q[1..]);
    }
  }

  // ----- peek -----

  /** The unused end of a part: too short for a header, or marked with e_tbus_cmd_ignore. */
  predicate Gap(mem: Bytes, at: nat, limit: nat)
    requires at <= limit <= |mem|
  {
    limit - at < HEADER || CmdAt(mem, at) == IGNORE
  }

  /** What peek meets at `at`: the end of the part, a broken record (NULL), or a record of this length. */
  datatype Sight = End | Broken | Found(size: nat)

  function Look(mem: Bytes, at: nat, limit: nat): (s: Sight)
    requires at <= limit <= |mem|
    ensures s.Found? ==> at + HEADER + s.size <= limit
  {
    if Gap(mem, at, limit) then End
    else if CmdAt(mem, at) != PACKAGE || limit - at < HEADER + SizeAt(mem, at) then Broken
    else Found(SizeAt(mem, at))
  }

  /** What peek returns: where it stopped and the bodies it found, or NULL. */
  datatype Peek = Null | Peek(stop: nat, bodies: seq<Bytes>)

  function Peeked(mem: Bytes, at: nat, limit: nat, max: nat): (r: Peek)
    requires at <= limit <= |mem|
    ensures r.Peek? ==> at <= r.stop <= limit && |r.bodies| <= max
    decreases limit - at
  {
    match Look(mem, at, limit)
    case End => Peek(limit, [])
    case Broken => Null
    case Found(size) =>
      if max == 0 then Peek(at, [])
      else Before(mem[at + HEADER..at + HEADER + size], Peeked(mem, at + HEADER + size, limit, max - 1))
  }

  function Before(body: Bytes, rest: Peek): Peek {
    if rest.Null? then Null else Peek(rest.stop, [body] + rest.bodies)
  }

  /** The part [at, limit) holds these records and a gap. */
  ghost predicate HoldsRecords(mem: Bytes, at: nat, limit: nat, q: seq<Bytes>) {
    && at + Size(q) <= limit <= |mem|
    && Chain(mem, at, q) && Gap(mem, at + Size(q), limit)
  }

  /** Where peek stops: at the limit when it met every record, in front of the first one too many otherwise. */
  function StopsAt(at: nat, limit: nat, q: seq<Bytes>, max: nat): nat {
    if |q| <= max then limit else at + Size(q[..max])
  }

  lemma StopsCons(at: nat, limit: nat, q: seq<Bytes>, max: nat)
    requires q != [] && max > 0
    ensures StopsAt(at, limit, q, max) == StopsAt(at + HEADER + |q[0]|, limit, q[1..], max - 1)
    ensures q[..Min(max, |q|)] == [q[0]] + q[1..][..Min(max - 1, |q| - 1)]
  {
    if |q| > max {
      assert q[..max][1..] == q[1..][..max - 1];
    }
  }

  /** What lies at an offset is no record: a command that is neither of the two, or a body that reaches past the limit. */
  ghost predicate Junk(mem: Bytes, at: nat, limit: nat) {
    && at + HEADER <= limit <= |mem|
    && Load(mem, at) != 2
    && (Load(mem, at) == 1 ==> at + HEADER + Load(mem, at + 4) > limit)
  }

  /** Behind records that are in order, junk makes peek give up. */
  lemma {:induction false} PeekMeetsJunk(mem: Bytes, at: nat, limit: nat, q: seq<Bytes>, max: nat)
    requires Chain(mem, at, q) && |q| <= max && Junk(mem, at + Size(q), limit)
    ensures at <= limit <= |mem| && Peeked(mem, at, limit, max) == Null
    decreases |q|
  {
    if q != [] {
      PeekMeetsJunk(mem, at + HEADER + |q[0]|, limit, q[1..], max - 1);
      assert Look(mem, at, limit) == Found(|q[0]|);
    }
  }

  /** Then a read gives up everything up to tail and hands out nothing. */
  lemma JunkIsSkipped(mem: Bytes, head: nat, tail: nat, q: seq<Bytes>, max: nat)
    requires head <= tail && Chain(mem, head, q) && |q| <= max && Junk(mem, head + Size(q), tail)
    ensures tail <= |mem| && ReadOf(mem, head, tail, max) == Reading(tail, [], [])
  {
    PeekMeetsJunk(mem, head, tail, q, max);
  }

  /** peek finds the first records of a part, and never an error. */
  lemma {:induction false} PeekFindsRecords(mem: Bytes, at: nat, limit: nat, q: seq<Bytes>, max: nat)
    requires HoldsRecords(mem, at, limit, q)
    ensures Peeked(mem, at, limit, max) == Peek(StopsAt(at, limit, q, max), q[..Min(max, |q|)])
    decreases |q|
  {
    if q != [] {
      assert Look(mem, at, limit) == Found(|q[0]|);
      if max > 0 {
        PeekFindsRecords(mem, at + HEADER + |q[0]|, limit, q[1..], max - 1);
        StopsCons(at, limit, q, max);
      }
    }
  }

  // ----- the whole ring -----

  /**
   What the memory holds between head and tail: one part, or, once the producer went back to offset 0, the part
   from head to the end and the part from 0 to tail.
   */
  ghost predicate Laid(mem: Bytes, head: nat, tail: nat, ahead: seq<Bytes>, wrapped: seq<Bytes>) {
    && head <= |mem| && tail <= |mem|
    && if head <= tail then
         |wrapped| == 0 && Chain(mem, head, ahead) && head + Size(ahead) == tail
       else
         HoldsRecords(mem, head, |mem|, ahead) && Chain(mem, 0, wrapped) && Size(wrapped) == tail
  }

  lemma ChainSnoc(mem: Bytes, now: Bytes, at: nat, end: nat, q: seq<Bytes>, body: Bytes)
    requires Chain(mem, at, q) && at + Size(q) == end && Same(mem, now, 0, end) && RecordAt(now, end, body)
    ensures Chain(now, at, q + [body]) && at + Size(q + [body]) == end + HEADER + |body|
  {
    ChainKept(mem, now, 0, end, at, q);
    ChainAppend(now, at, q, [body]);
    SizeAppend(q, [body]);
  }

  /** The producer appended a record at tail, outside of what is laid, and goes on behind it. */
  lemma LaidAppend(
    mem: Bytes, now: Bytes, head: nat, tail: nat, ahead: seq<Bytes>, wrapped: seq<Bytes>, body: Bytes)
    requires Laid(mem, head, tail, ahead, wrapped)
    requires RecordAt(now, tail, body) && (tail < head ==> tail + HEADER + |body| < head)
    requires Same(mem, now, 0, tail) && (tail < head ==> Same(mem, now, head, |mem|))
    ensures Laid(now, head, tail + HEADER + |body|,
              if head <= tail then ahead + [body] else ahead, if head <= tail then wrapped else wrapped + [body])
  {
    if head <= tail {
      ChainSnoc(mem, now, head, tail, ahead, body);
    } else {
      ChainSnoc(mem, now, 0, tail, wrapped, body);
      HoldsKept(mem, now, head, ahead);
    }
  }

  lemma HoldsKept(mem: Bytes, now: Bytes, head: nat, ahead: seq<Bytes>)
    requires HoldsRecords(mem, head, |mem|, ahead) && Same(mem, now, head, |mem|)
    ensures HoldsRecords(now, head, |now|, ahead)
  {
    ChainKept(mem, now, head, |mem|, head, ahead);
    var end := head + Size(ahead);
    if |mem| - end >= HEADER {
      SameHeader(mem, now, head, |mem|, end);
    }
  }

  /** Writing outside of what is laid. */
  lemma LaidKept(mem: Bytes, now: Bytes, head: nat, tail: nat, ahead: seq<Bytes>, wrapped: seq<Bytes>)
    requires Laid(mem, head, tail, ahead, wrapped)
    requires Same(mem, now, 0, tail) && (tail < head ==> Same(mem, now, head, |mem|))
    ensures Laid(now, head, tail, ahead, wrapped)
  {
    if head <= tail {
      ChainKept(mem, now, 0, tail, head, ahead);
    } else {
      ChainKept(mem, now, 0, tail, 0, wrapped);
      HoldsKept(mem, now, head, ahead);
    }
  }

  /** The producer goes back to offset 0 and leaves a gap behind. */
  lemma LaidWraps(mem: Bytes, head: nat, tail: nat, ahead: seq<Bytes>, wrapped: seq<Bytes>)
    requires 0 < head <= tail && Laid(mem, head, tail, ahead, wrapped) && Gap(mem, tail, |mem|)
    ensures Laid(mem, head, 0, ahead, wrapped)
  {
  }

  /** `at` is a place where the k-th pending record may be looked for. */
  ghost predicate Mark(head: nat, tail: nat, ahead: seq<Bytes>, wrapped: seq<Bytes>, at: nat, k: nat) {
    || (k <= |ahead| && at == head + Size(ahead[..k]))
    || (tail < head && |ahead| <= k <= |ahead| + |wrapped| && at == Size(wrapped[..k - |ahead|]))
  }

  /** The records that are left when the consumer moves head to such a place. */
  ghost function Left(head: nat, ahead: seq<Bytes>, wrapped: seq<Bytes>, at: nat, k: nat): (seq<Bytes>, seq<Bytes>)
    requires k <= |ahead| + |wrapped|
  {
    if k <= |ahead| && at == head + Size(ahead[..k]) then (ahead[k..], wrapped)
    else if k >= |ahead| then (wrapped[k - |ahead|..], wrapped[..0])
    else (wrapped, wrapped)
  }

  lemma ChainSplit(mem: Bytes, at: nat, q: seq<Bytes>, k: nat)
    requires Chain(mem, at, q) && k <= |q|
    ensures Chain(mem, at, q[..k]) && Chain(mem, at + Size(q[..k]), q[k..])
    ensures Size(q) == Size(q[..k]) + Size(q[k..])
  {
    assert q == q[..k] + q[k..];
    ChainAppend(mem, at, q[..k], q[k..]);
    SizeAppend(q[..k], q[k..]);
  }

  lemma LaidAdvances(
    mem: Bytes, head: nat, tail: nat, ahead: seq<Bytes>, wrapped: seq<Bytes>, at: nat, k: nat)
    requires Laid(mem, head, tail, ahead, wrapped) && k <= |ahead| + |wrapped|
    requires Mark(head, tail, ahead, wrapped, at, k)
    ensures var left := Left(head, ahead, wrapped, at, k);
      && Laid(mem, at, tail, left.0, left.1)
      && left.0 + left.1 == (ahead + wrapped)[k..]
    ensures head <= tail ==> head <= at <= tail
    ensures tail < head ==> head <= at || at <= tail
  {
    if k <= |ahead| && at == head + Size(ahead[..k]) {
      AdvancesWithin(mem, head, tail, ahead, wrapped, k);
      SuffixWithin(ahead, wrapped, k);
    } else {
      AdvancesPast(mem, head, tail, ahead, wrapped, k);
      SuffixPast(ahead, wrapped, k);
    }
  }

  lemma SuffixWithin<T>(a: seq<T>, b: seq<T>, k: nat)
    requires k <= |a|
    ensures a[k..] + b == (a + b)[k..]
  {
  }

  lemma SuffixPast<T>(a: seq<T>, b: seq<T>, k: nat)
    requires |a| <= k <= |a| + |b|
    ensures b[k - |a|..] + b[..0] == (a + b)[k..]
  {
  }

  /** Head stays in its part of the memory. */
  lemma AdvancesWithin(mem: Bytes, head: nat, tail: nat, ahead: seq<Bytes>, wrapped: seq<Bytes>, k: nat)
    requires Laid(mem, head, tail, ahead, wrapped) && k <= |ahead|
    ensures Laid(mem, head + Size(ahead[..k]), tail, ahead[k..], wrapped)
    ensures head <= tail ==> head + Size(ahead[..k]) <= tail
  {
    ChainSplit(mem, head, ahead, k);
  }

  /** Head follows tail to the beginning of the memory. */
  lemma AdvancesPast(mem: Bytes, head: nat, tail: nat, ahead: seq<Bytes>, wrapped: seq<Bytes>, k: nat)
    requires Laid(mem, head, tail, ahead, wrapped) && tail < head && |ahead| <= k <= |ahead| + |wrapped|
    ensures Size(wrapped[..k - |ahead|]) <= tail
    ensures Laid(mem, Size(wrapped[..k - |ahead|]), tail, wrapped[k - |ahead|..], wrapped[..0])
  {
    ChainSplit(mem, 0, wrapped, k - |ahead|);
  }

  /** Where these bodies lie, one record behind the other from `at` on: the offsets of their headers. */
  function Places(at: nat, bodies: seq<Bytes>): (places: seq<nat>)
    ensures |places| == |bodies|
    ensures forall i :: 0 <= i < |bodies| ==> places[i] == at + Size(bodies[..i])
  {
    seq(|bodies|, i requires 0 <= i < |bodies| => at + Size(bodies[..i]))
  }

  /** What tbus_read_begin returns: where head may go, the bodies and the offsets of their records. */
  datatype Reading = Reading(stop: nat, bodies: seq<Bytes>, places: seq<nat>)

  /** tbus_read_begin, for any content of the memory: a broken record gives up everything up to tail. */
  function ReadOf(mem: Bytes, head: nat, tail: nat, max: nat): (r: Reading)
    requires head <= |mem| && tail <= |mem|
  {
    if head <= tail then
      match Peeked(mem, head, tail, max)
      case Null => Reading(tail, [], [])
      case Peek(stop, bodies) => Reading(stop, bodies, Places(head, bodies))
    else
      match Peeked(mem, head, |mem|, max)
      case Null => Reading(tail, [], [])
      case Peek(stop, bodies) =>
        if stop != |mem| then Reading(stop, bodies, Places(head, bodies))
        else
          match Peeked(mem, 0, tail, max - |bodies|)
          case Null => Reading(tail, [], [])
          case Peek(stop1, bodies1) =>
            Reading(stop1, bodies + bodies1, Places(head, bodies) + Places(0, bodies1))
  }

  lemma ReadOnePart(mem: Bytes, head: nat, tail: nat, q: seq<Bytes>, max: nat)
    requires Laid(mem, head, tail, q, []) && head <= tail
    ensures var k := Min(max, |q|);
      ReadOf(mem, head, tail, max) == Reading(head + Size(q[..k]), q[..k], Places(head, q[..k]))
  {
    PeekFindsRecords(mem, head, tail, q, max);
    assert q[..|q|] == q;
  }

  lemma SizeShort(q: seq<Bytes>, max: nat)
    requires max < |q|
    ensures Size(q[..max]) < Size(q)
  {
    assert q == q[..max] + q[max..];
    SizeAppend(q[..max], q[max..]);
  }

  lemma ReadTwoParts(mem: Bytes, head: nat, tail: nat, ahead: seq<Bytes>, wrapped: seq<Bytes>, max: nat)
    requires Laid(mem, head, tail, ahead, wrapped) && tail < head
    ensures ReadOf(mem, head, tail, max) ==
      if max < |ahead| then Reading(head + Size(ahead[..max]), ahead[..max], Places(head, ahead[..max]))
      else
        var k := Min(max - |ahead|, |wrapped|);
        Reading(Size(wrapped[..k]), ahead + wrapped[..k], Places(head, ahead) + Places(0, wrapped[..k]))
  {
    PeekFindsRecords(mem, head, |mem|, ahead, max);
    if max < |ahead| {
      SizeShort(ahead, max);
    } else {
      assert ahead[..|ahead|] == ahead && wrapped[..|wrapped|] == wrapped;
      PeekFindsRecords(mem, 0, tail, wrapped, max - |ahead|);
    }
  }

  /** What the consumer gets to see of these pending records: the first ones in order, each at a place where head
      may go to have it come first the next time, and a place behind the last one. */
  ghost predicate Reads(
    r: Reading, head: nat, tail: nat, ahead: seq<Bytes>, wrapped: seq<Bytes>, max: nat, n: nat)
  {
    && n <= |ahead + wrapped| && r.bodies == (ahead + wrapped)[..Min(max, n)]
    && |r.places| == |r.bodies|
    && (forall i :: 0 <= i < |r.places| ==> Mark(head, tail, ahead, wrapped, r.places[i], i))
    && Mark(head, tail, ahead, wrapped, r.stop, |r.bodies|)
  }

  lemma MarksAhead(head: nat, tail: nat, ahead: seq<Bytes>, wrapped: seq<Bytes>, k: nat)
    requires k <= |ahead|
    ensures forall i :: 0 <= i < k ==> Mark(head, tail, ahead, wrapped, Places(head, ahead[..k])[i], i)
  {
    forall i | 0 <= i < k ensures Mark(head, tail, ahead, wrapped, Places(head, ahead[..k])[i], i) {
      assert ahead[..k][..i] == ahead[..i];
    }
  }

  lemma MarksWrapped(head: nat, tail: nat, ahead: seq<Bytes>, wrapped: seq<Bytes>, k: nat)
    requires tail < head && k <= |wrapped|
    ensures var places := Places(head, ahead) + Places(0, wrapped[..k]);
      forall i :: 0 <= i < |ahead| + k ==> Mark(head, tail, ahead, wrapped, places[i], i)
  {
    var places := Places(head, ahead) + Places(0, wrapped[..k]);
    forall i | 0 <= i < |ahead| + k ensures Mark(head, tail, ahead, wrapped, places[i], i) {
      if i >= |ahead| {
        assert wrapped[..k][..i - |ahead|] == wrapped[..i - |ahead|];
      }
    }
  }

  /** tbus_read_begin reads the oldest records in order. */
  lemma ReadsOldest(mem: Bytes, head: nat, tail: nat, ahead: seq<Bytes>, wrapped: seq<Bytes>, max: nat)
    requires Laid(mem, head, tail, ahead, wrapped)
    ensures Reads(ReadOf(mem, head, tail, max), head, tail, ahead, wrapped, max, |ahead + wrapped|)
  {
    if head <= tail {
      ReadOnePart(mem, head, tail, ahead, max);
      assert ahead + wrapped == ahead;
      MarksAhead(head, tail, ahead, wrapped, Min(max, |ahead|));
    } else {
      ReadTwoParts(mem, head, tail, ahead, wrapped, max);
      if max < |ahead| {
        assert (ahead + wrapped)[..max] == ahead[..max];
        MarksAhead(head, tail, ahead, wrapped, max);
      } else {
        var k := Min(max - |ahead|, |wrapped|);
        assert (ahead + wrapped)[..|ahead| + k] == ahead + wrapped[..k];
        MarksWrapped(head, tail, ahead, wrapped, k);
      }
    }
  }

  /** A tail that was read earlier, when `n` records were pending: those are a prefix of what is pending now. */
  ghost predicate Seen(head: nat, tail: nat, ahead: seq<Bytes>, wrapped: seq<Bytes>, t: nat, n: nat) {
    if head <= t then
      n <= |ahead| && t == head + Size(ahead[..n])
    else
      tail < head && |ahead| <= n <= |ahead| + |wrapped| && t == Size(wrapped[..n - |ahead|])
  }

  lemma MarkGrows(
    head: nat, t: nat, seenAhead: seq<Bytes>, seenWrapped: seq<Bytes>, tail: nat, ahead: seq<Bytes>,
    wrapped: seq<Bytes>, at: nat, k: nat)
    requires Mark(head, t, seenAhead, seenWrapped, at, k)
    requires if head <= t then seenAhead <= ahead else tail < head && seenAhead == ahead && seenWrapped <= wrapped
    ensures Mark(head, tail, ahead, wrapped, at, k)
  {
    if k <= |seenAhead| {
      assert seenAhead[..k] == ahead[..k];
    }
    if t < head && k >= |ahead| && k - |ahead| <= |seenWrapped| {
      assert seenWrapped[..k - |ahead|] == wrapped[..k - |ahead|];
    }
  }

  /** With an earlier tail, tbus_read_begin finds the oldest of the records that were pending then. */
  lemma ReadsSeen(
    mem: Bytes, head: nat, tail: nat, ahead: seq<Bytes>, wrapped: seq<Bytes>, t: nat, n: nat, max: nat)
    requires Laid(mem, head, tail, ahead, wrapped) && Seen(head, tail, ahead, wrapped, t, n)
    ensures t <= |mem| && Reads(ReadOf(mem, head, t, max), head, tail, ahead, wrapped, max, n)
  {
    var m := if head <= t then 0 else n - |ahead|;
    var seenAhead, seenWrapped := if head <= t then ahead[..n] else ahead, wrapped[..m];
    assert seenAhead + seenWrapped == (ahead + wrapped)[..n];
    if head <= t {
      ChainSplit(mem, head, ahead, n);
    } else {
      ChainSplit(mem, 0, wrapped, m);
    }
    ReadsOldest(mem, head, t, seenAhead, seenWrapped, max);
    var r := ReadOf(mem, head, t, max);
    assert (ahead + wrapped)[..n][..Min(max, n)] == (ahead + wrapped)[..Min(max, n)];
    forall i | 0 <= i < |r.places| ensures Mark(head, tail, ahead, wrapped, r.places[i], i) {
      MarkGrows(head, t, seenAhead, seenWrapped, tail, ahead, wrapped, r.places[i], i);
    }
    MarkGrows(head, t, seenAhead, seenWrapped, tail, ahead, wrapped, r.stop, |r.bodies|);
  }

  // ----- the loop of peek -----

  datatype Iov = Iov(base: nat, len: nat)

  /** The iov entries point at these bodies, behind the headers at these places. */
  ghost predicate Entries(iov: seq<Iov>, mem: Bytes, bodies: seq<Bytes>, places: seq<nat>) {
    && |iov| == |bodies| == |places|
    && forall i :: 0 <= i < |iov| ==>
         && iov[i] == Iov(places[i] + HEADER, |bodies[i]|)
         && iov[i].base + iov[i].len <= |mem|
         && mem[iov[i].base..iov[i].base + iov[i].len] == bodies[i]
  }

  function Follow(done: seq<Bytes>, rest: Peek): Peek {
    if rest.Null? then Null else Peek(rest.stop, done + rest.bodies)
  }

  lemma FollowSnoc(done: seq<Bytes>, body: Bytes, rest: Peek)
    ensures Follow(done, Before(body, rest)) == Follow(done + [body], rest)
  {
    if rest.Peek? {
      ConcatAssociates(done, [body], rest.bodies);
    }
  }

  lemma EntriesSnoc(
    iov: seq<Iov>, mem: Bytes, start: nat, bodies: seq<Bytes>, ch: nat, len: nat, body: Bytes)
    requires Entries(iov, mem, bodies, Places(start, bodies))
    requires ch == start + Size(bodies) && len == |body| && RecordAt(mem, ch, body)
    ensures Entries(iov + [Iov(ch + HEADER, len)], mem, bodies + [body], Places(start, bodies + [body]))
    ensures ch + HEADER + len == start + Size(bodies + [body])
  {
    SizeAppend(bodies, [body]);
    forall i | 0 <= i < |bodies| ensures (bodies + [body])[..i] == bodies[..i] {
    }
    assert (bodies + [body])[..|bodies|] == bodies;
  }

  lemma EntriesConcat(
    iov0: seq<Iov>, iov1: seq<Iov>, mem: Bytes, bodies0: seq<Bytes>, bodies1: seq<Bytes>, places0: seq<nat>,
    places1: seq<nat>)
    requires Entries(iov0, mem, bodies0, places0) && Entries(iov1, mem, bodies1, places1)
    ensures Entries(iov0 + iov1, mem, bodies0 + bodies1, places0 + places1)
  {
  }

  /** The loop of peek at ch: the entries it has made, and what it is still to find. */
  ghost predicate Collected(
    mem: Bytes, start: nat, limit: nat, max: nat, ch: nat, iov: seq<Iov>, done: seq<Bytes>)
  {
    && start <= ch == start + Size(done) <= limit <= |mem|
    && |done| <= max && Entries(iov, mem, done, Places(start, done))
  }

  ghost predicate Rests(mem: Bytes, start: nat, limit: nat, max: nat, ch: nat, done: seq<Bytes>)
    requires start <= ch <= limit <= |mem| && |done| <= max
  {
    Peeked(mem, start, limit, max) == Follow(done, Peeked(mem, ch, limit, max - |done|))
  }

  lemma Begins(mem: Bytes, start: nat, limit: nat, max: nat, none: seq<Bytes>)
    requires start <= limit <= |mem| && |none| == 0
    ensures Collected(mem, start, limit, max, start, [], none) && Rests(mem, start, limit, max, start, none)
  {
    var rest := Peeked(mem, start, limit, max);
    if rest.Peek? {
      assert none + rest.bodies == rest.bodies;
    }
  }

  lemma Ends(mem: Bytes, start: nat, limit: nat, max: nat, ch: nat, done: seq<Bytes>)
    requires start <= ch <= limit <= |mem| && |done| <= max && Rests(mem, start, limit, max, ch, done)
    ensures var r := Peeked(mem, start, limit, max);
      match Look(mem, ch, limit)
      case End => r == Peek(limit, done)
      case Broken => r == Null
      case Found(size) => |done| == max ==> r == Peek(ch, done)
  {
    assert done + [] == done;
  }

  lemma GoesOn(
    mem: Bytes, start: nat, limit: nat, max: nat, ch: nat, iov: seq<Iov>, done: seq<Bytes>, next: nat, body: Bytes)
    requires Collected(mem, start, limit, max, ch, iov, done) && Rests(mem, start, limit, max, ch, done)
    requires |done| < max && Look(mem, ch, limit) == Found(|body|) && next == ch + HEADER + |body| <= |mem|
    requires mem[ch + HEADER..next] == body
    ensures Collected(mem, start, limit, max, next, iov + [Iov(ch + HEADER, |body|)], done + [body])
    ensures Rests(mem, start, limit, max, next, done + [body])
  {
    EntriesSnoc(iov, mem, start, done, ch, |body|, body);
    FollowNext(mem, ch, limit, max, done, body);
  }

  lemma FollowNext(mem: Bytes, ch: nat, limit: nat, max: nat, done: seq<Bytes>, body: Bytes)
    requires ch <= limit <= |mem| && Look(mem, ch, limit) == Found(|body|) && |done| < max
    requires mem[ch + HEADER..ch + HEADER + |body|] == body
    ensures Follow(done, Peeked(mem, ch, limit, max - |done|)) ==
      Follow(done + [body], Peeked(mem, ch + HEADER + |body|, limit, max - |done + [body]|))
  {
    PeekedNext(mem, ch, limit, max - |done|, body);
    FollowSnoc(done, body, Peeked(mem, ch + HEADER + |body|, limit, max - |done| - 1));
    assert max - |done + [body]| == max - |done| - 1;
  }

  lemma PeekedNext(mem: Bytes, ch: nat, limit: nat, max: nat, body: Bytes)
    requires ch <= limit <= |mem| && Look(mem, ch, limit) == Found(|body|) && max > 0
    requires mem[ch + HEADER..ch + HEADER + |body|] == body
    ensures Peeked(mem, ch, limit, max) == Before(body, Peeked(mem, ch + HEADER + |body|, limit, max - 1))
    ensures RecordAt(mem, ch, body)
  {
  }

  // ----- looks and writes -----

  lemma SeenNow(mem: Bytes, head: nat, tail: nat, ahead: seq<Bytes>, wrapped: seq<Bytes>)
    requires Laid(mem, head, tail, ahead, wrapped)
    ensures Seen(head, tail, ahead, wrapped, tail, |ahead| + |wrapped|)
  {
    assert ahead[..|ahead|] == ahead && wrapped[..|wrapped|] == wrapped;
  }

  lemma SeenNone(head: nat, tail: nat, ahead: seq<Bytes>, wrapped: seq<Bytes>)
    ensures Seen(head, tail, ahead, wrapped, head, 0)
  {
    assert |ahead[..0]| == 0;
  }

  lemma SeenGrows(
    head: nat, tail: nat, ahead: seq<Bytes>, wrapped: seq<Bytes>, t: nat, n: nat, body: Bytes)
    requires Seen(head, tail, ahead, wrapped, t, n)
    ensures head <= tail ==> forall later: nat :: Seen(head, later, ahead + [body], wrapped, t, n)
    ensures tail < head ==> forall later: nat :: later < head ==> Seen(head, later, ahead, wrapped + [body], t, n)
  {
    if head <= t {
      assert (ahead + [body])[..n] == ahead[..n];
    } else {
      assert (wrapped + [body])[..n - |ahead|] == wrapped[..n - |ahead|];
    }
  }

  /** The two stores of a header leave a record around the body that was already there. */
  lemma StampedLies(mem: Bytes, mid: Bytes, now: Bytes, at: nat, len: nat)
    requires at + HEADER + len <= |mem| && 0 < len <= UINT32_MAX
    requires |mid| == |mem| && mid[at..at + 4] == Sip.Le(PACKAGE, 4)
    requires Same(mem, mid, 0, at) && Same(mem, mid, at + 4, |mem|)
    requires |now| == |mem| && now[at + 4..at + HEADER] == Sip.Le(len, 4)
    requires Same(mid, now, 0, at + 4) && Same(mid, now, at + HEADER, |mem|)
    ensures RecordAt(now, at, mem[at + HEADER..at + HEADER + len])
    ensures Same(mem, now, 0, at) && Same(mem, now, at + HEADER + len, |mem|)
  {
    SamePart(mid, now, 0, at + 4, 0, at);
    SamePart(mid, now, 0, at + 4, at, at + 4);
    SamePart(mem, mid, at + 4, |mem|, at + HEADER, |mem|);
    SamePart(mem, now, at + HEADER, |mem|, at + HEADER, at + HEADER + len);
    SamePart(mem, now, at + HEADER, |mem|, at + HEADER + len, |mem|);
    LoadStored(now, at, PACKAGE);
    LoadStored(now, at + 4, len);
  }

  lemma LaidStamped(
    mem: Bytes, now: Bytes, head: nat, tail: nat, ahead: seq<Bytes>, wrapped: seq<Bytes>, len: nat)
    requires Laid(mem, head, tail, ahead, wrapped) && (tail < head ==> tail + HEADER + len < head)
    requires Same(mem, now, 0, tail) && Same(mem, now, tail + HEADER + len, |mem|)
    ensures Laid(now, head, tail, ahead, wrapped)
  {
    if tail < head {
      SamePart(mem, now, tail + HEADER + len, |mem|, head, |mem|);
    }
    LaidKept(mem, now, head, tail, ahead, wrapped);
  }

  lemma SamePart(mem: Bytes, now: Bytes, from: nat, to: nat, a: nat, b: nat)
    requires Same(mem, now, from, to) && from <= a <= b <= to
    ensures Same(mem, now, a, b)
  {
    forall i | a <= i < b ensures now[i] == mem[i] {
      assert now[i] == now[from..to][i - from] && mem[i] == mem[from..to][i - from];
    }
  }
}
