/**
 The message bus of tbus/source/tbus.c: a ring in shared memory with one producer and one consumer that do not
 lock. Every method is what one side does between two looks at the other side's offset, so calling them in any
 order is an interleaving of the two programs. Each side works with the value it saw last, which may be stale:
 `saw` is the producer's last look at head_offset, `seenTail` the consumer's last look at tail_offset.

 The invariant Valid says in particular that Pending, the messages in memory, are those sent and not yet taken,
 in order.
 */
module Tbus {
  import opened Basics
  import opened TbusSpec
  import Sip

  /** What one pass of tbus_send_begin comes to: start over from offset 0, no space, or space for n bytes. */
  datatype Reservation = Again | Full | Space(n: nat)

  /** packetSize * number */
  function Capacity(packetSize: nat, number: nat): (bytes: nat)
    ensures number > 0 ==> bytes >= packetSize
  {
    if number == 0 then 0 else packetSize + Capacity(packetSize, number - 1)
  }

  ghost method NoMessages() returns (none: seq<Bytes>)
    ensures |none| == 0
  {
    none := [];
  }

  class Bus {
    const size: nat
    const packetSize: nat
    const buff: array<Byte>
    var head: nat
    var tail: nat

    /** The records from head on, and those from offset 0 on when the producer is ahead by one round. */
    ghost var ahead: seq<Bytes>
    ghost var wrapped: seq<Bytes>
    ghost var sent: seq<Bytes>
    ghost var taken: seq<Bytes>
    /** The producer: the last head it saw, and the bytes of body it may write. */
    ghost var saw: nat
    ghost var room: nat
    /** The consumer: the last tail it saw, and how many records were pending then. */
    ghost var seenTail: nat
    ghost var seen: nat

    ghost function Pending(): seq<Bytes>
      reads this`ahead, this`wrapped
    {
      ahead + wrapped
    }

    /** The consumer may have moved head along what was laid since the producer looked. */
    ghost predicate SawBehind(tail: nat)
      reads this`saw, this`head
    {
      if saw <= tail then saw <= head <= tail else head >= saw || head <= tail
    }

    ghost predicate RoomFits(tail: nat)
      reads this`room, this`saw
    {
      room > 0 ==> if saw <= tail then tail + HEADER + room <= size else tail + HEADER + room < saw
    }

    /** The invariant, for what tail is or is about to be. */
    ghost predicate ValidAt(tail: nat)
      reads this, buff
    {
      && buff.Length == size <= UINT32_MAX && HEADER <= packetSize <= size
      && Laid(buff[..], head, tail, ahead, wrapped)
      && saw <= size && SawBehind(tail) && RoomFits(tail)
      && Seen(head, tail, ahead, wrapped, seenTail, seen)
      && sent == taken + Pending()
    }

    ghost predicate Valid()
      reads this, buff
    {
      ValidAt(tail)
    }

    /** tbus_init */
    constructor (size: nat, number: nat)
      requires number > 0 && Capacity(size + HEADER, number) <= UINT32_MAX
      ensures Valid() && fresh(buff) && |Pending()| == |sent| == |taken| == 0 && room == 0
    {
      var bytes := Capacity(size + HEADER, number);
      this.size, packetSize := bytes, size + HEADER;
      buff := new Byte[bytes];
      head, tail := 0, 0;
      ghost var none := NoMessages();
      ahead, wrapped, sent, taken := none, none, none, none;
      saw, room, seenTail, seen := 0, 0, 0, 0;
    }

    // ----- the producer -----

    method SeeHead() returns (h: nat)
      requires Valid()
      modifies this`saw
      ensures Valid() && h == saw == head
    {
      h := head;
      saw := head;
    }

    /** The space a producer finds with this head: what is left before the end of the memory or before head. */
    function WriteSize(h: nat): nat
      requires h <= size && tail <= size
      reads this`tail
    {
      if h <= tail then size - tail else h - tail - 1
    }

    /** One pass of tbus_send_begin. */
    method Reserve(h: nat) returns (r: Reservation)
      requires Valid() && h == saw
      modifies this`tail, this`room, buff
      ensures Valid()
      ensures match r
        case Space(n) => tail == old(tail) && room == n && n + HEADER == WriteSize(h) >= packetSize
        case Full => tail == old(tail) && room == 0 && WriteSize(h) < packetSize && (h == 0 || tail < h)
        case Again => tail == room == 0 && 0 < h <= old(tail) && size - old(tail) < packetSize
    {
      room := 0;
      if h <= tail {
        var writeSize := size - tail;
        if writeSize < HEADER {
          if h != 0 {
            GoRound(h);
            return Again;
          }
          return Full;
        } else if writeSize < packetSize {
          Ignore();
          if h != 0 {
            GoRound(h);
            return Again;
          }
          return Full;
        } else {
          room := writeSize - HEADER;
          return Space(writeSize - HEADER);
        }
      } else {
        var writeSize := h - tail - 1;
        if writeSize < packetSize {
          return Full;
        }
        room := writeSize - HEADER;
        return Space(writeSize - HEADER);
      }
    }

    /** tb->tail_offset = 0 */
    method GoRound(h: nat)
      requires Valid() && h == saw && room == 0
      requires 0 < h <= tail && Gap(buff[..], tail, size)
      modifies this`tail
      ensures Valid() && tail == 0
    {
      LaidWraps(buff[..], head, tail, ahead, wrapped);
      tail := 0;
    }

    /** header->cmd = e_tbus_cmd_ignore */
    method Ignore()
      requires Valid() && head <= tail && tail + HEADER <= size && room == 0
      modifies buff
      ensures Valid() && Gap(buff[..], tail, size)
    {
      ghost var mem := buff[..];
      PutLe(tail, IGNORE);
      LoadStored(buff[..], tail, IGNORE);
      LaidKept(mem, buff[..], head, tail, ahead, wrapped);
    }

    /** A 32-bit store. */
    method PutLe(at: nat, n: nat)
      requires at + 4 <= buff.Length
      modifies buff
      ensures buff[at..at + 4] == Sip.Le(n, 4)
      ensures Same(old(buff[..]), buff[..], 0, at)
      ensures at + 4 <= buff.Length && Same(old(buff[..]), buff[..], at + 4, buff.Length)
    {
      var le := Sip.Le(n, 4);
      buff[at], buff[at + 1], buff[at + 2], buff[at + 3] := le[0], le[1], le[2], le[3];
      assert buff[at..at + 4] == le;
    }

    /** tbus_send_begin, without a consumer at work between its two passes: room at the end, or else room at the
        start, as long as a whole packet fits. */
    method SendBegin() returns (n: nat)
      requires Valid()
      modifies this`saw, this`tail, this`room, buff
      ensures Valid() && room == n && n == Granted(head, old(tail), size, packetSize)
      ensures tail == if 0 < head <= old(tail) && size - old(tail) < packetSize then 0 else old(tail)
      ensures old(head == tail) && 2 * packetSize <= size ==> n + HEADER >= packetSize
    {
      var h := SeeHead();
      var r := Reserve(h);
      if r == Again {
        h := SeeHead();
        r := Reserve(h);
      }
      n := if r.Space? then r.n else 0;
    }

    method WriteBody(at: nat, body: Bytes)
      requires at + |body| <= buff.Length
      modifies buff
      ensures buff[..][at..at + |body|] == body
      ensures Same(old(buff[..]), buff[..], 0, at)
      ensures Same(old(buff[..]), buff[..], at + |body|, buff.Length)
    {
      for i := 0 to |body|
        invariant forall k :: 0 <= k < i ==> buff[at + k] == body[k]
        invariant forall k :: 0 <= k < buff.Length && !(at <= k < at + i) ==> buff[k] == old(buff[k])
      {
        buff[at + i] := body[i];
      }
    }

    /** The producer writes a body into the space it was given. */
    method Fill(body: Bytes)
      requires Valid() && 0 < |body| <= room
      modifies buff
      ensures Valid() && tail + HEADER + |body| <= size
      ensures buff[..][tail + HEADER..tail + HEADER + |body|] == body
    {
      ghost var mem := buff[..];
      WriteBody(tail + HEADER, body);
      SamePart(mem, buff[..], 0, tail + HEADER, 0, tail);
      LaidStamped(mem, buff[..], head, tail, ahead, wrapped, |body|);
    }

    /** The header stores of tbus_send_end make a record of the bytes behind them. */
    method PutHeader(at: nat, len: nat)
      requires at + HEADER + len <= buff.Length && 0 < len <= UINT32_MAX
      modifies buff
      ensures RecordAt(buff[..], at, old(buff[..])[at + HEADER..at + HEADER + len])
      ensures Same(old(buff[..]), buff[..], 0, at)
      ensures Same(old(buff[..]), buff[..], at + HEADER + len, buff.Length)
    {
      ghost var mem := buff[..];
      PutLe(at, PACKAGE);
      ghost var mid := buff[..];
      PutLe(at + 4, len);
      ghost var now := buff[..];
      assert mid[at..at + 4] == Sip.Le(PACKAGE, 4) && now[at + 4..at + HEADER] == Sip.Le(len, 4);
      StampedLies(mem, mid, now, at, len);
    }

    method Stamp(len: nat, ghost body: Bytes)
      requires Valid() && 0 < len <= room && len == |body|
      requires buff[..][tail + HEADER..tail + HEADER + len] == body
      modifies buff
      ensures Valid() && RecordAt(buff[..], tail, body)
    {
      ghost var mem := buff[..];
      PutHeader(tail, len);
      LaidStamped(mem, buff[..], head, tail, ahead, wrapped, len);
    }

    /** tbus_send_end, with the head it looks at, when the producer wrote `body`. */
    method SendEnd(len: nat, h: nat, ghost body: Bytes)
      requires Valid() && h == saw && len == |body| <= room
      requires len > 0 ==> buff[..][tail + HEADER..tail + HEADER + len] == body
      modifies this`tail, this`room, this`ahead, this`wrapped, this`sent, buff
      ensures Valid()
      ensures len == 0 ==> tail == old(tail) && room == old(room) && sent == old(sent) && Pending() == old(Pending())
      ensures len > 0 ==> room == 0 && sent == old(sent) + [body] && Pending() == old(Pending()) + [body]
      ensures len > 0 ==> tail == if h != 0 && old(tail) + HEADER + len >= size then 0 else old(tail) + HEADER + len
    {
      if len == 0 {
        return;
      }
      Stamp(len, body);
      Publish(len, h, body);
    }

    method Publish(len: nat, h: nat, ghost body: Bytes)
      requires Valid() && h == saw && 0 < len <= room && len == |body|
      requires RecordAt(buff[..], tail, body)
      modifies this`tail, this`room, this`ahead, this`wrapped, this`sent
      ensures Valid() && room == 0
      ensures sent == old(sent) + [body] && Pending() == old(Pending()) + [body]
      ensures tail == if h != 0 && old(tail) + HEADER + len >= size then 0 else old(tail) + HEADER + len
    {
      var tailOffset := tail + HEADER + len;
      Grow(body);
      if tailOffset >= size && h != 0 {
        LaidWraps(buff[..], head, tailOffset, ahead, wrapped);
        tailOffset := 0;
      }
      tail := tailOffset;
    }

    /** The record at tail becomes part of what is laid. */
    ghost method Grow(body: Bytes)
      requires Valid() && 0 < |body| <= room && RecordAt(buff[..], tail, body)
      modifies this`room, this`ahead, this`wrapped, this`sent
      ensures ValidAt(tail + HEADER + |body|) && room == 0
      ensures saw > tail ==> tail + HEADER + |body| < size
      ensures sent == old(sent) + [body] && Pending() == old(Pending()) + [body]
    {
      LaidAppend(buff[..], buff[..], head, tail, ahead, wrapped, body);
      SeenGrows(head, tail, ahead, wrapped, seenTail, seen, body);
      ConcatAssociates(taken, Pending(), [body]);
      room := 0;
      if head <= tail {
        ahead := ahead + [body];
        assert Pending() == old(Pending()) + [body];
      } else {
        ConcatAssociates(ahead, wrapped, [body]);
        wrapped := wrapped + [body];
      }
      sent := sent + [body];
    }

    // ----- the consumer -----

    method SeeTail() returns (t: nat)
      requires Valid()
      modifies this`seenTail, this`seen
      ensures Valid() && t == seenTail == tail && seen == |Pending()|
    {
      t := tail;
      seenTail, seen := tail, |Pending()|;
      SeenNow(buff[..], head, tail, ahead, wrapped);
    }

    /** The checks of peek in front of a record. */
    method LookAt(ch: nat, limit: nat) returns (s: Sight)
      requires ch <= limit <= buff.Length
      ensures s == Look(buff[..], ch, limit)
    {
      if limit - ch < HEADER {
        return End;
      }
      var cmd, len := Load(buff[..], ch), Load(buff[..], ch + 4);
      if cmd == IGNORE {
        return End;
      }
      if cmd != PACKAGE {
        return Broken;
      }
      return if limit - ch < HEADER + len then Broken else Found(len);
    }

    /** peek, on the part [start, limit) */
    method PeekPart(start: nat, limit: nat, max: nat) returns (stop: Option<nat>, iov: seq<Iov>)
      requires start <= limit <= buff.Length
      ensures match Peeked(buff[..], start, limit, max)
        case Null => stop == None
        case Peek(s, bodies) => stop == Some(s) && Entries(iov, buff[..], bodies, Places(start, bodies))
    {
      var ch := start;
      ghost var mem := buff[..];
      ghost var done := NoMessages();
      iov := [];
      Begins(mem, start, limit, max, done);
      while true
        invariant Collected(mem, start, limit, max, ch, iov, done) && Rests(mem, start, limit, max, ch, done)
        decreases limit - ch
      {
        var sight := LookAt(ch, limit);
        Ends(mem, start, limit, max, ch, done);
        if sight == End {
          return Some(limit), iov;
        }
        if sight == Broken {
          return None, iov;
        }
        if |iov| >= max {
          return Some(ch), iov;
        }
        var next := ch + HEADER + sight.size;
        ghost var body := mem[ch + HEADER..next];
        GoesOn(mem, start, limit, max, ch, iov, done, next, body);
        iov := iov + [Iov(ch + HEADER, sight.size)];
        ch, done := next, done + [body];
      }
    }

    /** tbus_read_begin, with the tail it looks at. */
    method ReadBegin(t: nat, max: nat) returns (stop: nat, iov: seq<Iov>)
      requires head <= size == buff.Length && t <= size
      ensures var r := ReadOf(buff[..], head, t, max);
        stop == r.stop && Entries(iov, buff[..], r.bodies, r.places)
    {
      if head <= t {
        var curr, found := PeekPart(head, t, max);
        if curr == None {
          return t, [];
        }
        return curr.value, found;
      }
      var curr, found := PeekPart(head, size, max);
      if curr == None {
        return t, [];
      }
      if curr.value == size {
        var curr1, found1 := PeekPart(0, t, max - |found|);
        if curr1 == None {
          return t, [];
        }
        EntriesConcat(found, found1, buff[..],
                      Peeked(buff[..], head, size, max).bodies,
                      Peeked(buff[..], 0, t, max - |found|).bodies,
                      Places(head, Peeked(buff[..], head, size, max).bodies),
                      Places(0, Peeked(buff[..], 0, t, max - |found|).bodies));
        return curr1.value, found + found1;
      }
      return curr.value, found;
    }

    /** tbus_read_end at a place where the k-th pending record may be looked for: those before it are taken. */
    method ReadEnd(at: nat, ghost k: nat)
      requires Valid() && k <= seen && Mark(head, tail, ahead, wrapped, at, k)
      modifies this`head, this`ahead, this`wrapped, this`taken, this`seenTail, this`seen
      ensures Valid() && head == at
      ensures k <= |old(Pending())|
      ensures taken == old(taken) + old(Pending())[..k] && Pending() == old(Pending())[k..]
    {
      LaidAdvances(buff[..], head, tail, ahead, wrapped, at, k);
      Take(k, Left(head, ahead, wrapped, at, k));
      head := at;
      seenTail, seen := at, 0;
      SeenNone(head, tail, ahead, wrapped);
    }

    ghost method Take(k: nat, left: (seq<Bytes>, seq<Bytes>))
      requires k <= |Pending()| && left.0 + left.1 == Pending()[k..] && sent == taken + Pending()
      modifies this`ahead, this`wrapped, this`taken
      ensures ahead == left.0 && wrapped == left.1 && sent == taken + Pending()
      ensures taken == old(taken) + old(Pending())[..k] && Pending() == old(Pending())[k..]
    {
      ghost var pending := Pending();
      assert pending == pending[..k] + pending[k..];
      ConcatAssociates(taken, pending[..k], pending[k..]);
      taken := taken + pending[..k];
      ahead, wrapped := left.0, left.1;
    }
  }
}
