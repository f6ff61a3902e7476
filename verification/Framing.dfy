/**
 The length-prefixed framing of the client byte stream: a frame is a 16-bit body length in the
 byte order of the (little-endian) host followed by the body.

 `Split` is the reference reading of a stream; `CutFrom` follows the loop with which tconnd
 finds the end of the last complete frame in what it has received
 (tconnd/source/tconnd_socket.c:377-403).
 */
module Framing {
  import opened Basics

  const HEADER: nat := 2

  /** The body length announced by the first two bytes. */
  function FrameLen(s: Bytes): (n: nat)
    requires |s| >= HEADER
  {
    s[0] as int + 256 * (s[1] as int)
  }

  function Frame(body: Bytes): Bytes
    requires |body| < 0x1_0000
  {
    [|body| % 256, |body| / 256] + body
  }

  ghost predicate Bodies(bodies: seq<Bytes>) {
    forall b :: b in bodies ==> |b| < 0x1_0000
  }

  /** What a client puts on the wire for a list of bodies. */
  function Frames(bodies: seq<Bytes>): Bytes
    requires forall b :: b in bodies ==> |b| < 0x1_0000
  {
    if bodies == [] then [] else Frame(bodies[0]) + Frames(bodies[1..])
  }

  /** A frame still missing at least one byte. */
  predicate Incomplete(s: Bytes) {
    |s| < HEADER || |s| < HEADER + FrameLen(s)
  }

  /** The bodies of the complete frames of a stream, and what is left after them. */
  function Split(s: Bytes): (r: (seq<Bytes>, Bytes))
    ensures Incomplete(r.1)
  {
    if Incomplete(s) then ([], s)
    else
      var n := HEADER + FrameLen(s);
      var rest := Split(s[n..]);
      ([s[HEADER..n]] + rest.0, rest.1)
  }

  function Whole(s: Bytes): bool { Split(s).1 == [] }

  lemma FrameHead(body: Bytes, rest: Bytes)
    requires |body| < 0x1_0000
    ensures var s := Frame(body) + rest;
      |s| >= HEADER + |body| && FrameLen(s) == |body|
      && s[HEADER..HEADER + |body|] == body && s[HEADER + |body|..] == rest
  {
    var s := Frame(body) + rest;
    assert s[0] == |body| % 256 && s[1] == |body| / 256;
    assert s[HEADER..HEADER + |body|] == body;
  }

  lemma SplitFrame(body: Bytes, rest: Bytes)
    requires |body| < 0x1_0000
    ensures Split(Frame(body) + rest) == ([body] + Split(rest).0, Split(rest).1)
  {
    FrameHead(body, rest);
  }

  /** The low byte of the length comes first. */
  lemma LowByteFirst(body: Bytes)
    requires |body| == 258
    ensures Frame(body) == [2, 1] + body && Split([2, 1] + body) == ([body], [])
  {
    SplitFrame(body, []);
    assert Frame(body) + [] == [2, 1] + body;
    assert [body] + Split([]).0 == [body];
  }

  /** Reading back what was framed: the inverse of `Frames`, whatever incomplete tail follows. */
  lemma {:induction false} SplitStream(bodies: seq<Bytes>, tail: Bytes)
    requires Bodies(bodies)
    requires Incomplete(tail)
    ensures Split(Frames(bodies) + tail) == (bodies, tail)
  {
    if bodies == [] {
      assert Frames(bodies) + tail == tail;
    } else {
      var rest := Frames(bodies[1..]) + tail;
      assert Frames(bodies) + tail == Frame(bodies[0]) + rest;
      SplitStream(bodies[1..], tail);
      SplitFrame(bodies[0], rest);
      assert [bodies[0]] + bodies[1..] == bodies;
    }
  }

  lemma FrameOfParts(s: Bytes)
    requires !Incomplete(s)
    ensures |s[HEADER..HEADER + FrameLen(s)]| < 0x1_0000
    ensures Frame(s[HEADER..HEADER + FrameLen(s)]) == s[..HEADER + FrameLen(s)]
  {
    var n := HEADER + FrameLen(s);
    var body := s[HEADER..n];
    assert |body| % 256 == s[0] && |body| / 256 == s[1];
    assert s[..n] == s[..HEADER] + body;
    assert s[..HEADER] == [s[0], s[1]];
  }

  /** Nothing is lost or invented by splitting. */
  lemma {:induction false} SplitLossless(s: Bytes)
    ensures Bodies(Split(s).0)
    ensures Frames(Split(s).0) + Split(s).1 == s
  {
    if Incomplete(s) {
      assert Frames([]) + s == s;
    } else {
      var n := HEADER + FrameLen(s);
      FrameOfParts(s);
      SplitLossless(s[n..]);
      assert Split(s).0[1..] == Split(s[n..]).0;
      assert s == s[..n] + s[n..];
    }
  }

  /** More bytes only extend the reading: complete frames stay, the tail is read on. */
  lemma {:induction false} SplitAppend(s: Bytes, c: Bytes)
    ensures Split(s + c) == (Split(s).0 + Split(Split(s).1 + c).0, Split(Split(s).1 + c).1)
  {
    if Incomplete(s) {
      assert [] + Split(s + c).0 == Split(s + c).0;
    } else {
      var n := HEADER + FrameLen(s);
      var body, rest := s[HEADER..n], s[n..];
      FrameOfParts(s);
      SplitAppend(rest, c);
      assert s == Frame(body) + rest;
      assert s + c == Frame(body) + (rest + c);
      SplitFrame(body, rest);
      SplitFrame(body, rest + c);
      ConcatAssociates([body], Split(rest).0, Split(Split(rest).1 + c).0);
    }
  }

  lemma SplitWholeAppend(s: Bytes, c: Bytes)
    requires Whole(s)
    ensures Split(s + c) == (Split(s).0 + Split(c).0, Split(c).1)
  {
    SplitAppend(s, c);
    assert [] + c == c;
  }

  /** One frame read at offset `iter` of a buffer, after the bodies `read`. */
  lemma SplitAtOffset(buf: Bytes, iter: nat, read: seq<Bytes>)
    requires iter <= |buf| && !Incomplete(buf[iter..])
    ensures var packet := iter + HEADER; var next := packet + FrameLen(buf[iter..]);
      next <= |buf| && read + Split(buf[iter..]).0 == (read + [buf[packet..next]]) + Split(buf[next..]).0
  {
    var s, n := buf[iter..], FrameLen(buf[iter..]);
    assert s[HEADER..HEADER + n] == buf[iter + HEADER..iter + HEADER + n];
    assert s[HEADER + n..] == buf[iter + HEADER + n..];
  }

  // ----- the cut made by tconnd -----

  /** `Oversize`: a header announced more than package_size. Otherwise where the tail begins. */
  datatype Cut = Oversize | CutAt(pos: nat)

  /** The scan of tconnd_socket_recv from offset `iter`, frame start to frame start. */
  function CutFrom(buf: Bytes, iter: nat, packageSize: nat): (r: Cut)
    requires iter <= |buf|
    ensures r.CutAt? ==> iter <= r.pos <= |buf|
    decreases |buf| - iter
  {
    if |buf| - iter < HEADER then CutAt(iter)
    else
      var n := FrameLen(buf[iter..]);
      if n > packageSize then Oversize
      else if iter + HEADER + n > |buf| then CutAt(iter)
      else CutFrom(buf, iter + HEADER + n, packageSize)
  }

  /** Some header in the bytes, whether its frame is complete or not, announces more than `limit`. */
  ghost predicate AnnouncesOver(s: Bytes, limit: nat) {
    || (exists i :: 0 <= i < |Split(s).0| && |Split(s).0[i]| > limit)
    || (|Split(s).1| >= HEADER && FrameLen(Split(s).1) > limit)
  }

  lemma AnnouncesOverStep(s: Bytes, limit: nat)
    requires !Incomplete(s)
    ensures AnnouncesOver(s, limit) <==>
      FrameLen(s) > limit || AnnouncesOver(s[HEADER + FrameLen(s)..], limit)
  {
    var n := HEADER + FrameLen(s);
    var rest := s[n..];
    assert Split(s) == ([s[HEADER..n]] + Split(rest).0, Split(rest).1);
    assert Split(s).0[0] == s[HEADER..n];
    if AnnouncesOver(rest, limit) && exists i :: 0 <= i < |Split(rest).0| && |Split(rest).0[i]| > limit {
      var i :| 0 <= i < |Split(rest).0| && |Split(rest).0[i]| > limit;
      assert Split(s).0[i + 1] == Split(rest).0[i];
    }
  }

  /** Cutting the stream off behind its first frame does not change that frame. */
  lemma SplitUpTo(buf: Bytes, iter: nat, pos: nat)
    requires iter <= pos <= |buf| && !Incomplete(buf[iter..]) && iter + HEADER + FrameLen(buf[iter..]) <= pos
    ensures var n := HEADER + FrameLen(buf[iter..]);
      Split(buf[iter..pos]) ==
        ([buf[iter..][HEADER..n]] + Split(buf[iter + n..pos]).0, Split(buf[iter + n..pos]).1)
  {
    var s, done, n := buf[iter..], buf[iter..pos], HEADER + FrameLen(buf[iter..]);
    assert done == s[..pos - iter];
    assert FrameLen(done) == FrameLen(s);
    assert done[n..] == buf[iter + n..pos];
    assert done[HEADER..n] == s[HEADER..n];
  }

  lemma {:induction false} CutRefusesOver(buf: Bytes, iter: nat, packageSize: nat)
    requires iter <= |buf|
    ensures CutFrom(buf, iter, packageSize).Oversize? <==> AnnouncesOver(buf[iter..], packageSize)
    decreases |buf| - iter
  {
    var s := buf[iter..];
    if !Incomplete(s) {
      var n := HEADER + FrameLen(s);
      AnnouncesOverStep(s, packageSize);
      assert s[n..] == buf[iter + n..];
      if FrameLen(s) <= packageSize {
        CutRefusesOver(buf, iter + n, packageSize);
      }
    }
  }

  lemma {:induction false} CutIsSplit(buf: Bytes, iter: nat, packageSize: nat)
    requires iter <= |buf| && CutFrom(buf, iter, packageSize).CutAt?
    ensures var pos := CutFrom(buf, iter, packageSize).pos;
      buf[pos..] == Split(buf[iter..]).1 && Split(buf[iter..pos]) == (Split(buf[iter..]).0, [])
    decreases |buf| - iter
  {
    var s := buf[iter..];
    if Incomplete(s) {
      assert buf[iter..iter] == [];
    } else {
      var n := HEADER + FrameLen(s);
      CutIsSplit(buf, iter + n, packageSize);
      assert s[n..] == buf[iter + n..];
      SplitUpTo(buf, iter, CutFrom(buf, iter, packageSize).pos);
    }
  }

  /** The loop's cut agrees with the reference reading: it refuses exactly the oversized headers,
      and otherwise separates the complete frames from the incomplete tail. */
  lemma CutMeetsSplit(buf: Bytes, iter: nat, packageSize: nat)
    requires iter <= |buf|
    ensures CutFrom(buf, iter, packageSize).Oversize? <==> AnnouncesOver(buf[iter..], packageSize)
    ensures CutFrom(buf, iter, packageSize).CutAt? ==>
      var pos := CutFrom(buf, iter, packageSize).pos;
      buf[pos..] == Split(buf[iter..]).1 && Split(buf[iter..pos]) == (Split(buf[iter..]).0, [])
  {
    CutRefusesOver(buf, iter, packageSize);
    if CutFrom(buf, iter, packageSize).CutAt? {
      CutIsSplit(buf, iter, packageSize);
    }
  }

  /** The cut as used by the receiver: whole frames before it, an incomplete one after it. */
  lemma CutSeparates(buf: Bytes, packageSize: nat)
    requires CutFrom(buf, 0, packageSize).CutAt?
    ensures var pos := CutFrom(buf, 0, packageSize).pos;
      Whole(buf[..pos]) && Incomplete(buf[pos..]) && buf[..pos] + buf[pos..] == buf
  {
    var pos := CutFrom(buf, 0, packageSize).pos;
    CutMeetsSplit(buf, 0, packageSize);
    assert buf[0..] == buf && buf[0..pos] == buf[..pos];
  }

  /** tconnd refuses what it holds: an oversized header, or a tail longer than package_size. */
  predicate Refused(buf: Bytes, packageSize: nat) {
    var cut := CutFrom(buf, 0, packageSize);
    cut.Oversize? || |buf| - cut.pos > packageSize
  }

  /** The exact bound on what the framer accepts. A tail that is too long is exactly one byte short of
      a frame whose body has package_size bytes (or a lone byte when package_size is 0). */
  lemma RefusedExactly(buf: Bytes, packageSize: nat)
    ensures Refused(buf, packageSize) <==>
      AnnouncesOver(buf, packageSize) || |Split(buf).1| == packageSize + 1
    ensures !AnnouncesOver(buf, packageSize) && |Split(buf).1| == packageSize + 1 && packageSize > 0 ==>
      FrameLen(Split(buf).1) == packageSize && |Split(buf).1| == HEADER + packageSize - 1
  {
    CutMeetsSplit(buf, 0, packageSize);
    assert buf[0..] == buf;
    var tail := Split(buf).1;
    if |tail| >= HEADER {
      assert |tail| < HEADER + FrameLen(tail);
    }
  }

  /** Every header of the stream announces fewer than package_size bytes. */
  ghost predicate Acceptable(s: Bytes, packageSize: nat) {
    packageSize > 0 && !AnnouncesOver(s, packageSize - 1)
  }

  lemma {:induction false} HeldAnnouncesLess(s: Bytes, c: Bytes, limit: nat)
    requires AnnouncesOver(Split(s).1 + c, limit)
    ensures AnnouncesOver(s + c, limit)
  {
    SplitAppend(s, c);
    var held := Split(Split(s).1 + c);
    var whole := Split(s + c);
    if i :| 0 <= i < |held.0| && |held.0[i]| > limit {
      assert whole.0[|Split(s).0| + i] == held.0[i];
    }
  }

  lemma {:induction false} PrefixAnnouncesLess(s: Bytes, c: Bytes, limit: nat)
    requires AnnouncesOver(s, limit)
    ensures AnnouncesOver(s + c, limit)
    decreases |s|
  {
    if Incomplete(s) {
      assert FrameLen(s + c) == FrameLen(s);
      if !Incomplete(s + c) {
        AnnouncesOverStep(s + c, limit);
      }
    } else {
      var n := HEADER + FrameLen(s);
      assert FrameLen(s + c) == FrameLen(s);
      assert (s + c)[n..] == s[n..] + c;
      AnnouncesOverStep(s, limit);
      AnnouncesOverStep(s + c, limit);
      if AnnouncesOver(s[n..], limit) {
        PrefixAnnouncesLess(s[n..], c, limit);
      }
    }
  }

  /** Streams whose bodies stay below package_size are never refused, wherever they are cut: neither
      the bytes up to `s` nor what is still held of them together with the next chunk `c`. */
  lemma AcceptableNeverRefused(s: Bytes, c: Bytes, packageSize: nat)
    requires Acceptable(s + c, packageSize)
    ensures !Refused(Split(s).1 + c, packageSize)
    ensures Acceptable(s, packageSize)
  {
    var held := Split(s).1 + c;
    if AnnouncesOver(s, packageSize - 1) {
      PrefixAnnouncesLess(s, c, packageSize - 1);
    }
    if AnnouncesOver(held, packageSize - 1) {
      HeldAnnouncesLess(s, c, packageSize - 1);
    }
    RefusedExactly(held, packageSize);
  }

  /** A body of exactly package_size bytes is accepted or refused depending on where TCP cuts it. */
  lemma BodyOfPackageSizeDependsOnTheCut()
    ensures var frame: Bytes := Frame([7, 7, 7]);
      !Refused(frame, 3) && Refused(frame[..4], 3) && !Refused(frame[..3], 3)
  {
    var frame: Bytes := Frame([7, 7, 7]);
    assert frame == [3, 0, 7, 7, 7];
    assert CutFrom(frame, 5, 3) == CutAt(5);
    assert CutFrom(frame, 0, 3) == CutFrom(frame, 5, 3);
    assert frame[..4] == [3, 0, 7, 7] && frame[..3] == [3, 0, 7];
  }

  /** tconnd_socket_recv's scan: `iter` runs over the frame starts, `remain` is the last one seen. */
  method ScanFrames(buf: Bytes, packageSize: nat) returns (refused: bool, remain: nat)
    ensures refused <==> CutFrom(buf, 0, packageSize).Oversize?
    ensures !refused ==> CutFrom(buf, 0, packageSize) == CutAt(remain)
    ensures remain <= |buf|
  {
    var iter := 0;
    remain, refused := 0, false;
    while iter <= |buf|
      invariant 0 <= remain <= |buf| && remain <= iter
      invariant iter <= |buf| ==> CutFrom(buf, iter, packageSize) == CutFrom(buf, 0, packageSize)
      invariant iter > |buf| ==> CutFrom(buf, 0, packageSize) == CutAt(remain)
      decreases |buf| + 1 - iter
    {
      remain := iter;
      if |buf| - iter < HEADER {
        break;
      }
      var size := FrameLen(buf[iter..]);
      if size > packageSize {
        refused := true;
        return;
      }
      iter := iter + HEADER + size;
    }
  }
}
