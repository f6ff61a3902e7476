/**
 The Socket Interface Protocol at byte level (tutils/include/sip.h), as laid out by a little-endian
 LP64 compiler: integers are little-endian, and the padding the structs contain (6 bytes before the
 cid list, 4 after every cid) holds whatever was in memory, given here by a function of the offset.

 `Encode` is tconnapi_encode, `DecodeRsp` the decoding at the head of process_input_tbus's loop,
 `EncodeReq` what tconnd writes on its output bus and `DecodeReq` the checks of tconnapi_on_recv.
 */
module Sip {
  import opened Basics

  const CMD_CONNECT: nat := 1
  const CMD_RECV: nat := 2
  const CMD_ACCEPT: nat := 3
  const CMD_SEND: nat := 4
  const CMD_CLOSE: nat := 5

  const RSP_FIXED: nat := 16
  const CID_SIZE: nat := 16
  const REQ_SIZE: nat := 24
  const BROADCAST_NUM: nat := 65535

  datatype Cid = Cid(id: nat, sn: nat)

  type Filler = nat -> Byte

  predicate CidInRange(c: Cid) { c.id <= UINT32_MAX && c.sn <= UINT64_MAX }

  // ----- cutting concatenations apart -----

  lemma TwoParts<T>(a: seq<T>, b: seq<T>)
    ensures (a + b)[..|a|] == a && (a + b)[|a|..] == b
  {
  }

  lemma FourParts<T>(a: seq<T>, b: seq<T>, c: seq<T>, d: seq<T>, s: seq<T>)
    requires s == a + b + c + d
    ensures var i := |a| + |b|;
      |s| == i + |c| + |d| && s[..|a|] == a && s[|a|..i] == b && s[i..] == c + d && s[i + |c|..] == d
  {
  }

  // ----- little-endian integers -----

  function Pow256(width: nat): (p: nat)
    ensures p > 0
  {
    if width == 0 then 1 else 256 * Pow256(width - 1)
  }

  function Le(n: nat, width: nat): (s: Bytes)
    ensures |s| == width
    decreases width
  {
    if width == 0 then [] else [n % 256] + Le(n / 256, width - 1)
  }

  function Un(s: Bytes): nat {
    if s == [] then 0 else s[0] as int + 256 * Un(s[1..])
  }

  lemma {:induction false} UnLe(n: nat, width: nat)
    requires n < Pow256(width)
    ensures Un(Le(n, width)) == n
    decreases width
  {
    if width > 0 {
      UnLe(n / 256, width - 1);
      assert Le(n, width)[1..] == Le(n / 256, width - 1);
    }
  }

  lemma Widths()
    ensures Pow256(2) == 0x1_0000 && Pow256(4) == UINT32_MAX + 1 && Pow256(8) == UINT64_MAX + 1
  {
    assert Pow256(1) == 256 * Pow256(0);
    assert Pow256(2) == 256 * Pow256(1);
    assert Pow256(3) == 256 * Pow256(2);
    assert Pow256(4) == 256 * Pow256(3);
    assert Pow256(5) == 256 * Pow256(4);
    assert Pow256(6) == 256 * Pow256(5);
    assert Pow256(7) == 256 * Pow256(6);
    assert Pow256(8) == 256 * Pow256(7);
  }

  // ----- cids -----

  function Pad(fill: Filler, offset: nat, n: nat): (s: Bytes)
    ensures |s| == n
  {
    seq(n, i requires 0 <= i < n => fill(offset + i))
  }

  function CidBytes(c: Cid, fill: Filler, offset: nat): (s: Bytes)
    ensures |s| == CID_SIZE
  {
    Le(c.sn, 8) + Le(c.id, 4) + Pad(fill, offset, 4)
  }

  function CidAt(s: Bytes): Cid
    requires |s| >= CID_SIZE
  {
    Cid(Un(s[8..12]), Un(s[..8]))
  }

  lemma CidRoundTrip(c: Cid, fill: Filler, offset: nat, rest: Bytes)
    requires CidInRange(c)
    ensures CidAt(CidBytes(c, fill, offset) + rest) == c
  {
    var s := CidBytes(c, fill, offset) + rest;
    assert s[..8] == Le(c.sn, 8) && s[8..12] == Le(c.id, 4);
    Widths();
    UnLe(c.sn, 8);
    UnLe(c.id, 4);
  }

  function CidListBytes(cids: seq<Cid>, fill: Filler, offset: nat): (s: Bytes)
    ensures |s| == CID_SIZE * |cids|
  {
    if cids == [] then []
    else CidBytes(cids[0], fill, offset) + CidListBytes(cids[1..], fill, offset + CID_SIZE)
  }

  function CidListAt(s: Bytes, num: nat): (cids: seq<Cid>)
    requires |s| >= CID_SIZE * num
    ensures |cids| == num
    decreases num
  {
    if num == 0 then [] else [CidAt(s)] + CidListAt(s[CID_SIZE..], num - 1)
  }

  lemma {:induction false} CidListRoundTrip(cids: seq<Cid>, fill: Filler, offset: nat, rest: Bytes)
    requires forall c :: c in cids ==> CidInRange(c)
    ensures CidListAt(CidListBytes(cids, fill, offset) + rest, |cids|) == cids
  {
    if cids != [] {
      var tail := CidListBytes(cids[1..], fill, offset + CID_SIZE);
      var s := CidListBytes(cids, fill, offset) + rest;
      ConcatAssociates(CidBytes(cids[0], fill, offset), tail, rest);
      TwoParts(CidBytes(cids[0], fill, offset), tail + rest);
      CidRoundTrip(cids[0], fill, offset, tail + rest);
      CidListRoundTrip(cids[1..], fill, offset + CID_SIZE, rest);
      assert [cids[0]] + cids[1..] == cids;
    }
  }

  // ----- responses: server to tconnd -----

  datatype Rsp = Malformed | Rsp(cmd: nat, cids: seq<Cid>, body: Bytes)

  /** SIZEOF_SIP_RSP_T for a head with `num` cids. */
  function HeadSize(num: nat): nat { RSP_FIXED + CID_SIZE * num }

  function FixedBytes(cmd: nat, size: nat, num: nat, fill: Filler): (s: Bytes)
    ensures |s| == RSP_FIXED
  {
    Le(cmd, 4) + Le(size, 4) + Le(num, 2) + Pad(fill, 10, 6)
  }

  function HeadBytes(cmd: nat, size: nat, cids: seq<Cid>, fill: Filler): (s: Bytes)
    ensures |s| == HeadSize(|cids|)
  {
    FixedBytes(cmd, size, |cids|, fill) + CidListBytes(cids, fill, RSP_FIXED)
  }

  /** process_input_tbus's reading of one bus message. A message too short to hold even the fixed part
      of the head fails the first length check whatever cid count is read behind its end. */
  function DecodeRsp(msg: Bytes): Rsp {
    if |msg| < RSP_FIXED then Malformed
    else
      var num := Un(msg[8..10]);
      if |msg| < HeadSize(num) then Malformed
      else
        var cmd := Un(msg[..4]);
        var size := Un(msg[4..8]);
        var cids := CidListAt(msg[RSP_FIXED..], num);
        if cmd != CMD_SEND then Rsp(cmd, cids, [])
        else if HeadSize(num) + size > |msg| then Malformed
        else Rsp(cmd, cids, msg[HeadSize(num)..HeadSize(num) + size])
  }

  /** What the caller hands to tconnapi_encode: `data` is None for a NULL body, and otherwise the bytes
      the caller's encoder produces for it. */
  datatype Answer = Answer(cmd: nat, cids: seq<Cid>, data: Option<Bytes>)

  predicate AnswerOk(a: Answer) {
    a.cmd <= UINT32_MAX && |a.cids| <= BROADCAST_NUM && forall c :: c in a.cids ==> CidInRange(c)
  }

  /** The body encoder's contract: it writes what fits and answers 0 when the bytes do not fit. */
  function EncodeBody(data: Bytes, space: nat): Bytes {
    if |data| <= space then data else []
  }

  /** tconnapi_encode into `space` bytes of bus memory; the empty string stands for the error result 0.
      Bus space is a uint32, so the body length always fits the size field. */
  function Encode(a: Answer, space: nat, fill: Filler): (s: Bytes)
    ensures |s| <= space
  {
    var headSize := HeadSize(|a.cids|);
    if space < headSize then []
    else
      match a.data
      case None => HeadBytes(a.cmd, 0, a.cids, fill)
      case Some(data) =>
        var body := EncodeBody(data, space - headSize);
        if body == [] then [] else HeadBytes(a.cmd, |body|, a.cids, fill) + body
  }

  lemma FixedFields(cmd: nat, size: nat, num: nat, fill: Filler, rest: Bytes)
    requires cmd <= UINT32_MAX && size <= UINT32_MAX && num <= BROADCAST_NUM
    ensures var msg := FixedBytes(cmd, size, num, fill) + rest;
      Un(msg[..4]) == cmd && Un(msg[4..8]) == size && Un(msg[8..10]) == num && msg[RSP_FIXED..] == rest
  {
    var fixed := FixedBytes(cmd, size, num, fill);
    FourParts(Le(cmd, 4), Le(size, 4), Le(num, 2), Pad(fill, 10, 6), fixed);
    TwoParts(Le(num, 2), Pad(fill, 10, 6));
    FixedSlices(fixed, rest);
    Widths();
    UnLe(cmd, 4);
    UnLe(size, 4);
    UnLe(num, 2);
  }

  lemma FixedSlices(fixed: Bytes, rest: Bytes)
    requires |fixed| == RSP_FIXED
    ensures (fixed + rest)[..4] == fixed[..4] && (fixed + rest)[4..8] == fixed[4..8]
    ensures (fixed + rest)[8..10] == fixed[8..][..2] && (fixed + rest)[RSP_FIXED..] == rest
  {
  }

  lemma HeadFields(cmd: nat, size: nat, cids: seq<Cid>, fill: Filler, body: Bytes)
    requires cmd <= UINT32_MAX && size <= UINT32_MAX && |cids| <= BROADCAST_NUM
    requires forall c :: c in cids ==> CidInRange(c)
    ensures var msg := HeadBytes(cmd, size, cids, fill) + body;
      Un(msg[..4]) == cmd && Un(msg[4..8]) == size && Un(msg[8..10]) == |cids|
      && CidListAt(msg[RSP_FIXED..], |cids|) == cids && msg[HeadSize(|cids|)..] == body
  {
    var fixed, list := FixedBytes(cmd, size, |cids|, fill), CidListBytes(cids, fill, RSP_FIXED);
    ConcatAssociates(fixed, list, body);
    FixedFields(cmd, size, |cids|, fill, list + body);
    CidListRoundTrip(cids, fill, RSP_FIXED, body);
    TwoParts(HeadBytes(cmd, size, cids, fill), body);
  }

  /** Every non-empty encoding passes both length checks of the receiver and reads back as the same
      command, the same cids and, for a send, the same bytes: non-empty exactly when data was given. */
  lemma RspRoundTrip(a: Answer, space: nat, fill: Filler)
    requires AnswerOk(a) && space <= UINT32_MAX
    requires Encode(a, space, fill) != []
    ensures var rsp := DecodeRsp(Encode(a, space, fill));
      rsp.Rsp? && rsp.cmd == a.cmd && rsp.cids == a.cids
      && (a.cmd == CMD_SEND && a.data.Some? ==> rsp.body == a.data.value && rsp.body != [])
      && (a.cmd != CMD_SEND || a.data.None? ==> rsp.body == [])
  {
    var body := if a.data.None? then [] else EncodeBody(a.data.value, space - HeadSize(|a.cids|));
    EncodeIs(a, space, fill);
    HeadFields(a.cmd, |body|, a.cids, fill, body);
    var msg := HeadBytes(a.cmd, |body|, a.cids, fill) + body;
    assert msg[HeadSize(|a.cids|)..HeadSize(|a.cids|) + |body|] == msg[HeadSize(|a.cids|)..];
  }

  /** The head with the size of the body in it, and the body. */
  lemma EncodeIs(a: Answer, space: nat, fill: Filler)
    requires AnswerOk(a) && space <= UINT32_MAX && Encode(a, space, fill) != []
    ensures space >= HeadSize(|a.cids|)
    ensures var body := if a.data.None? then [] else EncodeBody(a.data.value, space - HeadSize(|a.cids|));
      Encode(a, space, fill) == HeadBytes(a.cmd, |body|, a.cids, fill) + body
  {
    if a.data.None? {
      assert HeadBytes(a.cmd, 0, a.cids, fill) + [] == HeadBytes(a.cmd, 0, a.cids, fill);
    }
  }

  /** When the encoder gives up: the head does not fit, or data was given and its bytes are empty or do
      not fit behind the head. */
  lemma EncodeFailsExactly(a: Answer, space: nat, fill: Filler)
    ensures Encode(a, space, fill) == [] <==>
      || space < HeadSize(|a.cids|)
      || (a.data.Some? && (a.data.value == [] || HeadSize(|a.cids|) + |a.data.value| > space))
  {
  }

  function Overwrite<T>(s: seq<T>, at: nat, with: seq<T>): (r: seq<T>)
    requires at + |with| <= |s|
    ensures |r| == |s|
  {
    s[..at] + with + s[at + |with|..]
  }

  /** memcpy of `bytes` to offset `at` of the buffer. */
  method CopyInto(buf: array<Byte>, at: nat, bytes: Bytes)
    requires at + |bytes| <= buf.Length
    modifies buf
    ensures buf[..] == Overwrite(old(buf[..]), at, bytes)
  {
    forall i | 0 <= i < |bytes| {
      buf[at + i] := bytes[i];
    }
  }

  /** Writing a head, a body behind it, and then the size field inside the head. */
  lemma PatchedHead<T>(s: seq<T>, a: seq<T>, junk: seq<T>, size: seq<T>, c: seq<T>, body: seq<T>)
    requires |junk| == |size|
    requires |a + junk + c| + |body| <= |s|
    ensures var n := |a + junk + c|;
      Overwrite(Overwrite(Overwrite(s, 0, a + junk + c), n, body), |a|, size)[..n + |body|] == a + size + c + body
  {
    var n := |a + junk + c|;
    var s1 := Overwrite(s, 0, a + junk + c);
    assert s1[..n] == a + junk + c;
    var s2 := Overwrite(s1, n, body);
    assert s2[..n + |body|] == a + junk + c + body;
    assert s2[..|a|] == a && s2[|a| + |size|..n + |body|] == c + body;
    var s3 := Overwrite(s2, |a|, size);
    assert s3[..n + |body|] == s2[..|a|] + size + s2[|a| + |size|..n + |body|];
  }

  /** What follows the size field in a head. */
  function HeadRest(cids: seq<Cid>, fill: Filler): Bytes {
    (Le(|cids|, 2) + Pad(fill, 10, 6)) + CidListBytes(cids, fill, RSP_FIXED)
  }

  lemma HeadInThree(cmd: nat, size: nat, cids: seq<Cid>, fill: Filler)
    ensures HeadBytes(cmd, size, cids, fill) == Le(cmd, 4) + Le(size, 4) + HeadRest(cids, fill)
  {
  }

  /** tconnapi_encode writing into bus memory: the caller's head, whose size field holds `junk`, then the
      body, then the size field. */
  method EncodeInto(a: Answer, junk: nat, buf: array<Byte>, fill: Filler) returns (n: nat)
    requires buf.Length <= UINT32_MAX
    modifies buf
    ensures n <= buf.Length && buf[..n] == Encode(a, buf.Length, fill)
  {
    var headSize := HeadSize(|a.cids|);
    if buf.Length < headSize {
      return 0;
    }
    ghost var before := buf[..];
    HeadInThree(a.cmd, junk, a.cids, fill);
    CopyInto(buf, 0, HeadBytes(a.cmd, junk, a.cids, fill));
    var body := [];
    if a.data.Some? {
      body := EncodeBody(a.data.value, buf.Length - headSize);
      if |body| == 0 {
        return 0;
      }
    }
    CopyInto(buf, headSize, body);
    CopyInto(buf, 4, Le(|body|, 4));
    PatchedHead(before, Le(a.cmd, 4), Le(junk, 4), Le(|body|, 4), HeadRest(a.cids, fill), body);
    HeadInThree(a.cmd, |body|, a.cids, fill);
    n := headSize + |body|;
  }

  // ----- requests: tconnd to server -----

  /** A data message with an empty payload is the close marker. */
  datatype Req = Req(cmd: nat, cid: Cid, payload: Bytes)

  function EncodeReq(m: Req, fill: Filler): Bytes {
    Le(m.cmd, 4) + Le(|m.payload|, 4) + CidBytes(m.cid, fill, 20) + m.payload
  }

  /** The checks with which tconnapi_on_recv starts. */
  function DecodeReq(msg: Bytes): Option<Req> {
    if |msg| < REQ_SIZE then None
    else
      var size := Un(msg[4..8]);
      if REQ_SIZE + size > |msg| then None
      else Some(Req(Un(msg[..4]), CidAt(msg[8..]), msg[REQ_SIZE..REQ_SIZE + size]))
  }

  lemma ReqRoundTrip(m: Req, fill: Filler)
    requires m.cmd <= UINT32_MAX && |m.payload| <= UINT32_MAX && CidInRange(m.cid)
    ensures DecodeReq(EncodeReq(m, fill)) == Some(m)
  {
    var msg := EncodeReq(m, fill);
    FourParts(Le(m.cmd, 4), Le(|m.payload|, 4), CidBytes(m.cid, fill, 20), m.payload, msg);
    Widths();
    UnLe(m.cmd, 4);
    UnLe(|m.payload|, 4);
    CidRoundTrip(m.cid, fill, 20, m.payload);
    assert msg[REQ_SIZE..REQ_SIZE + |m.payload|] == m.payload;
  }
}
