/**
 The messages of the Socket Interface Protocol byte by byte: where each field lies, lowest byte first, and exactly which
 messages either side takes for malformed.
 */
module SipLayout {
  import opened Basics
  import opened Sip

  /** The 32-bit integer at an offset. */
  function Word(msg: Bytes, at: nat): nat
    requires at + 4 <= |msg|
  {
    msg[at] as int + 0x100 * msg[at + 1] as int + 0x1_0000 * msg[at + 2] as int + 0x100_0000 * msg[at + 3] as int
  }

  /** The handle at an offset: serial number, slot, padding. */
  function HandleAt(msg: Bytes, at: nat): Cid
    requires at + 16 <= |msg|
  {
    Cid(Word(msg, at + 8), Word(msg, at) + 0x1_0000_0000 * Word(msg, at + 4))
  }

  /** How many handles a response announces. */
  function Count(msg: Bytes): nat
    requires 16 <= |msg|
  {
    msg[8] as int + 0x100 * msg[9] as int
  }

  lemma UnOne(b: Byte)
    ensures Un([b]) == b as int
  {
    assert [b][1..] == [];
  }

  lemma UnTwo(s: Bytes)
    requires |s| == 2
    ensures Un(s) == s[0] as int + 0x100 * s[1] as int
  {
    assert s[1..] == [s[1]];
    UnOne(s[1]);
  }

  lemma UnFour(s: Bytes)
    requires |s| == 4
    ensures Un(s) == s[0] as int + 0x100 * s[1] as int + 0x1_0000 * s[2] as int + 0x100_0000 * s[3] as int
  {
    assert s[1..][1..] == [s[2], s[3]] && s[1..][0] == s[1];
    UnTwo([s[2], s[3]]);
  }

  lemma UnWord(msg: Bytes, at: nat)
    requires at + 4 <= |msg|
    ensures Un(msg[at..at + 4]) == Word(msg, at)
  {
    UnFour(msg[at..at + 4]);
  }

  lemma {:induction false} UnAppend(a: Bytes, b: Bytes)
    ensures Un(a + b) == Un(a) + Pow256(|a|) * Un(b)
  {
    if a == [] {
      assert a + b == b;
    } else {
      assert (a + b)[1..] == a[1..] + b;
      UnAppend(a[1..], b);
      Carry(a[0] as int, Un(a[1..]), Pow256(|a| - 1), Un(b));
    }
  }

  lemma Carry(d: nat, low: nat, p: nat, high: nat)
    ensures d + 256 * (low + p * high) == d + 256 * low + (256 * p) * high
  {
  }

  lemma CidIsHandle(msg: Bytes, at: nat)
    requires at + 16 <= |msg|
    ensures CidAt(msg[at..]) == HandleAt(msg, at)
  {
    var s := msg[at..];
    assert s[8..12] == msg[at + 8..at + 12] && s[..8] == msg[at..at + 4] + msg[at + 4..at + 8];
    UnWord(msg, at + 8);
    UnWord(msg, at);
    UnWord(msg, at + 4);
    UnAppend(msg[at..at + 4], msg[at + 4..at + 8]);
    Widths();
  }

  lemma {:induction false} ListIsHandles(msg: Bytes, at: nat, num: nat, i: nat)
    requires at + 16 * num <= |msg| && i < num
    ensures CidListAt(msg[at..], num)[i] == HandleAt(msg, at + 16 * i)
    decreases num
  {
    CidIsHandle(msg, at);
    assert msg[at..][16..] == msg[at + 16..];
    if i > 0 {
      ListIsHandles(msg, at + 16, num - 1, i - 1);
    }
  }

  /** process_input_tbus refuses exactly the messages that are shorter than the head they announce, and the sends that are
      shorter than head and body. */
  lemma RspMalformedExactly(msg: Bytes)
    ensures DecodeRsp(msg).Malformed? <==>
      || |msg| < 16
      || |msg| < 16 + 16 * Count(msg)
      || (Word(msg, 0) == 4 && |msg| < 16 + 16 * Count(msg) + Word(msg, 4))
  {
    if |msg| >= 16 {
      RspWords(msg);
    }
  }

  lemma RspWords(msg: Bytes)
    requires |msg| >= 16
    ensures Un(msg[..4]) == Word(msg, 0) && Un(msg[4..8]) == Word(msg, 4) && Un(msg[8..10]) == Count(msg)
  {
    assert msg[..4] == msg[0..4];
    UnWord(msg, 0);
    UnWord(msg, 4);
    UnTwo(msg[8..10]);
  }

  /** What it reads from the others. */
  lemma RspFields(msg: Bytes)
    requires DecodeRsp(msg).Rsp?
    ensures |msg| >= 16 + 16 * Count(msg)
    ensures var r := DecodeRsp(msg);
      && r.cmd == Word(msg, 0) && |r.cids| == Count(msg)
      && (forall i :: 0 <= i < |r.cids| ==> r.cids[i] == HandleAt(msg, 16 + 16 * i))
      && (r.cmd != 4 ==> r.body == [])
      && (r.cmd == 4 ==>
            && |msg| >= 16 + 16 * Count(msg) + Word(msg, 4)
            && r.body == msg[16 + 16 * Count(msg)..16 + 16 * Count(msg) + Word(msg, 4)])
  {
    RspWords(msg);
    forall i | 0 <= i < Count(msg) ensures CidListAt(msg[16..], Count(msg))[i] == HandleAt(msg, 16 + 16 * i) {
      ListIsHandles(msg, 16, Count(msg), i);
    }
  }

  /** tconnapi_on_recv refuses exactly the messages that are shorter than head and payload, and reads these fields from
      the others. */
  lemma ReqFields(msg: Bytes)
    ensures DecodeReq(msg) == None <==> |msg| < 24 || |msg| < 24 + Word(msg, 4)
    ensures DecodeReq(msg).Some? ==>
      && |msg| >= 24 + Word(msg, 4)
      && DecodeReq(msg).value == Req(Word(msg, 0), HandleAt(msg, 8), msg[24..24 + Word(msg, 4)])
  {
    if |msg| >= 24 {
      assert msg[..4] == msg[0..4];
      UnWord(msg, 0);
      UnWord(msg, 4);
      CidIsHandle(msg, 8);
    }
  }
}
