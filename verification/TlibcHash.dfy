/**
 tlibc_hash (tutils/source/tlibc_hash.c) on real list nodes: buckets with a list of elements each, and the
 index of used buckets. The class is proved to implement the multimap of TlibcHashSpec, with the index exact
 in every state.
 */
module TlibcHash {
  import opened Basics
  import opened TlibcList
  import opened TlibcHashSpec

  // The list nodes of the three structs, told apart.
  const ELEMENT: nat := 0
  const USED_NODE: nat := 1
  const DATA_HEAD: nat := 2
  const USED_HEAD: nat := 3

  /** tlibc_hash_head_t. Its address is the index of its node. */
  class Head {
    const link: Link
    var key: Bytes
    var keyIndex: nat

    constructor (address: nat)
      ensures link.owner == address && link.member == ELEMENT && fresh(link)
    {
      link := new Link(address, ELEMENT);
      key, keyIndex := [], 0;
    }

    method Label(key: Bytes, index: nat)
      modifies this
      ensures this.key == key && keyIndex == index
    {
      this.key := key;
      keyIndex := index;
    }
  }

  /** tlibc_hash_bucket_t */
  class HashBucket {
    const data: Chain
    const node: Link
    var num: nat

    constructor (index: nat)
      ensures node.owner == index && node.member == USED_NODE && fresh(node)
      ensures data.head.owner == index && data.head.member == DATA_HEAD && fresh(data) && fresh(data.foot)
      ensures data.Valid() && data.links == [] && num == 0
    {
      data := new Chain(index, DATA_HEAD);
      node := new Link(index, USED_NODE);
      num := 0;
    }
  }

  /** key_hash*=31 and key_hash+=byte are two 32-bit operations. */
  method HashKey(key: Bytes) returns (h: nat)
    ensures h == Hash(key)
  {
    h := 0;
    var i := 0;
    while i < |key|
      invariant i <= |key| && h < WORD
      invariant HashFrom(h, key[i..]) == Hash(key)
    {
      WrapOnce(h * 31, key[i]);
      assert key[i..][1..] == key[i + 1..];
      h := (h * 31) % WORD;
      h := (h + key[i] as int) % WORD;
      i := i + 1;
    }
  }

  lemma WrapOnce(a: nat, c: nat)
    ensures (a % WORD + c) % WORD == (a + c) % WORD
  {
    var q := a / WORD;
    assert a + c == (a % WORD + c) + q * WORD;
    WrapMore(a % WORD + c, q);
  }

  lemma {:induction false} WrapMore(x: nat, q: nat)
    ensures (x + q * WORD) % WORD == x % WORD
    decreases q
  {
    if q > 0 {
      WrapMore(x, q - 1);
      assert x + q * WORD == (x + (q - 1) * WORD) + WORD;
    }
  }

  class Table {
    const buckets: seq<HashBucket>
    const used: Chain
    var usedNum: nat
    /** The records that can be elements, by address. */
    const heads: seq<Head>
    /** The live entries in the order of insertion. */
    ghost var entries: seq<Entry>
    /** What each bucket holds. */
    ghost var shares: seq<seq<Entry>>
    /** Everything the table is made of. */
    ghost const repr: set<object>

    ghost predicate Layout() {
      && this !in repr
      && (forall a :: 0 <= a < |heads| ==>
            && heads[a] in repr && heads[a].link in repr
            && heads[a].link.owner == a && heads[a].link.member == ELEMENT)
      && (forall b :: 0 <= b < |buckets| ==>
            && buckets[b] in repr && buckets[b].node in repr
            && buckets[b].node.owner == b && buckets[b].node.member == USED_NODE)
      && (forall b :: 0 <= b < |buckets| ==>
            && buckets[b].data in repr && buckets[b].data.head in repr
            && buckets[b].data.head.owner == b && buckets[b].data.head.member == DATA_HEAD)
      && used in repr && used.head in repr && used.head.member == USED_HEAD
    }

    /** The list of bucket b consists of the nodes of the entries `es`, in this order. */
    ghost predicate ListOk(b: nat, es: seq<Entry>)
      requires b < |buckets|
      reads buckets[b].data, buckets[b].data.foot
    {
      var data := buckets[b].data;
      && data.Valid() && |data.links| == |es|
      && forall i :: 0 <= i < |es| ==> es[i].id < |heads| && data.links[i] == heads[es[i].id].link
    }

    ghost predicate ListsOk(sh: seq<seq<Entry>>)
      reads repr
    {
      && Layout() && |sh| == |buckets| && (forall b :: 0 <= b < |buckets| ==> buckets[b].data.foot <= repr)
      && forall b :: 0 <= b < |buckets| ==> ListOk(b, sh[b])
    }

    /** Every element's record carries its key and its bucket. */
    ghost predicate KeysOk(sh: seq<seq<Entry>>)
      reads heads
    {
      forall b, i :: 0 <= b < |sh| && 0 <= i < |sh[b]| ==>
        sh[b][i].id < |heads| && heads[sh[b][i].id].key == sh[b][i].key && heads[sh[b][i].id].keyIndex == b
    }

    ghost predicate CountsOk(sh: seq<seq<Entry>>)
      reads buckets
    {
      |sh| == |buckets| && forall b :: 0 <= b < |buckets| ==> buckets[b].num == |sh[b]|
    }

    /** The index consists of the nodes of the buckets in `busy`. A list has no node twice. */
    ghost predicate IndexIs(busy: set<nat>)
      reads this`usedNum, used, used.foot
    {
      && used.Valid() && usedNum == |used.links|
      && (forall n :: n in used.links ==> n.owner < |buckets| && n.owner in busy && n == buckets[n.owner].node)
      && (forall b :: b in busy ==> b < |buckets| && buckets[b].node in used.links)
    }

    /** The buckets that are not empty. */
    ghost function Busy(sh: seq<seq<Entry>>): set<nat> {
      set b | 0 <= b < |sh| && sh[b] != []
    }

    /** Lists, records, counters and index agree on what each bucket holds. The index lists each non-empty
        bucket, once, and no empty one. */
    ghost predicate HoldsShares(sh: seq<seq<Entry>>)
      reads this`usedNum, repr
    {
      && ListsOk(sh) && KeysOk(sh) && CountsOk(sh)
      && used.foot <= repr && IndexIs(Busy(sh))
    }

    ghost predicate Valid()
      reads this, repr
    {
      HoldsShares(shares) && Shared(entries, shares)
    }

    static method NewBuckets(size: nat) returns (bs: seq<HashBucket>)
      ensures |bs| == size
      ensures forall b :: 0 <= b < size ==>
        && fresh(bs[b]) && fresh(bs[b].data) && fresh(bs[b].data.foot) && fresh(bs[b].node)
        && bs[b].node.owner == b && bs[b].node.member == USED_NODE
        && bs[b].data.head.owner == b && bs[b].data.head.member == DATA_HEAD
        && bs[b].data.Valid() && bs[b].data.links == [] && bs[b].num == 0
    {
      bs := [];
      while |bs| < size
        invariant |bs| <= size
        invariant forall b :: 0 <= b < |bs| ==>
          && fresh(bs[b]) && fresh(bs[b].data) && fresh(bs[b].data.foot) && fresh(bs[b].node)
          && bs[b].node.owner == b && bs[b].node.member == USED_NODE
          && bs[b].data.head.owner == b && bs[b].data.head.member == DATA_HEAD
          && bs[b].data.Valid() && bs[b].data.links == [] && bs[b].num == 0
      {
        var bucket := new HashBucket(|bs|);
        bs := bs + [bucket];
      }
    }

    ghost static function Pieces(bs: seq<HashBucket>, heads: seq<Head>, index: Chain): (r: set<object>)
      ensures forall t: Table :: t !in r
      ensures forall b :: 0 <= b < |bs| ==> bs[b] in r && bs[b].data in r && bs[b].node in r && bs[b].data.head in r
      ensures forall a :: 0 <= a < |heads| ==> heads[a] in r && heads[a].link in r
      ensures index in r && index.head in r
    {
      {index, index.head}
      + (set b | 0 <= b < |bs| :: bs[b]) + (set b | 0 <= b < |bs| :: bs[b].data)
      + (set b | 0 <= b < |bs| :: bs[b].node) + (set b | 0 <= b < |bs| :: bs[b].data.head)
      + (set a | 0 <= a < |heads| :: heads[a]) + (set a | 0 <= a < |heads| :: heads[a].link)
    }

    /** tlibc_hash_init */
    constructor (size: nat, heads: seq<Head>)
      requires forall a :: 0 <= a < |heads| ==> heads[a].link.owner == a && heads[a].link.member == ELEMENT
      ensures Valid() && entries == [] && |buckets| == size && this.heads == heads
    {
      var bs := NewBuckets(size);
      buckets := bs;
      this.heads := heads;
      var index := new Chain(0, USED_HEAD);
      used := index;
      usedNum := 0;
      entries := [];
      shares := seq(size, _ => []);
      repr := Pieces(bs, heads, index);
      new;
      EmptyHolds(shares);
      assert forall b :: 0 <= b < size ==> Bucket([], b, size) == [];
    }

    lemma EmptyHolds(sh: seq<seq<Entry>>)
      requires Layout() && |sh| == |buckets| && usedNum == 0 && used.Valid() && used.links == []
      requires forall b :: 0 <= b < |buckets| ==>
        sh[b] == [] && buckets[b].num == 0 && buckets[b].data.Valid() && buckets[b].data.links == []
      ensures HoldsShares(sh)
    {
    }

    // ----- who shares nodes with whom -----

    /** The bucket a node belongs to can be read off the node's record. */
    lemma LinksTellBucket(sh: seq<seq<Entry>>, b: nat)
      requires ListsOk(sh) && KeysOk(sh) && b < |buckets|
      ensures forall n :: n in buckets[b].data.foot ==>
        (n.member == DATA_HEAD && n.owner == b)
        || (n.member == ELEMENT && n.owner < |heads| && heads[n.owner].keyIndex == b)
    {
      assert ListOk(b, sh[b]);
    }

    lemma ListsApart(sh: seq<seq<Entry>>, b: nat, c: nat)
      requires ListsOk(sh) && KeysOk(sh) && b < |buckets| && c < |buckets| && b != c
      ensures buckets[b].data != buckets[c].data && buckets[b].data.foot !! buckets[c].data.foot
    {
      LinksTellBucket(sh, b);
      LinksTellBucket(sh, c);
    }

    ghost predicate Absent(sh: seq<seq<Entry>>, id: nat) {
      forall b, i :: 0 <= b < |sh| && 0 <= i < |sh[b]| ==> sh[b][i].id != id
    }

    /** A record that is not an element is on no bucket's list. */
    lemma NotLinked(sh: seq<seq<Entry>>, b: nat, id: nat)
      requires ListsOk(sh) && b < |buckets| && id < |heads| && Absent(sh, id)
      ensures heads[id].link !in buckets[b].data.foot
    {
      assert ListOk(b, sh[b]);
      forall i | 0 <= i < |sh[b]| ensures buckets[b].data.links[i] != heads[id].link {
      }
    }

    /** No other bucket's list touches bucket b's list. */
    ghost predicate Aside(b: nat)
      requires b < |buckets|
      reads set c | c in buckets :: c.data
    {
      forall c :: 0 <= c < |buckets| && c != b ==>
        buckets[c].data != buckets[b].data && buckets[c].data.foot !! buckets[b].data.foot
    }

    lemma IsAside(sh: seq<seq<Entry>>, b: nat)
      requires ListsOk(sh) && KeysOk(sh) && b < |buckets|
      ensures Aside(b)
    {
      forall c | 0 <= c < |buckets| && c != b
        ensures buckets[c].data != buckets[b].data && buckets[c].data.foot !! buckets[b].data.foot
      {
        ListsApart(sh, b, c);
      }
    }

    ghost predicate Free(id: nat)
      requires id < |heads|
      reads set c | c in buckets :: c.data
    {
      forall c :: 0 <= c < |buckets| ==> heads[id].link !in buckets[c].data.foot
    }

    lemma IsFree(sh: seq<seq<Entry>>, id: nat)
      requires ListsOk(sh) && id < |heads| && Absent(sh, id)
      ensures Free(id)
    {
      forall c | 0 <= c < |buckets| ensures heads[id].link !in buckets[c].data.foot {
        NotLinked(sh, c, id);
      }
    }

    /** The index shares no node with the buckets' lists. */
    ghost predicate IndexAside()
      reads used, set c | c in buckets :: c.data
    {
      && (forall c :: 0 <= c < |buckets| ==> buckets[c].data != used && buckets[c].data.foot !! used.foot)
      && (forall b, c :: 0 <= b < |buckets| && 0 <= c < |buckets| ==> buckets[b].node !in buckets[c].data.foot)
      && (forall a :: 0 <= a < |heads| ==> heads[a].link !in used.foot)
    }

    lemma IndexIsAside(sh: seq<seq<Entry>>, busy: set<nat>)
      requires ListsOk(sh) && KeysOk(sh) && IndexIs(busy)
      ensures IndexAside()
    {
      forall n | n in used.foot ensures n.member == USED_NODE || n.member == USED_HEAD {
      }
      forall c | 0 <= c < |buckets|
        ensures forall n :: n in buckets[c].data.foot ==> n.member == DATA_HEAD || n.member == ELEMENT
      {
        LinksTellBucket(sh, c);
      }
    }

    // ----- the single writes -----

    /** The element joins the end of its bucket's list. */
    method LinkIn(e: Entry, b: nat, ghost sh: seq<seq<Entry>>)
      requires ListsOk(sh) && e.id < |heads| && b < |buckets| && Aside(b) && Free(e.id)
      modifies heads[e.id].link, buckets[b].data, buckets[b].data.foot
      ensures ListsOk(sh[b := sh[b] + [e]])
    {
      assert ListOk(b, sh[b]);
      buckets[b].data.Enlist(heads[e.id].link);
      forall c | 0 <= c < |buckets| && c != b ensures ListOk(c, sh[c]) {
        assert old(ListOk(c, sh[c]));
      }
    }

    lemma CutLinks(es: seq<Entry>, links: seq<Link>, i: nat)
      requires |es| == |links| && i < |es|
      requires forall k :: 0 <= k < |es| ==> es[k].id < |heads| && links[k] == heads[es[k].id].link
      ensures forall k :: 0 <= k < |CutOut(es, i)| ==>
        CutOut(es, i)[k].id < |heads| && CutOut(links, i)[k] == heads[CutOut(es, i)[k].id].link
    {
      forall k | 0 <= k < |es| - 1
        ensures CutOut(es, i)[k] == es[if k < i then k else k + 1] && CutOut(links, i)[k] == links[if k < i then k else k + 1]
      {
      }
    }

    /** The element leaves its bucket's list. */
    method LinkOut(b: nat, ghost i: nat, id: nat, ghost sh: seq<seq<Entry>>)
      requires ListsOk(sh) && b < |buckets| && i < |sh[b]| && sh[b][i].id == id < |heads| && Aside(b)
      modifies buckets[b].data, buckets[b].data.foot
      ensures ListsOk(sh[b := CutOut(sh[b], i)])
    {
      assert ListOk(b, sh[b]);
      CutLinks(sh[b], buckets[b].data.links, i);
      buckets[b].data.Delete(heads[id].link, i);
      assert ListOk(b, CutOut(sh[b], i));
      forall c | 0 <= c < |buckets| && c != b ensures ListOk(c, sh[c]) {
        assert old(ListOk(c, sh[c]));
      }
    }

    method EnterIndex(b: nat, ghost busy: set<nat>)
      requires Layout() && b < |buckets| && b !in busy && IndexIs(busy)
      modifies this`usedNum, used, used.foot, buckets[b].node
      ensures IndexIs(busy + {b}) && used.foot == old(used.foot) + {buckets[b].node}
    {
      assert buckets[b].node !in used.foot;
      used.Append(buckets[b].node);
      usedNum := usedNum + 1;
    }

    method LeaveIndex(b: nat, ghost busy: set<nat>)
      requires Layout() && b in busy && IndexIs(busy)
      modifies this`usedNum, used, used.foot
      ensures IndexIs(busy - {b}) && used.foot <= old(used.foot)
    {
      ghost var k :| 0 <= k < |used.links| && used.links[k] == buckets[b].node;
      used.Delete(buckets[b].node, k);
      usedNum := usedNum - 1;
    }

    /** One element more in bucket b, which enters the index when it was empty. */
    method CountUp(b: nat, ghost sh: seq<seq<Entry>>, ghost es: seq<Entry>)
      requires b < |buckets| && CountsOk(sh) && IndexIs(Busy(sh)) && Layout() && |es| == |sh[b]| + 1
      modifies this`usedNum, buckets[b], used, used.foot, buckets[b].node
      ensures CountsOk(sh[b := es]) && IndexIs(Busy(sh[b := es]))
      ensures used.foot <= old(used.foot) + {buckets[b].node}
    {
      assert Busy(sh[b := es]) == Busy(sh) + {b};
      if buckets[b].num == 0 {
        EnterIndex(b, Busy(sh));
      }
      buckets[b].num := buckets[b].num + 1;
    }

    /** One element less in bucket b, which leaves the index when it was the last. */
    method CountDown(b: nat, ghost sh: seq<seq<Entry>>, ghost es: seq<Entry>)
      requires b < |buckets| && CountsOk(sh) && IndexIs(Busy(sh)) && Layout() && |es| == |sh[b]| - 1
      modifies this`usedNum, buckets[b], used, used.foot
      ensures CountsOk(sh[b := es]) && IndexIs(Busy(sh[b := es]))
      ensures used.foot <= old(used.foot)
    {
      assert Busy(sh[b := es]) == if es == [] then Busy(sh) - {b} else Busy(sh);
      buckets[b].num := buckets[b].num - 1;
      if buckets[b].num == 0 {
        LeaveIndex(b, Busy(sh));
      }
    }

    /** Lists and records do not depend on counters and index. */
    method CountUpAside(b: nat, ghost sh: seq<seq<Entry>>, ghost es: seq<Entry>)
      requires b < |buckets| && CountsOk(sh) && IndexIs(Busy(sh)) && |es| == |sh[b]| + 1
      requires ListsOk(sh[b := es]) && KeysOk(sh[b := es]) && used.foot <= repr
      modifies this`usedNum, buckets[b], used, used.foot, buckets[b].node
      ensures HoldsShares(sh[b := es])
    {
      ghost var sh' := sh[b := es];
      IndexIsAside(sh', Busy(sh));
      CountUp(b, sh, es);
      forall c | 0 <= c < |buckets| ensures ListOk(c, sh'[c]) {
        assert old(ListOk(c, sh'[c]));
      }
      assert ListsOk(sh');
    }

    method CountDownAside(b: nat, ghost sh: seq<seq<Entry>>, ghost es: seq<Entry>)
      requires b < |buckets| && CountsOk(sh) && IndexIs(Busy(sh)) && |es| == |sh[b]| - 1
      requires ListsOk(sh[b := es]) && KeysOk(sh[b := es]) && used.foot <= repr
      modifies this`usedNum, buckets[b], used, used.foot
      ensures HoldsShares(sh[b := es])
    {
      ghost var sh' := sh[b := es];
      IndexIsAside(sh', Busy(sh));
      CountDown(b, sh, es);
      forall c | 0 <= c < |buckets| ensures ListOk(c, sh'[c]) {
        assert old(ListOk(c, sh'[c]));
      }
    }

    // ----- the operations -----

    /** Giving a free record its key and bucket changes no list. */
    method LabelFree(e: Entry, b: nat, ghost sh: seq<seq<Entry>>)
      requires ListsOk(sh) && KeysOk(sh) && e.id < |heads| && b < |buckets| && Absent(sh, e.id)
      modifies heads[e.id]
      ensures ListsOk(sh) && KeysOk(sh[b := sh[b] + [e]])
    {
      heads[e.id].Label(e.key, b);
      forall c | 0 <= c < |buckets| ensures ListOk(c, sh[c]) {
        assert old(ListOk(c, sh[c]));
      }
    }

    /** The record takes its key and is linked; counters and index do not change. */
    method Join(e: Entry, b: nat, ghost sh: seq<seq<Entry>>)
      requires HoldsShares(sh) && e.id < |heads| && b < |buckets| && Absent(sh, e.id)
      modifies heads[e.id], heads[e.id].link, buckets[b].data, buckets[b].data.foot
      ensures ListsOk(sh[b := sh[b] + [e]]) && KeysOk(sh[b := sh[b] + [e]])
      ensures CountsOk(sh) && IndexIs(Busy(sh)) && used.foot <= repr
    {
      IsAside(sh, b);
      IsFree(sh, e.id);
      IndexIsAside(sh, Busy(sh));
      LabelFree(e, b, sh);
      LinkIn(e, b, sh);
    }

    method Fill(e: Entry, b: nat, ghost sh: seq<seq<Entry>>)
      requires HoldsShares(sh) && e.id < |heads| && b < |buckets| && Absent(sh, e.id)
      modifies this`usedNum, repr
      ensures HoldsShares(sh[b := sh[b] + [e]])
    {
      Join(e, b, sh);
      CountUpAside(b, sh, sh[b] + [e]);
    }

    method Drain(b: nat, ghost i: nat, id: nat, ghost sh: seq<seq<Entry>>)
      requires HoldsShares(sh) && b < |buckets| && i < |sh[b]| && sh[b][i].id == id < |heads|
      modifies this`usedNum, repr
      ensures HoldsShares(sh[b := CutOut(sh[b], i)])
    {
      Leave(b, i, id, sh);
      CountDownAside(b, sh, CutOut(sh[b], i));
    }

    lemma KeysWithout(sh: seq<seq<Entry>>, b: nat, i: nat)
      requires KeysOk(sh) && b < |sh| && i < |sh[b]|
      ensures KeysOk(sh[b := CutOut(sh[b], i)])
    {
      var es := CutOut(sh[b], i);
      assert forall k :: 0 <= k < |es| ==> es[k] == sh[b][if k < i then k else k + 1];
    }

    method Leave(b: nat, ghost i: nat, id: nat, ghost sh: seq<seq<Entry>>)
      requires HoldsShares(sh) && b < |buckets| && i < |sh[b]| && sh[b][i].id == id < |heads|
      modifies buckets[b].data, buckets[b].data.foot
      ensures ListsOk(sh[b := CutOut(sh[b], i)]) && KeysOk(sh[b := CutOut(sh[b], i)])
      ensures CountsOk(sh) && IndexIs(Busy(sh)) && used.foot <= repr
    {
      IsAside(sh, b);
      IndexIsAside(sh, Busy(sh));
      KeysWithout(sh, b, i);
      LinkOut(b, i, id, sh);
    }

    /** The abstract state moves once the real one has. */
    ghost method Record(table: seq<Entry>, sh: seq<seq<Entry>>)
      requires HoldsShares(sh) && Shared(table, sh)
      modifies this`entries, this`shares
      ensures Valid() && entries == table
    {
      entries, shares := table, sh;
    }

    lemma AbsentFromShares(id: nat)
      requires |buckets| > 0 && |shares| == |buckets| && Shared(entries, shares)
      requires forall e :: e in entries ==> e.id != id
      ensures Absent(shares, id)
    {
      forall b, i | 0 <= b < |shares| && 0 <= i < |shares[b]| ensures shares[b][i].id != id {
        BucketMembers(entries, b, |buckets|);
        assert shares[b][i] in entries;
      }
    }

    /** tlibc_hash_insert: the element goes to the end of the table, whatever its stale links and those of its
        bucket's index node say. The record must not be an element already. */
    method Insert(key: Bytes, id: nat)
      requires Valid() && |buckets| > 0 && id < |heads| && forall e :: e in entries ==> e.id != id
      modifies this, repr
      ensures Valid() && entries == old(entries) + [Entry(id, key)]
    {
      var h := HashKey(key);
      var b := h % |buckets|;
      AbsentFromShares(id);
      SharedSnoc(entries, shares, Entry(id, key));
      Fill(Entry(id, key), b, shares);
      Record(entries + [Entry(id, key)], shares[b := shares[b] + [Entry(id, key)]]);
    }

    /** An element's record knows its bucket. */
    lemma KeyIndexOf(e: Entry) returns (i: nat)
      requires HoldsShares(shares) && Shared(entries, shares) && e in entries
      ensures |buckets| > 0
      ensures var b := BucketOf(e.key, |buckets|);
        i < |shares[b]| && shares[b][i] == e && e.id < |heads| && heads[e.id].keyIndex == b
    {
      var b := BucketOf(e.key, |buckets|);
      BucketMembers(entries, b, |buckets|);
      i :| 0 <= i < |shares[b]| && shares[b][i] == e;
    }

    /** tlibc_hash_remove of an element. */
    method Remove(id: nat)
      requires Valid() && exists e :: e in entries && e.id == id
      modifies this, repr
      ensures Valid() && entries == Without(old(entries), id)
    {
      ghost var e :| e in entries && e.id == id;
      ghost var i := KeyIndexOf(e);
      var b := heads[id].keyIndex;
      if b < |buckets| {
        SharedCut(entries, shares, e, i);
        Drain(b, i, id, shares);
        Record(Without(entries, id), shares[b := CutOut(shares[b], i)]);
      }
    }

    /** The counted loop of tlibc_hash_find over one bucket. */
    method FindIn(b: nat, key: Bytes, ghost es: seq<Entry>) returns (found: Option<nat>)
      requires b < |buckets| && ListOk(b, es) && buckets[b].num == |es| && Layout()
      requires forall i :: 0 <= i < |es| ==> heads[es[i].id].key == es[i].key
      ensures found == Lookup(es, key)
    {
      var data := buckets[b].data;
      var iter := data.head.next;
      var i := 0;
      while i < buckets[b].num
        invariant i <= buckets[b].num
        invariant iter == if i < |data.links| then data.links[i] else data.head
        invariant Lookup(es[i..], key) == Lookup(es, key)
      {
        var ele := iter.owner;
        assert ele == es[i].id && es[i..][1..] == es[i + 1..];
        if heads[ele].key == key {
          return Some(ele);
        }
        iter := iter.next;
        i := i + 1;
      }
      return None;
    }

    /** tlibc_hash_find: the earliest-inserted live element with the key, or NULL. The counted loop never leaves
        the bucket's list. A table of no buckets divides by zero. */
    method Find(key: Bytes) returns (found: Option<nat>)
      requires Valid() && |buckets| > 0
      ensures found == Lookup(entries, key)
    {
      var h := HashKey(key);
      var b := h % |buckets|;
      LookupInBucket(entries, key, |buckets|);
      assert ListOk(b, shares[b]) && shares[b] == Bucket(entries, b, |buckets|);
      found := FindIn(b, key, shares[b]);
    }

    method EmptyList(b: nat, ghost sh: seq<seq<Entry>>)
      requires ListsOk(sh) && b < |buckets| && Aside(b)
      modifies buckets[b].data, buckets[b].data.head
      ensures ListsOk(sh[b := []])
    {
      assert ListOk(b, sh[b]);
      buckets[b].data.Reset();
      forall c | 0 <= c < |buckets| && c != b ensures ListOk(c, sh[c]) {
        assert old(ListOk(c, sh[c]));
      }
    }

    /** What is not empty is in the index, and behind its first `done` nodes. */
    static ghost predicate Emptied(sh: seq<seq<Entry>>, busy: set<nat>, index: seq<Link>, done: nat) {
      && (forall b :: 0 <= b < |sh| && sh[b] != [] ==> b in busy)
      && done <= |index|
      && (forall k :: 0 <= k < done ==> index[k].owner < |sh| && sh[index[k].owner] == [])
    }

    static lemma EmptiedNext(sh: seq<seq<Entry>>, busy: set<nat>, index: seq<Link>, done: nat)
      requires Emptied(sh, busy, index, done) && done < |index| && index[done].owner < |sh|
      ensures Emptied(sh[index[done].owner := []], busy, index, done + 1)
    {
    }

    /** The table in the middle of a clear: the index is untouched, and what is not empty is in it. */
    ghost predicate Clearing(sh: seq<seq<Entry>>, busy: set<nat>, done: nat)
      reads this`usedNum, repr
    {
      && ListsOk(sh) && KeysOk(sh) && CountsOk(sh) && used.foot <= repr && IndexIs(busy)
      && Emptied(sh, busy, used.links, done)
    }

    method EmptyAside(b: nat, ghost sh: seq<seq<Entry>>, ghost busy: set<nat>)
      requires ListsOk(sh) && KeysOk(sh) && CountsOk(sh) && IndexIs(busy) && b < |buckets|
      modifies buckets[b].data, buckets[b].data.head
      ensures ListsOk(sh[b := []]) && KeysOk(sh[b := []]) && CountsOk(sh) && IndexIs(busy)
      ensures used.links == old(used.links) && used.foot == old(used.foot)
    {
      IsAside(sh, b);
      IndexIsAside(sh, busy);
      assert ListOk(b, sh[b]);
      EmptyList(b, sh);
    }

    method ZeroCount(b: nat, ghost sh: seq<seq<Entry>>)
      requires |sh| == |buckets| && b < |buckets| && ListsOk(sh[b := []]) && CountsOk(sh)
      modifies buckets[b]
      ensures ListsOk(sh[b := []]) && CountsOk(sh[b := []])
    {
      ghost var sh' := sh[b := []];
      buckets[b].num := 0;
      forall c | 0 <= c < |buckets| ensures ListOk(c, sh'[c]) {
        assert old(ListOk(c, sh'[c]));
      }
    }

    /** What the loop of tlibc_hash_clear does to the bucket it stands on. */
    method EmptyBucket(ghost k: nat, b: nat, ghost sh: seq<seq<Entry>>, ghost busy: set<nat>)
      requires Clearing(sh, busy, k) && k < |used.links| && used.links[k].owner == b
      modifies buckets[b], buckets[b].data, buckets[b].data.head
      ensures Clearing(sh[b := []], busy, k + 1)
    {
      assert used.links[k] in used.links;
      EmptiedNext(sh, busy, used.links, k);
      EmptyAside(b, sh, busy);
      ZeroCount(b, sh);
    }

    /** Behind the whole index nothing is left. */
    lemma AllEmptied(sh: seq<seq<Entry>>, busy: set<nat>)
      requires Layout() && IndexIs(busy) && |sh| == |buckets| && Emptied(sh, busy, used.links, |used.links|)
      ensures forall b :: 0 <= b < |sh| ==> sh[b] == []
    {
      forall b | 0 <= b < |sh| && b in busy ensures sh[b] == [] {
        assert buckets[b].node in used.links;
      }
    }

    /** The end of tlibc_hash_clear. */
    method ResetIndex(ghost sh: seq<seq<Entry>>, ghost busy: set<nat>)
      requires ListsOk(sh) && KeysOk(sh) && CountsOk(sh) && used.foot <= repr && IndexIs(busy)
      requires forall b :: 0 <= b < |sh| ==> sh[b] == []
      modifies this`usedNum, used, used.head
      ensures HoldsShares(sh)
    {
      IndexIsAside(sh, busy);
      used.Reset();
      usedNum := 0;
      forall c | 0 <= c < |buckets| ensures ListOk(c, sh[c]) {
        assert old(ListOk(c, sh[c]));
      }
    }

    /** tlibc_hash_clear: walking the index alone empties the whole table. */
    method Clear()
      requires Valid()
      modifies this, repr
      ensures Valid() && entries == []
    {
      ghost var busy, sh := Busy(shares), shares;
      var iter := used.head.next;
      var i := 0;
      while i < usedNum
        invariant i <= usedNum && Clearing(sh, busy, i)
        invariant iter == if i < |used.links| then used.links[i] else used.head
      {
        ghost var b := iter.owner;
        EmptyBucket(i, iter.owner, sh, busy);
        sh := sh[b := []];
        iter := iter.next;
        i := i + 1;
      }
      AllEmptied(sh, busy);
      ResetIndex(sh, busy);
      assert forall b :: 0 <= b < |sh| ==> Bucket([], b, |sh|) == [];
      Record([], sh);
    }
  }
}
