/**
 The meaning of tlibc_hash (tutils/source/tlibc_hash.c): an insertion-ordered multimap. The table is the list
 of live entries in the order of their insertion; a bucket holds the sub-list whose keys hash to it.
 */
module TlibcHashSpec {
  import opened Basics

  /** `id` stands for the address of the element. */
  datatype Entry = Entry(id: nat, key: Bytes)

  const WORD: nat := UINT32_MAX + 1

  /** tlibc_hash_key read from the front: base-31 digits in 32-bit arithmetic. */
  function HashFrom(acc: nat, key: Bytes): (h: nat)
    requires acc < WORD
    ensures h < WORD
    decreases |key|
  {
    if key == [] then acc else HashFrom((acc * 31 + key[0] as int) % WORD, key[1..])
  }

  function Hash(key: Bytes): (h: nat)
    ensures h < WORD
  {
    HashFrom(0, key)
  }

  /** The key as a number in base 31, its last byte the lowest digit. */
  function Number(key: Bytes): nat {
    if key == [] then 0 else 31 * Number(key[..|key| - 1]) + key[|key| - 1] as int
  }

  lemma {:induction false} HashSnoc(acc: nat, key: Bytes, c: Byte)
    requires acc < WORD
    ensures HashFrom(acc, key + [c]) == (31 * HashFrom(acc, key) + c as int) % WORD
    decreases |key|
  {
    if key == [] {
      assert key + [c] == [c] && [c][1..] == [];
    } else {
      assert (key + [c])[1..] == key[1..] + [c];
      HashSnoc((acc * 31 + key[0] as int) % WORD, key[1..], c);
    }
  }

  lemma WrapDigit(n: nat, c: Byte)
    ensures (31 * (n % WORD) + c as int) % WORD == (31 * n + c as int) % WORD
  {
    var q, r := n / WORD, n % WORD;
    assert 31 * n + c as int == (31 * r + c as int) + (31 * q) * WORD;
    WrapAway(31 * r + c as int, 31 * q);
  }

  lemma WrapAway(n: nat, q: nat)
    ensures (n + q * WORD) % WORD == n % WORD
  {
    ModUnique(n + q * WORD, WORD, q + n / WORD, n % WORD);
  }

  /** The hash is that number, as far as 32 bits hold it. */
  lemma {:induction false} HashIsNumber(key: Bytes)
    ensures Hash(key) == Number(key) % WORD
    decreases |key|
  {
    if key != [] {
      var front, c := key[..|key| - 1], key[|key| - 1];
      assert key == front + [c];
      HashIsNumber(front);
      HashSnoc(0, front, c);
      WrapDigit(Number(front), c);
    }
  }

  function BucketOf(key: Bytes, size: nat): (b: nat)
    requires size > 0
    ensures b < size
  {
    Hash(key) % size
  }

  /** The earliest-inserted live entry with the key. */
  function Lookup(table: seq<Entry>, key: Bytes): Option<nat> {
    if table == [] then None
    else if table[0].key == key then Some(table[0].id)
    else Lookup(table[1..], key)
  }

  /** The entries of one bucket, in table order. */
  function Bucket(table: seq<Entry>, b: nat, size: nat): seq<Entry>
    requires size > 0
  {
    if table == [] then []
    else (if BucketOf(table[0].key, size) == b then [table[0]] else []) + Bucket(table[1..], b, size)
  }

  /** The table without the element. */
  function Without(table: seq<Entry>, id: nat): seq<Entry> {
    if table == [] then [] else (if table[0].id == id then [] else [table[0]]) + Without(table[1..], id)
  }

  /** Nobody else in the table has the element's address. */
  ghost predicate Ids(table: seq<Entry>) {
    forall i, j :: 0 <= i < j < |table| ==> table[i].id != table[j].id
  }

  /** Looking in the key's own bucket finds what looking in the whole table would, whatever collides. */
  lemma {:induction false} LookupInBucket(table: seq<Entry>, key: Bytes, size: nat)
    requires size > 0
    ensures Lookup(Bucket(table, BucketOf(key, size), size), key) == Lookup(table, key)
  {
    if table != [] {
      LookupInBucket(table[1..], key, size);
      var rest := Bucket(table[1..], BucketOf(key, size), size);
      assert ([table[0]] + rest)[1..] == rest;
      assert [] + rest == rest;
    }
  }

  lemma {:induction false} BucketSnoc(table: seq<Entry>, e: Entry, b: nat, size: nat)
    requires size > 0
    ensures Bucket(table + [e], b, size) == Bucket(table, b, size) + if BucketOf(e.key, size) == b then [e] else []
  {
    if table == [] {
      assert table + [e] == [e];
      assert [e][1..] == [];
    } else {
      var longer := table + [e];
      var head := if BucketOf(table[0].key, size) == b then [table[0]] else [];
      assert longer[0] == table[0] && longer[1..] == table[1..] + [e];
      BucketSnoc(table[1..], e, b, size);
      assert Bucket(longer, b, size) == head + Bucket(longer[1..], b, size);
    }
  }

  lemma {:induction false} BucketMembers(table: seq<Entry>, b: nat, size: nat)
    requires size > 0
    ensures forall e :: e in Bucket(table, b, size) <==> e in table && BucketOf(e.key, size) == b
  {
    if table != [] {
      BucketMembers(table[1..], b, size);
    }
  }

  lemma {:induction false} BucketWithout(table: seq<Entry>, id: nat, b: nat, size: nat)
    requires size > 0
    ensures Bucket(Without(table, id), b, size) == Without(Bucket(table, b, size), id)
  {
    if table != [] {
      BucketWithout(table[1..], id, b, size);
      var rest := Bucket(table[1..], b, size);
      assert ([table[0]] + rest)[1..] == rest;
      assert [] + rest == rest;
      var less := Without(table[1..], id);
      assert ([table[0]] + less)[1..] == less;
      assert [] + less == less;
    }
  }

  lemma {:induction false} WithoutAbsent(table: seq<Entry>, id: nat)
    requires forall e :: e in table ==> e.id != id
    ensures Without(table, id) == table
  {
    if table != [] {
      WithoutAbsent(table[1..], id);
    }
  }

  /** Removing a member cuts one entry out. */
  lemma {:induction false} WithoutAt(table: seq<Entry>, k: nat)
    requires Ids(table) && k < |table|
    ensures Without(table, table[k].id) == CutOut(table, k)
  {
    if k == 0 {
      forall e | e in table[1..] ensures e.id != table[0].id {
        var i :| 0 <= i < |table[1..]| && table[1..][i] == e;
        assert table[i + 1] == e;
      }
      WithoutAbsent(table[1..], table[0].id);
    } else {
      WithoutAt(table[1..], k - 1);
      assert CutOut(table, k) == [table[0]] + CutOut(table[1..], k - 1);
    }
  }

  /** What a find means: the answer is the first entry with the key, or there is no such entry. */
  lemma {:induction false} LookupIsEarliest(table: seq<Entry>, key: Bytes)
    ensures Lookup(table, key).None? <==> forall e :: e in table ==> e.key != key
    ensures Lookup(table, key).Some? ==>
      exists k :: 0 <= k < |table| && table[k] == Entry(Lookup(table, key).value, key)
        && forall j :: 0 <= j < k ==> table[j].key != key
  {
    if table != [] {
      if table[0].key == key {
        assert table[0] == Entry(table[0].id, key);
      } else {
        LookupIsEarliest(table[1..], key);
        if Lookup(table[1..], key).Some? {
          var k :| 0 <= k < |table[1..]| && table[1..][k] == Entry(Lookup(table, key).value, key)
            && forall j :: 0 <= j < k ==> table[1..][j].key != key;
          assert table[k + 1] == Entry(Lookup(table, key).value, key);
          assert forall j :: 0 < j < k + 1 ==> table[j] == table[1..][j - 1];
        }
      }
    }
  }

  lemma {:induction false} WithoutMembers(table: seq<Entry>, id: nat)
    ensures forall e :: e in Without(table, id) <==> e in table && e.id != id
  {
    if table != [] {
      WithoutMembers(table[1..], id);
    }
  }

  lemma {:induction false} WithoutIds(table: seq<Entry>, id: nat)
    requires Ids(table)
    ensures Ids(Without(table, id))
  {
    if k :| 0 <= k < |table| && table[k].id == id {
      WithoutAt(table, k);
      var u := CutOut(table, k);
      assert forall i :: 0 <= i < |u| ==> u[i] == table[if i < k then i else i + 1];
    } else {
      WithoutAbsent(table, id);
    }
  }

  lemma {:induction false} BucketIds(table: seq<Entry>, b: nat, size: nat)
    requires size > 0 && Ids(table)
    ensures Ids(Bucket(table, b, size))
  {
    if table != [] {
      BucketIds(table[1..], b, size);
      BucketMembers(table[1..], b, size);
    }
  }

  /** `shares` is the table dealt out to the buckets; no address occurs twice. */
  ghost predicate Shared(table: seq<Entry>, shares: seq<seq<Entry>>) {
    && Ids(table) && (shares == [] ==> table == [])
    && forall b :: 0 <= b < |shares| ==> shares[b] == Bucket(table, b, |shares|)
  }

  lemma SharedSnoc(table: seq<Entry>, shares: seq<seq<Entry>>, e: Entry)
    requires |shares| > 0 && Shared(table, shares) && forall f :: f in table ==> f.id != e.id
    ensures var b := BucketOf(e.key, |shares|); Shared(table + [e], shares[b := shares[b] + [e]])
  {
    forall c | 0 <= c < |shares| {
      BucketSnoc(table, e, c, |shares|);
    }
  }

  lemma SharedCut(table: seq<Entry>, shares: seq<seq<Entry>>, e: Entry, i: nat)
    requires |shares| > 0 && Shared(table, shares) && e in table
    requires i < |shares[BucketOf(e.key, |shares|)]| && shares[BucketOf(e.key, |shares|)][i] == e
    ensures var b := BucketOf(e.key, |shares|); Shared(Without(table, e.id), shares[b := CutOut(shares[b], i)])
  {
    var n := |shares|;
    var b := BucketOf(e.key, n);
    WithoutIds(table, e.id);
    forall c | 0 <= c < n ensures Bucket(Without(table, e.id), c, n) == shares[b := CutOut(shares[b], i)][c] {
      BucketWithout(table, e.id, c, n);
      if c == b {
        BucketIds(table, b, n);
        WithoutAt(shares[b], i);
      } else {
        BucketMembers(table, c, n);
        WithoutAbsent(shares[c], e.id);
      }
    }
  }
}
