/**
 Bytes, optional values, and the few facts about sequences that the other modules share:
 concatenation of a list of byte strings, and removal of one element from a list
 (the abstract effect of unlinking a node).
 */
module Basics {

  datatype Option<+T> = None | Some(value: T)

  type Byte = b: int | 0 <= b < 256
  type Bytes = seq<Byte>

  const UINT64_MAX: nat := 0xFFFF_FFFF_FFFF_FFFF
  const UINT32_MAX: nat := 0xFFFF_FFFF
  const SSIZE_MAX: nat := 0x7FFF_FFFF_FFFF_FFFF

  function Min(a: nat, b: nat): nat {
    if a < b then a else b
  }

  lemma ConcatAssociates<T>(a: seq<T>, b: seq<T>, c: seq<T>)
    ensures (a + b) + c == a + (b + c)
  {
  }

  /** The concatenation of a list of byte strings. */
  function Flatten<T>(parts: seq<seq<T>>): seq<T> {
    if parts == [] then [] else parts[0] + Flatten(parts[1..])
  }

  lemma {:induction false} FlattenAppend<T>(a: seq<seq<T>>, b: seq<seq<T>>)
    ensures Flatten(a + b) == Flatten(a) + Flatten(b)
  {
    if a == [] {
      assert a + b == b;
    } else {
      FlattenAppend(a[1..], b);
      assert (a + b)[1..] == a[1..] + b;
    }
  }

  lemma FlattenSnoc<T>(a: seq<seq<T>>, x: seq<T>)
    ensures Flatten(a + [x]) == Flatten(a) + x
  {
    FlattenAppend(a, [x]);
  }

  lemma EmptyOrHead<T>(s: seq<T>)
    ensures s == [] || s[0] in s
  {
  }

  ghost predicate Distinct<T>(s: seq<T>) {
    forall i, j :: 0 <= i < j < |s| ==> s[i] != s[j]
  }

  /** `s` without its first occurrence of `x`; `s` itself when `x` is not there. */
  function Unlink<T(==)>(s: seq<T>, x: T): (r: seq<T>) {
    if s == [] then [] else if s[0] == x then s[1..] else [s[0]] + Unlink(s[1..], x)
  }

  lemma {:induction false} UnlinkSubset<T>(s: seq<T>, x: T)
    ensures forall y :: y in Unlink(s, x) ==> y in s
  {
    if s != [] && s[0] != x {
      UnlinkSubset(s[1..], x);
    }
  }

  lemma {:induction false} UnlinkAbsent<T>(s: seq<T>, x: T)
    requires x !in s
    ensures Unlink(s, x) == s
  {
    if s != [] {
      UnlinkAbsent(s[1..], x);
    }
  }

  /** Unlinking a member cuts the list at one index, before which `x` does not occur. */
  lemma {:induction false} UnlinkIndex<T>(s: seq<T>, x: T) returns (k: nat)
    requires x in s
    ensures k < |s| && s[k] == x && x !in s[..k]
    ensures Unlink(s, x) == CutOut(s, k)
  {
    if s[0] == x {
      k := 0;
    } else {
      var m := UnlinkIndex(s[1..], x);
      k := m + 1;
    }
  }

  lemma {:induction false} UnlinkAt<T>(s: seq<T>, k: nat)
    requires k < |s| && s[k] !in s[..k]
    ensures Unlink(s, s[k]) == CutOut(s, k)
  {
    if k > 0 {
      assert s[0] in s[..k];
      assert s[1..][..k - 1] == s[1..k];
      UnlinkAt(s[1..], k - 1);
      assert s[..k] == [s[0]] + s[1..][..k - 1];
    }
  }

  /** `s` without the element at index k. */
  function CutOut<T>(s: seq<T>, k: nat): (r: seq<T>)
    requires k < |s|
    ensures |r| == |s| - 1
  {
    s[..k] + s[k + 1..]
  }

  lemma CutOutDistinct<T>(s: seq<T>, k: nat)
    requires Distinct(s) && k < |s|
    ensures Distinct(CutOut(s, k))
    ensures forall y :: y in CutOut(s, k) <==> y in s && y != s[k]
  {
    var u := CutOut(s, k);
    forall i | 0 <= i < |u| ensures u[i] == if i < k then s[i] else s[i + 1] {
    }
    assert forall y :: y in u ==> y in s && y != s[k];
    forall y | y in s && y != s[k] ensures y in u {
      var i :| 0 <= i < |s| && s[i] == y;
      assert if i < k then u[i] == y else u[i - 1] == y;
    }
  }

  /** In a list without duplicates, unlinking removes the element and nothing else. */
  lemma UnlinkDistinct<T>(s: seq<T>, x: T)
    requires Distinct(s)
    ensures Distinct(Unlink(s, x))
    ensures forall y :: y in Unlink(s, x) <==> y in s && y != x
    ensures |Unlink(s, x)| == if x in s then |s| - 1 else |s|
  {
    if x in s {
      var k := UnlinkIndex(s, x);
      CutOutDistinct(s, k);
    } else {
      UnlinkAbsent(s, x);
    }
  }

  // ----- remainders -----

  lemma ModNext(a: nat, n: nat)
    requires n > 0
    ensures (a + 1) % n == if a % n == n - 1 then 0 else a % n + 1
  {
    var q, r := a / n, a % n;
    if r == n - 1 {
      assert a + 1 == n * (q + 1);
      ModUnique(a + 1, n, q + 1, 0);
    } else {
      ModUnique(a + 1, n, q, r + 1);
    }
  }

  lemma MulAway(n: int, d: int)
    requires n >= 0
    ensures d > 0 ==> n * d >= n
    ensures d < 0 ==> n * d <= -n
  {
  }

  lemma ModUnique(a: nat, n: nat, q: nat, r: nat)
    requires a == n * q + r && r < n
    ensures a % n == r
  {
    var d := a / n - q;
    assert a == n * (a / n) + a % n;
    assert n * d == r - a % n by {
      assert n * (a / n) == n * q + n * d;
    }
    MulAway(n, d);
  }

  lemma ModLap(a: nat, n: nat)
    requires n > 0
    ensures a % n == if a < n then a else (a - n) % n
  {
    if a < n {
      ModUnique(a, n, 0, a);
    } else {
      ModUnique(a, n, (a - n) / n + 1, (a - n) % n);
    }
  }
}
