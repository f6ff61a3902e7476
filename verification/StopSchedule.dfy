/**
 The stop schedule of start-stop-daemon (tools/start-stop-daemon/source/start-stop-daemon.c): the parser of
 --retry, and the executor that walks the parsed array with a goto for `forever`.

 Strings are C strings without their terminating NUL. Every badusage is the one error result.
 */
module StopSchedule {
  import opened Basics

  const INT_MAX: nat := 0x7FFF_FFFF
  const SIGKILL: nat := 9
  /** sizeof(item_buf) */
  const ITEM_BUF: nat := 20

  /** struct schedule_item; Forever only occurs while parsing. */
  datatype Item = Timeout(value: nat) | Signal(value: nat) | Goto(value: nat) | Forever

  // ----- numbers and signals -----

  predicate IsSpace(c: char) { c == ' ' || '\t' <= c <= '\r' }

  predicate IsDigit(c: char) { '0' <= c <= '9' }

  function SkipSpace(s: string): string {
    if s != [] && IsSpace(s[0]) then SkipSpace(s[1..]) else s
  }

  predicate AllDigits(s: string) {
    forall i :: 0 <= i < |s| ==> IsDigit(s[i])
  }

  function Digits(s: string): (n: int)
    requires AllDigits(s)
    ensures n >= 0
  {
    if s == [] then 0 else 10 * Digits(s[..|s| - 1]) + (s[|s| - 1] as int - '0' as int)
  }

  /** strtol in base 10 on the whole string: blanks, an optional sign, at least one digit, nothing more. */
  function Strtol(s: string): Option<int> {
    var t := SkipSpace(s);
    var neg := t != [] && t[0] == '-';
    var d := if t != [] && (t[0] == '-' || t[0] == '+') then t[1..] else t;
    if d == [] || !AllDigits(d) then None else Some(if neg then -Digits(d) else Digits(d))
  }

  /** parse_unsigned. A value out of range for long is out of range for int as well. */
  function ParseUnsigned(s: string): Option<nat> {
    match Strtol(s)
    case None => None
    case Some(v) => if v < 0 || v > INT_MAX then None else Some(v)
  }

  const SIGLIST: seq<(string, nat)> := [
    ("ABRT", 6), ("ALRM", 14), ("FPE", 8), ("HUP", 1), ("ILL", 4), ("INT", 2), ("KILL", 9), ("PIPE", 13),
    ("QUIT", 3), ("SEGV", 11), ("TERM", 15), ("USR1", 10), ("USR2", 12), ("CHLD", 17), ("CONT", 18),
    ("STOP", 19), ("TSTP", 20), ("TTIN", 21), ("TTOU", 22)]

  function SignalNamed(s: string, list: seq<(string, nat)>): Option<nat> {
    if list == [] then None else if list[0].0 == s then Some(list[0].1) else SignalNamed(s, list[1..])
  }

  /** parse_signal */
  function ParseSignal(s: string): Option<nat> {
    match ParseUnsigned(s)
    case Some(v) => Some(v)
    case None => SignalNamed(s, SIGLIST)
  }

  /** parse_schedule_item */
  function ParseItem(s: string): (r: Option<Item>)
    ensures r.Some? ==> !r.value.Goto?
  {
    if s == "forever" then Some(Forever)
    else if s != [] && IsDigit(s[0]) then
      match ParseUnsigned(s) case None => None case Some(v) => Some(Timeout(v))
    else
      var afterHyphen := if s != [] && s[0] == '-' then s[1..] else s;
      match ParseSignal(afterHyphen) case None => None case Some(v) => Some(Signal(v))
  }

  // ----- the parser -----

  /** The text between slashes. */
  function Pieces(s: string): (r: seq<string>)
    ensures |r| > 0
    decreases |s|
  {
    if s == [] then [""]
    else
      var rest := Pieces(s[1..]);
      if s[0] == '/' then [""] + rest else [[s[0]] + rest[0]] + rest[1..]
  }

  function Slashes(s: string): nat {
    if s == [] then 0 else (if s[0] == '/' then 1 else 0) + Slashes(s[1..])
  }

  lemma {:induction false} PiecesCount(s: string)
    ensures |Pieces(s)| == Slashes(s) + 1
  {
    if s != [] {
      PiecesCount(s[1..]);
    }
  }

  /** One item of a list: too long for the buffer or not an item is an error. */
  function ParsePiece(piece: string): (r: Option<Item>)
    ensures r.Some? ==> !r.value.Goto?
  {
    if |piece| >= ITEM_BUF then None else ParseItem(piece)
  }

  /** What a list of pieces means: at most one `forever`, not at the end; it disappears, and a goto to its
      place is appended. */
  ghost predicate Means(items: seq<Item>, schedule: seq<Item>) {
    || (Forever !in items && schedule == items)
    || (exists p :: 0 <= p < |items| - 1 && items[p] == Forever && Forever !in CutOut(items, p)
          && schedule == CutOut(items, p) + [Goto(p)])
  }

  function ParseAll(pieces: seq<string>): (r: Option<seq<Item>>)
    ensures r.Some? ==> |r.value| == |pieces| && forall i :: 0 <= i < |pieces| ==> !r.value[i].Goto?
  {
    if pieces == [] then Some([])
    else
      match ParsePiece(pieces[0])
      case None => None
      case Some(item) =>
        match ParseAll(pieces[1..])
        case None => None
        case Some(rest) => Some([item] + rest)
  }

  /** The loop of parse_schedule on the remaining items: `count` stored so far, `repeatAt` the place of
      `forever`. */
  function Collect(items: seq<Item>, stored: seq<Item>, repeatAt: Option<nat>): Option<seq<Item>>
    decreases |items|
  {
    if items == [] then
      if repeatAt == Some(|stored|) then None
      else if repeatAt.Some? then Some(stored + [Goto(repeatAt.value)])
      else Some(stored)
    else if items[0] == Forever then
      if repeatAt.Some? then None else Collect(items[1..], stored, Some(|stored|))
    else Collect(items[1..], stored + [items[0]], repeatAt)
  }

  /** parse_schedule, as a value: None for badusage. */
  function Parse(s: string, signalNr: nat): Option<seq<Item>> {
    if Slashes(s) == 0 then
      match ParseItem(s)
      case Some(Timeout(t)) => Some([Signal(signalNr), Timeout(t), Signal(SIGKILL), Timeout(t)])
      case _ => None
    else
      match ParseAll(Pieces(s))
      case None => None
      case Some(items) => Collect(items, [], None)
  }

  lemma {:induction false} CollectPlain(items: seq<Item>, stored: seq<Item>, repeatAt: Option<nat>)
    requires Forever !in items
    ensures Collect(items, stored, repeatAt) ==
      if repeatAt == Some(|stored + items|) then None
      else if repeatAt.Some? then Some(stored + items + [Goto(repeatAt.value)])
      else Some(stored + items)
    decreases |items|
  {
    if items == [] {
      assert stored + items == stored;
    } else {
      assert (stored + [items[0]]) + items[1..] == stored + items;
      CollectPlain(items[1..], stored + [items[0]], repeatAt);
    }
  }

  /** Where the first `forever` is. */
  function FirstForever(items: seq<Item>): (p: nat)
    ensures p <= |items| && Forever !in items[..p] && (p < |items| ==> items[p] == Forever)
  {
    if items == [] || items[0] == Forever then 0 else 1 + FirstForever(items[1..])
  }

  lemma {:induction false} CollectUpTo(items: seq<Item>, stored: seq<Item>, p: nat)
    requires p <= |items| && Forever !in items[..p]
    ensures Collect(items, stored, None) == Collect(items[p..], stored + items[..p], None)
    decreases p
  {
    if p == 0 {
      assert items[0..] == items && stored + items[..0] == stored;
    } else {
      assert items[0] in items[..p];
      assert forall x :: x in items[1..][..p - 1] ==> x in items[..p];
      CollectUpTo(items[1..], stored + [items[0]], p - 1);
      assert items[1..][p - 1..] == items[p..];
      assert (stored + [items[0]]) + items[1..][..p - 1] == stored + items[..p];
    }
  }

  lemma {:induction false} CollectRefusesTwo(items: seq<Item>, stored: seq<Item>, at: nat)
    requires Forever in items
    ensures Collect(items, stored, Some(at)) == None
    decreases |items|
  {
    if items[0] != Forever {
      CollectRefusesTwo(items[1..], stored + [items[0]], at);
    }
  }

  /** The list form: accepted exactly when the items have a meaning, with that meaning as the result. */
  lemma CollectMeans(items: seq<Item>)
    ensures Collect(items, [], None).Some? <==> exists schedule :: Means(items, schedule)
    ensures Collect(items, [], None).Some? ==> Means(items, Collect(items, [], None).value)
  {
    var p := FirstForever(items);
    CollectUpTo(items, [], p);
    assert [] + items[..p] == items[..p];
    if p == |items| {
      assert items[..p] == items && items[p..] == [];
      assert Means(items, items);
    } else {
      var rest := items[p + 1..];
      assert items[p..][1..] == rest;
      assert CutOut(items, p) == items[..p] + rest;
      if Forever in rest {
        CollectRefusesTwo(rest, items[..p], p);
        forall schedule ensures !Means(items, schedule) {
          NoMeaning(items, p, schedule);
        }
      } else {
        CollectPlain(rest, items[..p], Some(p));
        if rest == [] {
          forall schedule ensures !Means(items, schedule) {
            NoMeaning(items, p, schedule);
          }
        } else {
          assert Means(items, CutOut(items, p) + [Goto(p)]);
        }
      }
    }
  }

  lemma NoMeaning(items: seq<Item>, p: nat, schedule: seq<Item>)
    requires p < |items| && items[p] == Forever && (p == |items| - 1 || Forever in items[p + 1..])
    ensures !Means(items, schedule)
  {
    forall q | 0 <= q < |items| - 1 && items[q] == Forever ensures Forever in CutOut(items, q) {
      var k := if q == p then var j :| p < j < |items| && items[j] == Forever; j else p;
      CutOutKeeps(items, q, k);
    }
  }

  /** What the executor relies on: no `forever` is left, and a goto occurs at most once, at the end, leading
      back to an item that is not a goto. */
  ghost predicate WellFormed(schedule: seq<Item>) {
    && (forall i :: 0 <= i < |schedule| ==> !schedule[i].Forever?)
    && (forall i :: 0 <= i < |schedule| && schedule[i].Goto? ==>
          i == |schedule| - 1 && schedule[i].value < i && !schedule[schedule[i].value].Goto?)
  }

  lemma MeaningIsWellFormed(items: seq<Item>, schedule: seq<Item>)
    requires Means(items, schedule) && forall i :: 0 <= i < |items| ==> !items[i].Goto?
    ensures WellFormed(schedule) && |schedule| == |items|
  {
    if Forever !in items && schedule == items {
    } else {
      var p :| 0 <= p < |items| - 1 && items[p] == Forever && Forever !in CutOut(items, p)
        && schedule == CutOut(items, p) + [Goto(p)];
      forall i | 0 <= i < |items| - 1 ensures !schedule[i].Goto? && !schedule[i].Forever? {
        assert schedule[i] == CutOut(items, p)[i];
        assert CutOut(items, p)[i] == items[if i < p then i else i + 1];
      }
    }
  }

  /** Every accepted string gives an array of exactly schedule_length well-formed items. */
  lemma ParsedIsWellFormed(s: string, signalNr: nat)
    requires Parse(s, signalNr).Some?
    ensures WellFormed(Parse(s, signalNr).value)
    ensures |Parse(s, signalNr).value| == if Slashes(s) == 0 then 4 else Slashes(s) + 1
  {
    if Slashes(s) > 0 {
      PiecesCount(s);
      var items := ParseAll(Pieces(s)).value;
      CollectMeans(items);
      MeaningIsWellFormed(items, Parse(s, signalNr).value);
    }
  }

  // ----- the parser's loops -----

  /** strchr(s, '/'), or the length of the string. */
  method FindSlash(s: string, from: nat) returns (k: nat)
    requires from <= |s|
    ensures from <= k <= |s| && '/' !in s[from..k] && (k < |s| ==> s[k] == '/')
  {
    k := from;
    while k < |s| && s[k] != '/'
      invariant from <= k <= |s| && '/' !in s[from..k]
    {
      k := k + 1;
    }
  }

  lemma {:induction false} PiecesStep(s: string, k: nat)
    requires k <= |s| && '/' !in s[..k] && (k < |s| ==> s[k] == '/')
    ensures Pieces(s) == if k == |s| then [s] else [s[..k]] + Pieces(s[k + 1..])
    decreases k
  {
    if k == 0 {
      assert s[..0] == "";
    } else {
      assert s[0] in s[..k];
      assert forall c :: c in s[1..][..k - 1] ==> c in s[..k];
      PiecesStep(s[1..], k - 1);
      if k < |s| {
        assert s[1..][k - 1 + 1..] == s[k + 1..];
      }
      assert s[..k] == [s[0]] + s[1..][..k - 1];
      assert s == [s[0]] + s[1..];
    }
  }

  /** The rest of the loop of parse_schedule: the pieces still to come. */
  function Continue(pieces: seq<string>, stored: seq<Item>, repeatAt: Option<nat>): Option<seq<Item>> {
    match ParseAll(pieces)
    case None => None
    case Some(items) => Collect(items, stored, repeatAt)
  }

  lemma ContinueStep(pieces: seq<string>, stored: seq<Item>, repeatAt: Option<nat>)
    requires pieces != []
    ensures Continue(pieces, stored, repeatAt) ==
      match ParsePiece(pieces[0])
      case None => None
      case Some(item) =>
        if item == Forever then
          if repeatAt.Some? then None else Continue(pieces[1..], stored, Some(|stored|))
        else Continue(pieces[1..], stored + [item], repeatAt)
  {
    if ParsePiece(pieces[0]).Some? && ParseAll(pieces[1..]).Some? {
      var item, rest := ParsePiece(pieces[0]).value, ParseAll(pieces[1..]).value;
      assert ([item] + rest)[1..] == rest;
    }
  }

  /** The count loop at the start of parse_schedule. */
  method CountSlashes(s: string) returns (count: nat)
    ensures count == Slashes(s)
  {
    count := 0;
    var i := 0;
    while i < |s|
      invariant i <= |s| && count + Slashes(s[i..]) == Slashes(s)
    {
      assert s[i..][1..] == s[i + 1..];
      if s[i] == '/' {
        count := count + 1;
      }
      i := i + 1;
    }
  }

  /** parse_schedule: fills the array of schedule_length items it allocated; no result for badusage. */
  method ParseSchedule(s: string, signalNr: nat) returns (schedule: array?<Item>)
    ensures schedule == null <==> Parse(s, signalNr) == None
    ensures schedule != null ==> fresh(schedule) && Parse(s, signalNr) == Some(schedule[..])
  {
    var slashes := CountSlashes(s);
    if slashes == 0 {
      var item := ParseItem(s);
      if item.None? || !item.value.Timeout? {
        return null;
      }
      schedule := new Item[4](_ => Forever);
      schedule[0] := Signal(signalNr);
      schedule[1] := item.value;
      schedule[2] := Signal(SIGKILL);
      schedule[3] := schedule[1];
      assert schedule[..] == [Signal(signalNr), item.value, Signal(SIGKILL), item.value];
    } else {
      schedule := ParseList(s, slashes + 1);
    }
  }

  /** The pieces still to parse from schedule_str on; none when it is NULL. */
  ghost function Ahead(s: string, str: Option<nat>): seq<string>
    requires str.Some? ==> str.value <= |s|
  {
    if str.Some? then Pieces(s[str.value..]) else []
  }

  /** The head of the loop: cut the next piece at a slash, copy it to item_buf, parse it. */
  method NextItem(s: string, start: nat) returns (item: Option<Item>, next: Option<nat>)
    requires start <= |s|
    ensures item == ParsePiece(Ahead(s, Some(start))[0])
    ensures next.Some? ==> start < next.value <= |s|
    ensures Ahead(s, next) == Ahead(s, Some(start))[1..]
  {
    var slash := FindSlash(s, start);
    item := ParsePiece(s[start..slash]);
    next := if slash < |s| then Some(slash + 1) else None;
    AheadStep(s, start, slash);
  }

  lemma AheadStep(s: string, start: nat, slash: nat)
    requires start <= slash <= |s| && '/' !in s[start..slash] && (slash < |s| ==> s[slash] == '/')
    ensures Ahead(s, Some(start))[0] == s[start..slash]
    ensures Ahead(s, Some(start))[1..] == Ahead(s, if slash < |s| then Some(slash + 1) else None)
  {
    assert s[start..][..slash - start] == s[start..slash];
    PiecesStep(s[start..], slash - start);
    if slash < |s| {
      assert s[start..][slash - start + 1..] == s[slash + 1..];
    } else {
      assert s[start..] == s[start..slash];
    }
  }

  /** The array has room for what is still to come, with one place kept for the goto. */
  ghost predicate RoomAhead(count: nat, repeatAt: Option<nat>, ahead: seq<string>, length: nat) {
    && (repeatAt.Some? ==> repeatAt.value <= count)
    && count + (if repeatAt.Some? then 1 else 0) + |ahead| == length
  }

  method ParseList(s: string, length: nat) returns (schedule: array?<Item>)
    requires length == Slashes(s) + 1
    ensures schedule == null <==> Continue(Pieces(s), [], None) == None
    ensures schedule != null ==> fresh(schedule) && Continue(Pieces(s), [], None) == Some(schedule[..])
  {
    PiecesCount(s);
    var items := new Item[length](_ => Forever);
    var count: nat := 0;
    var repeatAt: Option<nat> := None;
    var str: Option<nat> := Some(0);
    assert s[0..] == s && items[..0] == [];
    while str.Some?
      invariant fresh(items) && (str.Some? ==> str.value <= |s|)
      invariant RoomAhead(count, repeatAt, Ahead(s, str), items.Length)
      invariant Continue(Pieces(s), [], None) == Continue(Ahead(s, str), items[..count], repeatAt)
      decreases if str.Some? then 1 + |s| - str.value else 0
    {
      ContinueStep(Ahead(s, str), items[..count], repeatAt);
      var item, next := NextItem(s, str.value);
      str := next;
      if item.None? {
        return null;
      }
      ghost var stored := items[..count];
      items[count] := item.value;
      if item.value == Forever {
        if repeatAt.Some? {
          return null;
        }
        assert items[..count] == stored;
        repeatAt := Some(count);
        continue;
      }
      assert items[..count + 1] == stored + [item.value];
      count := count + 1;
    }
    if repeatAt == Some(count) {
      return null;
    }
    if repeatAt.Some? {
      ghost var stored := items[..count];
      items[count] := Goto(repeatAt.value);
      assert items[..count + 1] == stored + [Goto(repeatAt.value)];
      count := count + 1;
    }
    assert items[..count] == items[..];
    return items;
  }

  // ----- the executor -----

  ghost predicate Loops(schedule: seq<Item>) {
    schedule != [] && schedule[|schedule| - 1].Goto?
  }

  /** Where the k-th item of the unrolled schedule stands: the prefix once, then the loop over and over. */
  ghost function Place(schedule: seq<Item>, k: nat): (p: nat)
    requires WellFormed(schedule) && (k < |schedule| || Loops(schedule))
    ensures p < |schedule| && !schedule[p].Goto?
  {
    var end := |schedule| - 1;
    if !Loops(schedule) || k < end then k
    else
      var target := schedule[end].value;
      target + (k - end) % (end - target)
  }

  ghost function Unrolled(schedule: seq<Item>, k: nat): (item: Item)
    requires WellFormed(schedule) && (k < |schedule| || Loops(schedule))
    ensures item.Signal? || item.Timeout?
  {
    schedule[Place(schedule, k)]
  }

  /** One step of the loop, a goto included, moves from one place of the unrolled schedule to the next. */
  lemma PlaceStep(schedule: seq<Item>, k: nat)
    requires WellFormed(schedule) && (k < |schedule| || Loops(schedule))
    ensures
      var next := Place(schedule, k) + 1;
      if next == |schedule| then !Loops(schedule) && k + 1 == |schedule|
      else Place(schedule, k + 1) == if schedule[next].Goto? then schedule[next].value else next
  {
    var end := |schedule| - 1;
    if Loops(schedule) && k + 1 >= end {
      var n := end - schedule[end].value;
      assert Place(schedule, k + 1) == schedule[end].value + (k + 1 - end) % n;
      if k + 1 == end {
        ModUnique(0, n, 0, 0);
      } else {
        ModNext(k - end, n);
        assert k + 1 - end == (k - end) + 1;
      }
    }
  }

  /**
   What `forever` means, from the list the user wrote to the items the executor visits: the items before it
   once, then the items behind it repeated.
   */
  lemma ForeverRepeats(items: seq<Item>, p: nat, schedule: seq<Item>, k: nat)
    requires p < |items| - 1 && items[p] == Forever
    requires Means(items, schedule) && forall i :: 0 <= i < |items| ==> !items[i].Goto?
    ensures WellFormed(schedule) && Loops(schedule)
    ensures Unrolled(schedule, k) ==
      if k < p then items[k] else items[p + 1 + (k - p) % (|items| - 1 - p)]
  {
    MeaningIsWellFormed(items, schedule);
    OnlyForever(items, p, schedule);
    assert forall i :: 0 <= i < |items| - 1 ==> schedule[i] == items[if i < p then i else i + 1];
    PlaceInLoop(schedule, k);
  }

  lemma PlaceInLoop(schedule: seq<Item>, k: nat)
    requires WellFormed(schedule) && Loops(schedule)
    ensures
      var end := |schedule| - 1;
      var target := schedule[end].value;
      Place(schedule, k) == if k < target then k else target + (k - target) % (end - target)
  {
    var end := |schedule| - 1;
    var target := schedule[end].value;
    if k >= target {
      ModLap(k - target, end - target);
    }
  }

  lemma CutOutKeeps(items: seq<Item>, p: nat, q: nat)
    requires p < |items| && q < |items| && p != q
    ensures items[q] in CutOut(items, p)
  {
    assert CutOut(items, p)[if q < p then q else q - 1] == items[q];
  }

  lemma OnlyForever(items: seq<Item>, p: nat, schedule: seq<Item>)
    requires p < |items| - 1 && items[p] == Forever && Means(items, schedule)
    ensures schedule == CutOut(items, p) + [Goto(p)]
  {
    var q: nat :| q < |items| - 1 && items[q] == Forever && Forever !in CutOut(items, q)
      && schedule == CutOut(items, q) + [Goto(q)];
    if p != q {
      CutOutKeeps(items, q, p);
    }
  }

  /** A signal among the first n visited items, all of which found a process. */
  ghost predicate KilledBefore(schedule: seq<Item>, n: nat)
    requires WellFormed(schedule) && (n <= |schedule| || Loops(schedule))
  {
    exists k :: 0 <= k < n && Unrolled(schedule, k).Signal?
  }

  /**
   What running a schedule means. gone[k] says whether no process was left at the k-th visited item
   (do_stop found nothing to kill, or do_stop_timeout returned true); the exit code is missing when the answers
   end while the schedule is still running.
   */
  ghost predicate RunsTo(schedule: seq<Item>, gone: seq<bool>, exitnodo: int, visited: seq<Item>, code: Option<int>)
    requires WellFormed(schedule)
  {
    var n := |visited|;
    && n <= |gone| && (n <= |schedule| || Loops(schedule))
    && (forall k :: 0 <= k < n ==> visited[k] == Unrolled(schedule, k))
    && (forall k :: 0 <= k < n - 1 ==> !gone[k])
    && if n > 0 && gone[n - 1] then
         code == Some(if KilledBefore(schedule, n - 1) then 0 else exitnodo)
       else if n == |schedule| && !Loops(schedule) then
         code == Some(2)
       else
         n == |gone| && code == None
  }

  /** The meaning is exact: one list of visited items and one exit code. */
  lemma RunIsDetermined(
    schedule: seq<Item>, gone: seq<bool>, exitnodo: int,
    v: seq<Item>, c: Option<int>, w: seq<Item>, d: Option<int>)
    requires WellFormed(schedule)
    requires RunsTo(schedule, gone, exitnodo, v, c) && RunsTo(schedule, gone, exitnodo, w, d)
    ensures v == w && c == d
  {
    assert |v| == |w|;
  }

  /** A schedule that loops is never exhausted: 2 is only for a goto-free one, visited to its end in vain. */
  lemma RefusedToDieExactly(schedule: seq<Item>, gone: seq<bool>, visited: seq<Item>, code: Option<int>)
    requires WellFormed(schedule) && schedule != []
    requires RunsTo(schedule, gone, 1, visited, code)
    ensures code == Some(2) <==>
      !Loops(schedule) && |schedule| <= |gone| && forall k :: 0 <= k < |schedule| ==> !gone[k]
  {
    if !Loops(schedule) && |schedule| <= |gone| && forall k :: 0 <= k < |schedule| ==> !gone[k] {
      assert |visited| == 0 || !gone[|visited| - 1];
    }
  }

  /** The item at which it was found that no process is left. */
  ghost predicate GoneAt(schedule: seq<Item>, gone: seq<bool>, n: nat)
    requires WellFormed(schedule)
  {
    && n < |gone| && (n < |schedule| || Loops(schedule))
    && gone[n] && forall k :: 0 <= k < n ==> !gone[k]
  }

  /** The exit code is 0 if and only if nobody was left at some item and a signal had been sent by an item before it;
      it is the code for nothing done if and only if nobody was left and no item before had sent one. */
  lemma ExitCodesExactly(schedule: seq<Item>, gone: seq<bool>, exitnodo: int, visited: seq<Item>, code: Option<int>)
    requires WellFormed(schedule) && exitnodo != 0 && exitnodo != 2
    requires RunsTo(schedule, gone, exitnodo, visited, code)
    ensures code == Some(0) <==>
      exists n: nat, k: nat :: GoneAt(schedule, gone, n) && k < n && Unrolled(schedule, k).Signal?
    ensures code == Some(exitnodo) <==>
      exists n: nat :: GoneAt(schedule, gone, n) && forall k: nat :: k < n ==> Unrolled(schedule, k).Timeout?
  {
    var n := |visited| - 1;
    if n >= 0 && gone[n] {
      assert GoneAt(schedule, gone, n);
    }
    forall m: nat | GoneAt(schedule, gone, m) ensures m == n && gone[n] {
    }
  }

  /** The loop of run_stop_schedule, with its goto. The answers stand for do_stop and do_stop_timeout; the items
      visited are kept as a trace. */
  method Execute(schedule: array<Item>, gone: seq<bool>, exitnodo: int)
    returns (code: Option<int>, visited: seq<Item>)
    requires WellFormed(schedule[..])
    ensures RunsTo(schedule[..], gone, exitnodo, visited, code)
  {
    ghost var items := schedule[..];
    visited := [];
    var anykilled := false;
    var position, k := 0, 0;
    while position < schedule.Length
      invariant schedule[..] == items
      invariant k == |visited| <= |gone| && (k <= |items| || Loops(items))
      invariant forall i :: 0 <= i < k ==> visited[i] == Unrolled(items, i) && !gone[i]
      invariant anykilled == KilledBefore(items, k)
      invariant position <= |items| && Stands(items, position, k)
      decreases |gone| - k, if position < |items| && items[position].Goto? then 1 else 0
    {
      var item := schedule[position];
      if item.Goto? {
        position := item.value;
        assert !items[position].Goto?;
        continue;
      }
      assert !item.Forever?;
      if k == |gone| {
        return None, visited;
      }
      assert item == Unrolled(items, k);
      visited := visited + [item];
      if gone[k] {
        return Some(if anykilled then 0 else exitnodo), visited;
      }
      anykilled := anykilled || item.Signal?;
      PlaceStep(items, k);
      k := k + 1;
      position := position + 1;
    }
    return Some(2), visited;
  }

  /** The position of the executor against the unrolled schedule. */
  ghost predicate Stands(schedule: seq<Item>, position: nat, k: nat)
    requires WellFormed(schedule)
  {
    if position >= |schedule| then !Loops(schedule) && k == |schedule|
    else
      && (k < |schedule| || Loops(schedule))
      && Place(schedule, k) == if schedule[position].Goto? then schedule[position].value else position
  }

  /**
   --retry and run_stop_schedule together: a string that is not a usage error is run with its meaning. Without
   a schedule, or in test mode, the signal is sent once.
   */
  method Stop(retry: Option<string>, signalNr: nat, testmode: bool, gone: seq<bool>, exitnodo: int)
    returns (badusage: bool, code: Option<int>, visited: seq<Item>)
    ensures badusage <==> retry.Some? && Parse(retry.value, signalNr) == None
    ensures !badusage && retry.Some? && !testmode ==>
      && WellFormed(Parse(retry.value, signalNr).value)
      && RunsTo(Parse(retry.value, signalNr).value, gone, exitnodo, visited, code)
    ensures !badusage && (retry == None || testmode) ==>
      code == if gone == [] then None else Some(if gone[0] then exitnodo else 0)
  {
    badusage, code, visited := false, None, [];
    var schedule: array?<Item> := null;
    if retry.Some? {
      schedule := ParseSchedule(retry.value, signalNr);
      if schedule == null {
        badusage := true;
        return;
      }
    }
    if testmode {
      schedule := null;
    }
    if schedule == null {
      if gone != [] {
        code := Some(if gone[0] then exitnodo else 0);
      }
    } else {
      ParsedIsWellFormed(retry.value, signalNr);
      code, visited := Execute(schedule, gone, exitnodo);
    }
  }
}