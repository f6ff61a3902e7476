/**
 The rolling file appender of tlog (tlog/source/appender/tlog_appender_rolling_file.c) as a retention structure:
 a ring of numbered backups and the current file, seen as bytes on disk. The file operations succeed.
 */
module RollingFile {
  import opened Basics

  // ----- what was logged, as text -----

  /** The bytes of a file that holds these messages. */
  function Text(messages: seq<string>): string {
    if messages == [] then "" else messages[0] + "\n" + Text(messages[1..])
  }

  lemma {:induction false} TextAppend(a: seq<string>, b: seq<string>)
    ensures Text(a + b) == Text(a) + Text(b)
  {
    if a == [] {
      assert a + b == b;
    } else {
      TextAppend(a[1..], b);
      assert (a + b)[1..] == a[1..] + b;
      ConcatAssociates(a[0] + "\n", Text(a[1..]), Text(b));
    }
  }

  lemma TextSnoc(a: seq<string>, message: string)
    ensures Text(a + [message]) == Text(a) + message + "\n"
  {
    TextAppend(a, [message]);
    assert Text([message]) == message + "\n";
  }

  // ----- the ring -----

  /** The number of the oldest file still on disk, when r files were rotated into n backups. */
  function Oldest(r: nat, n: nat): nat {
    if r > n then r - n else 0
  }

  /** After r rotations of `files`, backup k % n holds the k-th of them, for the last n of them, and there are
      no other backups. */
  ghost predicate RingHolds(backups: map<nat, string>, files: seq<seq<string>>, n: nat)
    requires n > 0
  {
    && (forall k :: Oldest(|files|, n) <= k < |files| ==>
          Slot(k, n) in backups && backups[Slot(k, n)] == Text(files[k]))
    && (forall i <- backups :: i < n && i < |files|)
  }

  /** k modulo n */
  function Slot(k: nat, n: nat): (slot: nat)
    requires n > 0
    ensures slot < n && slot <= k
    decreases k
  {
    if k < n then k else Slot(k - n, n)
  }

  lemma {:induction false} SlotsDiffer(j: nat, k: nat, n: nat)
    requires n > 0 && j < k < j + n
    ensures Slot(j, n) != Slot(k, n)
  {
    if j >= n {
      SlotsDiffer(j - n, k - n, n);
    } else if k >= n {
      assert Slot(k, n) == k - n;
    }
  }

  lemma {:induction false} NextSlot(k: nat, n: nat)
    requires n > 0
    ensures Slot(k + 1, n) == if Slot(k, n) + 1 == n then 0 else Slot(k, n) + 1
  {
    if k >= n {
      NextSlot(k - n, n);
    }
  }

  /** A rotation overwrites the slot of the file that was rotated n rotations ago. */
  lemma RotateKeepsRing(backups: map<nat, string>, files: seq<seq<string>>, n: nat, file: seq<string>)
    requires n > 0 && RingHolds(backups, files, n)
    ensures RingHolds(backups[Slot(|files|, n) := Text(file)], files + [file], n)
  {
    var r := |files|;
    forall k | Oldest(r + 1, n) <= k < r ensures Slot(k, n) != Slot(r, n) {
      SlotsDiffer(k, r, n);
    }
  }

  /** What a rotation does to the ring, to its index and to the log. */
  lemma Rotation(backups: map<nat, string>, files: seq<seq<string>>, n: nat, file: seq<string>)
    requires n > 0 && RingHolds(backups, files, n)
    ensures RingHolds(backups[Slot(|files|, n) := Text(file)], files + [file], n)
    ensures Slot(|files + [file]|, n) == if Slot(|files|, n) + 1 == n then 0 else Slot(|files|, n) + 1
    ensures Flatten(files + [file]) + [] == Flatten(files) + file
  {
    RotateKeepsRing(backups, files, n, file);
    NextSlot(|files|, n);
    FlattenSnoc(files, file);
  }

  /** The backups read from `index` on, all the way round the ring; a missing file reads as nothing. */
  function ReadRing(backups: map<nat, string>, index: nat, n: nat, steps: nat): string
    requires n > 0 && index < n
    decreases steps
  {
    if steps == 0 then ""
    else (if index in backups then backups[index] else "")
         + ReadRing(backups, if index + 1 == n then 0 else index + 1, n, steps - 1)
  }

  lemma {:induction false} ReadRest(backups: map<nat, string>, files: seq<seq<string>>, n: nat, k: nat)
    requires n > 0 && RingHolds(backups, files, n) && Oldest(|files|, n) <= k <= |files|
    ensures ReadRing(backups, Slot(k, n), n, |files| - k) == Text(Flatten(files[k..]))
    decreases |files| - k
  {
    if k == |files| {
      assert files[k..] == [];
    } else {
      NextSlot(k, n);
      ReadRest(backups, files, n, k + 1);
      assert files[k..][1..] == files[k + 1..];
      TextAppend(files[k], Flatten(files[k + 1..]));
    }
  }

  /** Before the ring is full, the slots from the index up are still empty. */
  lemma {:induction false} ReadEmpty(backups: map<nat, string>, index: nat, n: nat)
    requires n > 0 && index < n && forall i <- backups :: i < index
    ensures ReadRing(backups, index, n, n) == ReadRing(backups, 0, n, index)
  {
    SkipMissing(backups, index, n, n - index, index);
  }

  lemma {:induction false} SkipMissing(backups: map<nat, string>, i: nat, n: nat, missing: nat, rest: nat)
    requires 0 < missing == n - i && forall j <- backups :: j < i
    ensures ReadRing(backups, i, n, missing + rest) == ReadRing(backups, 0, n, rest)
    decreases missing
  {
    if missing > 1 {
      SkipMissing(backups, i + 1, n, missing - 1, rest);
    }
  }

  lemma ReadPartial(backups: map<nat, string>, files: seq<seq<string>>, n: nat)
    requires n > |files| && RingHolds(backups, files, n)
    ensures ReadRing(backups, |files|, n, n) == Text(Flatten(files))
  {
    ReadEmpty(backups, |files|, n);
    ReadRest(backups, files, n, 0);
    assert files[0..] == files;
  }

  /** Reading the whole ring from its index gives the last n rotated files, oldest first. */
  lemma ReadAll(backups: map<nat, string>, files: seq<seq<string>>, n: nat)
    requires n > 0 && RingHolds(backups, files, n)
    ensures ReadRing(backups, Slot(|files|, n), n, n) == Text(Flatten(files[Oldest(|files|, n)..]))
  {
    if |files| < n {
      ReadPartial(backups, files, n);
      assert files[0..] == files;
    } else {
      ReadRest(backups, files, n, |files| - n);
    }
  }

  // ----- sizes -----

  /** A file within the limit and its last newline, or with a single message. */
  ghost predicate WithinLimit(file: seq<string>, limit: nat) {
    |Text(file)| <= limit + 1 || |file| == 1
  }

  /** A file was only ended because the first message of the next did not fit. */
  ghost predicate Ends(file: seq<string>, next: seq<string>, limit: nat) {
    file != [] && (next != [] ==> |Text(file)| + |next[0]| > limit)
  }

  ghost predicate Sized(rotated: seq<seq<string>>, last: seq<string>, limit: nat) {
    && (forall k :: 0 <= k < |rotated| ==> WithinLimit(rotated[k], limit))
    && (forall j, k :: 0 <= j < k < |rotated| && k == j + 1 ==> Ends(rotated[j], rotated[k], limit))
    && (last != [] ==> WithinLimit(last, limit))
    && (rotated != [] ==> Ends(rotated[|rotated| - 1], last, limit))
  }

  lemma AppendFits(rotated: seq<seq<string>>, last: seq<string>, limit: nat, message: string)
    requires Sized(rotated, last, limit)
    requires last != [] ==> |Text(last)| + |message| <= limit
    requires last == [] && rotated != [] ==> |Text(rotated[|rotated| - 1])| + |message| > limit
    ensures Sized(rotated, last + [message], limit)
  {
    TextSnoc(last, message);
  }

  // ----- the appender -----

  class Appender {
    const maxFileSize: nat
    const maxBackupIndex: nat
    /** The directory: the bytes of the file under its own name (none while it does not exist), and the backups
        by number. */
    var current: string
    var backups: map<nat, string>
    /** fout != NULL */
    var isOpen: bool
    var index: nat

    /** The messages of every file rotated so far, oldest first, and of the current one. */
    ghost var rotated: seq<seq<string>>
    ghost var last: seq<string>

    /** The files hold what was logged. */
    ghost predicate OnDisk()
      reads this
    {
      && maxBackupIndex <= UINT32_MAX
      && RingHolds(backups, rotated, maxBackupIndex + 1)
      && index == Slot(|rotated|, maxBackupIndex + 1)
      && current == Text(last)
    }

    ghost predicate Valid()
      reads this
    {
      && OnDisk()
      && (isOpen <==> last != [])
      && (!isOpen ==> rotated == [])
      && Sized(rotated, last, maxFileSize)
    }

    /** Everything logged so far. */
    ghost function Logged(): seq<string>
      reads this`rotated, this`last
    {
      Flatten(rotated) + last
    }

    /** What is on disk, read in ring order and then the current file. */
    function Retained(): string
      requires index <= maxBackupIndex
      reads this
    {
      ReadRing(backups, index, maxBackupIndex + 1, maxBackupIndex + 1) + current
    }

    /** tlog_appender_rolling_file_init in an empty directory */
    constructor (maxFileSize: nat, maxBackupIndex: nat)
      requires maxBackupIndex <= UINT32_MAX
      ensures Valid() && Logged() == [] && this.maxFileSize == maxFileSize && this.maxBackupIndex == maxBackupIndex
    {
      this.maxFileSize, this.maxBackupIndex := maxFileSize, maxBackupIndex;
      current, backups, isOpen, index := "", map[], false, 0;
      rotated, last := [], [];
    }

    /** The branch that closes the file and renames it to the next backup. */
    method Rotate()
      requires Valid() && isOpen
      modifies this
      ensures rotated == old(rotated) + [old(last)] && last == []
      ensures Logged() == old(Logged())
      ensures OnDisk() && !isOpen && current == ""
    {
      ghost var n, files, file := maxBackupIndex + 1, rotated, last;
      ghost var kept := backups[index := current];
      Rotation(backups, files, n, file);
      isOpen := false;
      var path := index;
      index := if index == UINT32_MAX then 0 else index + 1;
      if index > maxBackupIndex {
        index := 0;
      }
      assert index == Slot(|files + [file]|, n);
      backups := backups[path := current];
      assert backups == kept;
      current := "";
      rotated, last := files + [file], [];
    }

    /** tlog_appender_rolling_file_log */
    method Log(message: string)
      requires Valid()
      modifies this
      ensures Valid() && isOpen && Logged() == old(Logged()) + [message]
      ensures |rotated| == |old(rotated)| +
        if old(isOpen) && |old(current)| + |message| > maxFileSize then 1 else 0
    {
      if isOpen {
        var fileSize := |current|;
        if fileSize + |message| > maxFileSize {
          Rotate();
        }
      }
      AppendFits(rotated, last, maxFileSize, message);
      Write(message);
    }

    /** The rest of it: the file is opened if need be and written to. */
    method Write(message: string)
      requires OnDisk() && (!isOpen ==> last == []) && Sized(rotated, last + [message], maxFileSize)
      modifies this`isOpen, this`current, this`last
      ensures Valid() && isOpen && Logged() == old(Logged()) + [message]
    {
      if !isOpen {
        isOpen := true;
      }
      current := current + message + "\n";
      TextSnoc(last, message);
      ConcatAssociates(Flatten(rotated), last, [message]);
      last := last + [message];
    }
  }

  // ----- what the ring promises -----

  /** How many messages are gone: those of the files before the oldest one kept. */
  ghost function Dropped(rotated: seq<seq<string>>, n: nat): nat {
    |Flatten(rotated[..Oldest(|rotated|, n)])|
  }

  /** The files up to `first` hold a prefix of everything, and the rest is the suffix behind it. */
  lemma SuffixFrom<T>(files: seq<seq<T>>, last: seq<T>, first: nat)
    requires first <= |files|
    ensures |Flatten(files[..first])| <= |Flatten(files) + last|
    ensures (Flatten(files) + last)[|Flatten(files[..first])|..] == Flatten(files[first..]) + last
  {
    assert files == files[..first] + files[first..];
    FlattenAppend(files[..first], files[first..]);
    DropFirst(Flatten(files[..first]), Flatten(files[first..]), last);
  }

  lemma DropFirst<T>(a: seq<T>, b: seq<T>, c: seq<T>)
    ensures (a + b + c)[|a|..] == b + c
  {
  }

  lemma NoneDropped<T>(files: seq<seq<T>>, first: nat)
    requires first <= |files| && (first > 0 ==> files[0] != [])
    ensures Flatten(files[..first]) == [] <==> first == 0
  {
    if first > 0 {
      assert files[..first][0] == files[0];
    }
  }

  /**
   The backups in ring order and then the current file are a suffix of everything logged, and are all of it
   exactly while there were at most max_backup_index + 1 rotations.
   */
  lemma RetainsSuffix(a: Appender)
    requires a.Valid()
    ensures a.index <= a.maxBackupIndex
    ensures Dropped(a.rotated, a.maxBackupIndex + 1) <= |a.Logged()|
    ensures a.Retained() == Text(a.Logged()[Dropped(a.rotated, a.maxBackupIndex + 1)..])
    ensures Dropped(a.rotated, a.maxBackupIndex + 1) == 0 <==> |a.rotated| <= a.maxBackupIndex + 1
  {
    var n := a.maxBackupIndex + 1;
    var first := Oldest(|a.rotated|, n);
    ReadAll(a.backups, a.rotated, n);
    TextAppend(Flatten(a.rotated[first..]), a.last);
    SuffixFrom(a.rotated, a.last, first);
    if first > 0 {
      FirstNotEmpty(a.rotated, a.last, a.maxFileSize);
    }
    NoneDropped(a.rotated, first);
  }

  lemma FirstNotEmpty(rotated: seq<seq<string>>, last: seq<string>, limit: nat)
    requires rotated != [] && Sized(rotated, last, limit)
    ensures rotated[0] != []
  {
    if |rotated| > 1 {
      assert Ends(rotated[0], rotated[1], limit);
    }
  }

  /** At every moment no file on disk is larger than max_file_size and one newline, unless it holds a single
      message. */
  lemma FilesAreSmall(a: Appender)
    requires a.Valid()
    ensures |a.current| <= a.maxFileSize + 1 || exists message :: a.current == Text([message])
    ensures forall i <- a.backups ::
      |a.backups[i]| <= a.maxFileSize + 1 || exists message :: a.backups[i] == Text([message])
  {
    if |a.last| == 1 {
      assert a.last == [a.last[0]];
    }
    var n, r := a.maxBackupIndex + 1, |a.rotated|;
    forall i <- a.backups
      ensures |a.backups[i]| <= a.maxFileSize + 1 || exists message :: a.backups[i] == Text([message])
    {
      var k := LastIn(i, n, r);
      var file := a.rotated[k];
      assert WithinLimit(file, a.maxFileSize);
      if |file| == 1 {
        assert file == [file[0]];
      }
    }
  }

  /** The last rotation that wrote backup i. */
  lemma {:induction false} LastIn(i: nat, n: nat, r: nat) returns (k: nat)
    requires i < n && i < r
    ensures Oldest(r, n) <= k < r && Slot(k, n) == i
    decreases r
  {
    if r <= n {
      k := i;
    } else if i < r - n {
      k := LastIn(i, n, r - n);
      k := k + n;
    } else {
      k := i;
    }
  }

  // ----- how much survives -----

  ghost predicate Joined(files: seq<seq<string>>, j: nat, limit: nat)
    requires j + 1 < |files|
  {
    files[j + 1] != [] && Ends(files[j], files[j + 1], limit)
  }

  ghost predicate Filled(files: seq<seq<string>>, limit: nat) {
    forall j: nat :: j + 1 < |files| ==> Joined(files, j, limit)
  }

  /** The size of n files filled to the limit, each with its last newline: n * (limit + 1). */
  ghost function Full(n: nat, limit: nat): nat {
    if n == 0 then 0 else Full(n - 1, limit) + limit + 1
  }

  /** Two neighbours together exceed the limit, so that on average every file is more than half full. */
  lemma {:induction false} FilledHalf(files: seq<seq<string>>, limit: nat)
    requires files != [] && Filled(files, limit)
    ensures 2 * |Text(Flatten(files))| >= Full(|files| - 1, limit) + |Text(files[0])|
  {
    var more := files[1..];
    TextAppend(files[0], Flatten(more));
    if more == [] {
      assert files == [files[0]];
    } else {
      forall j: nat | j + 1 < |more| ensures Joined(more, j, limit) {
        assert Joined(files, j + 1, limit);
      }
      FilledHalf(more, limit);
      assert Joined(files, 0, limit);
      assert |Text(more[0])| > |more[0][0]|;
    }
  }

  /** Once messages are gone, what is on disk is at least half of what the backups may hold. */
  lemma RetainsHalf(a: Appender)
    requires a.Valid() && a.isOpen && Dropped(a.rotated, a.maxBackupIndex + 1) > 0
    ensures a.index <= a.maxBackupIndex && 2 * |a.Retained()| >= Full(a.maxBackupIndex + 1, a.maxFileSize)
  {
    RingHalf(a.backups, a.rotated, a.last, a.maxFileSize, a.maxBackupIndex + 1);
  }

  lemma RingHalf(backups: map<nat, string>, rotated: seq<seq<string>>, last: seq<string>, limit: nat, n: nat)
    requires n > 0 && RingHolds(backups, rotated, n) && Sized(rotated, last, limit) && last != []
    requires Dropped(rotated, n) > 0
    ensures 2 * |ReadRing(backups, Slot(|rotated|, n), n, n) + Text(last)| >= Full(n, limit)
  {
    DroppedRotates(rotated, n);
    ReadAll(backups, rotated, n);
    KeptHalf(rotated, last, limit, n);
  }

  lemma DroppedRotates(rotated: seq<seq<string>>, n: nat)
    requires Dropped(rotated, n) > 0
    ensures |rotated| > n
  {
  }

  lemma KeptHalf(rotated: seq<seq<string>>, last: seq<string>, limit: nat, n: nat)
    requires Sized(rotated, last, limit) && last != [] && |rotated| > n
    ensures 2 * |Text(Flatten(rotated[|rotated| - n..])) + Text(last)| >= Full(n, limit)
  {
    var kept := rotated[|rotated| - n..];
    KeptFilled(rotated, last, limit, n);
    FilledHalf(kept + [last], limit);
    FlattenSnoc(kept, last);
    TextAppend(Flatten(kept), last);
  }

  lemma KeptFilled(rotated: seq<seq<string>>, last: seq<string>, limit: nat, n: nat)
    requires Sized(rotated, last, limit) && last != [] && |rotated| > n
    ensures Filled(rotated[|rotated| - n..] + [last], limit)
  {
    var files := rotated[|rotated| - n..] + [last];
    forall j: nat | j + 1 < |files| ensures Joined(files, j, limit) {
      NeighbourEnds(rotated, last, limit, |rotated| - n + j);
    }
  }

  lemma NeighbourEnds(rotated: seq<seq<string>>, last: seq<string>, limit: nat, j: nat)
    requires Sized(rotated, last, limit) && last != [] && j < |rotated|
    ensures var next := if j + 1 < |rotated| then rotated[j + 1] else last;
      next != [] && Ends(rotated[j], next, limit)
  {
    if j + 2 < |rotated| {
      assert Ends(rotated[j + 1], rotated[j + 2], limit);
    }
  }

  /** All but the first `dropped` messages were retained, the last one among them; and at least half of what the backups
      may hold once any are gone. */
  ghost predicate RetainedFrom(
      retained: string, messages: seq<string>, dropped: nat, maxFileSize: nat, maxBackupIndex: nat)
  {
    && dropped <= |messages| && retained == Text(messages[dropped..])
    && (messages != [] ==> dropped < |messages|)
    && (dropped > 0 ==> 2 * |retained| >= Full(maxBackupIndex + 1, maxFileSize))
  }

  /**
   Logging into an empty directory, as a client does. What is on disk afterwards is the text of all but some first
   messages, never the last; and once any are gone, the disk is at least half full.
   */
  method LogAll(maxFileSize: nat, maxBackupIndex: nat, messages: seq<string>)
    returns (retained: string)
    requires maxBackupIndex <= UINT32_MAX
    ensures exists dropped: nat :: RetainedFrom(retained, messages, dropped, maxFileSize, maxBackupIndex)
  {
    var a := new Appender(maxFileSize, maxBackupIndex);
    LogEach(a, messages);
    assert [] + messages == messages;
    ghost var dropped;
    retained, dropped := ReadBack(a);
  }

  lemma PrefixSnoc<T>(s: seq<T>, i: nat)
    requires i < |s|
    ensures s[..i + 1] == s[..i] + [s[i]]
  {
  }

  method LogEach(a: Appender, messages: seq<string>)
    requires a.Valid()
    modifies a
    ensures a.Valid() && a.Logged() == old(a.Logged()) + messages && (messages != [] ==> a.isOpen)
  {
    var i := 0;
    while i < |messages|
      invariant i <= |messages| && a.Valid() && a.Logged() == old(a.Logged()) + messages[..i] && (i > 0 ==> a.isOpen)
    {
      a.Log(messages[i]);
      PrefixSnoc(messages, i);
      i := i + 1;
    }
    assert messages[..i] == messages;
  }

  /** The bytes on disk, and which messages they are. */
  method ReadBack(a: Appender) returns (retained: string, ghost dropped: nat)
    requires a.Valid() && (a.Logged() != [] ==> a.isOpen)
    ensures RetainedFrom(retained, a.Logged(), dropped, a.maxFileSize, a.maxBackupIndex)
  {
    RetainsSuffix(a);
    SuffixFrom(a.rotated, a.last, Oldest(|a.rotated|, a.maxBackupIndex + 1));
    retained, dropped := a.Retained(), Dropped(a.rotated, a.maxBackupIndex + 1);
    if dropped > 0 {
      RetainsHalf(a);
    }
  }
}
