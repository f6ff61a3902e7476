/**
 Writing a retry schedule down: every list of timeouts, signals and `forever`, written with slashes the way a user
 would, is read back by the parser of StopSchedule as exactly that list.
 */
module StopText {
  import opened Basics
  import opened StopSchedule

  function Digit(d: nat): char
    requires d < 10
  {
    '0' + d as char
  }

  /** A number in decimal. */
  function Dec(n: nat): (s: string)
    ensures s != []
  {
    if n < 10 then [Digit(n)] else Dec(n / 10) + [Digit(n % 10)]
  }

  lemma {:induction false} DecDigits(n: nat)
    ensures AllDigits(Dec(n)) && Digits(Dec(n)) == n
    decreases n
  {
    if n >= 10 {
      DecDigits(n / 10);
      var s := Dec(n);
      assert s[..|s| - 1] == Dec(n / 10) && s[|s| - 1] == Digit(n % 10);
    } else {
      assert Digits([]) == 0 && [Digit(n)][..0] == [];
    }
  }

  function Pow10(k: nat): nat {
    if k == 0 then 1 else 10 * Pow10(k - 1)
  }

  lemma {:induction false} DecLength(n: nat, k: nat)
    requires 0 < k && n < Pow10(k)
    ensures |Dec(n)| <= k
    decreases k
  {
    assert Pow10(1) == 10 * Pow10(0);
    if n >= 10 {
      DecLength(n / 10, k - 1);
    }
  }

  lemma TenDigits(n: nat)
    requires n <= INT_MAX
    ensures |Dec(n)| <= 10
  {
    assert Pow10(2) == 100 && Pow10(4) == 100 * Pow10(2) && Pow10(6) == 100 * Pow10(4);
    assert Pow10(8) == 100 * Pow10(6) && Pow10(10) == 100 * Pow10(8);
    DecLength(n, 10);
  }

  // ----- numbers -----

  ghost predicate AllSpaces(s: string) {
    forall i :: 0 <= i < |s| ==> IsSpace(s[i])
  }

  /** A text that stands for a number: blanks, a sign or none, and digits; only zero may be negative. */
  ghost predicate Number(s: string, n: nat) {
    n <= INT_MAX && exists blanks, sign, digits :: Reads(s, n, blanks, sign, digits)
  }

  ghost predicate Reads(s: string, n: nat, blanks: string, sign: string, digits: string) {
    && s == blanks + sign + digits && AllSpaces(blanks)
    && digits != [] && AllDigits(digits) && Digits(digits) == n
    && (sign == "" || sign == "+" || (sign == "-" && n == 0))
  }

  lemma {:induction false} SkipSpaces(blanks: string, rest: string)
    requires AllSpaces(blanks) && (rest == [] || !IsSpace(rest[0]))
    ensures SkipSpace(blanks + rest) == rest
  {
    if blanks == [] {
      assert blanks + rest == rest;
    } else {
      assert (blanks + rest)[0] == blanks[0] && (blanks + rest)[1..] == blanks[1..] + rest;
      SkipSpaces(blanks[1..], rest);
    }
  }

  lemma {:induction false} SpacesSkipped(s: string) returns (blanks: string)
    ensures s == blanks + SkipSpace(s) && AllSpaces(blanks)
  {
    if s != [] && IsSpace(s[0]) {
      blanks := SpacesSkipped(s[1..]);
      blanks := [s[0]] + blanks;
      assert s == [s[0]] + s[1..];
    } else {
      blanks := [];
      assert s == blanks + s;
    }
  }

  lemma NumberIsParsed(s: string, n: nat, blanks: string, sign: string, digits: string)
    requires n <= INT_MAX && Reads(s, n, blanks, sign, digits)
    ensures ParseUnsigned(s) == Some(n)
  {
    var t := sign + digits;
    assert s == blanks + t;
    SkipSpaces(blanks, t);
    assert SkipSpace(s) == t;
    if sign != "" {
      assert t[0] == sign[0] && t[1..] == digits;
    } else {
      assert t == digits && IsDigit(t[0]);
    }
  }

  lemma ParsedIsNumber(s: string, n: nat)
    requires ParseUnsigned(s) == Some(n)
    ensures Number(s, n)
  {
    var blanks := SpacesSkipped(s);
    var t := SkipSpace(s);
    if t[0] == '-' || t[0] == '+' {
      ReadsParts(s, n, blanks, [t[0]], t[1..]);
    } else {
      ReadsParts(s, n, blanks, "", t);
    }
  }

  lemma ReadsParts(s: string, n: nat, blanks: string, sign: string, digits: string)
    requires n <= INT_MAX && s == blanks + (sign + digits) && AllSpaces(blanks)
    requires digits != [] && AllDigits(digits) && Digits(digits) == n
    requires sign == "" || sign == "+" || (sign == "-" && n == 0)
    ensures Number(s, n)
  {
    ConcatAssociates(blanks, sign, digits);
    assert Reads(s, n, blanks, sign, digits);
  }

  /** parse_unsigned accepts exactly the numbers, with their value. */
  lemma NumberExactly(s: string, n: nat)
    ensures ParseUnsigned(s) == Some(n) <==> Number(s, n)
  {
    if ParseUnsigned(s) == Some(n) {
      ParsedIsNumber(s, n);
    }
    if Number(s, n) {
      var blanks, sign, digits :| Reads(s, n, blanks, sign, digits);
      NumberIsParsed(s, n, blanks, sign, digits);
    }
  }

  lemma NumberReadsBack(n: nat)
    requires n <= INT_MAX
    ensures IsDigit(Dec(n)[0]) && Number(Dec(n), n)
  {
    DecDigits(n);
    var s := Dec(n);
    assert IsDigit(s[0]);
    assert s == "" + "" + s;
    assert Reads(s, n, "", "", s);
  }

  // ----- names of signals -----

  /** The signals of signal(7) that --retry knows by name. */
  function NameOf(signal: nat): Option<string> {
    match signal
    case 1 => Some("HUP") case 2 => Some("INT") case 3 => Some("QUIT") case 4 => Some("ILL")
    case 6 => Some("ABRT") case 8 => Some("FPE") case 9 => Some("KILL") case 10 => Some("USR1")
    case 11 => Some("SEGV") case 12 => Some("USR2") case 13 => Some("PIPE") case 14 => Some("ALRM")
    case 15 => Some("TERM") case 17 => Some("CHLD") case 18 => Some("CONT") case 19 => Some("STOP")
    case 20 => Some("TSTP") case 21 => Some("TTIN") case 22 => Some("TTOU")
    case _ => None
  }

  /** Three or four letters, as one number. */
  function Letters(s: string): nat
    requires 3 <= |s| <= 4
  {
    0x100_0000 * s[0] as nat + 0x1_0000 * s[1] as nat + 0x100 * s[2] as nat + if |s| == 4 then s[3] as nat else 0
  }

  lemma NameLetters(signal: nat)
    requires NameOf(signal).Some?
    ensures var name := NameOf(signal).value;
      && 3 <= |name| <= 4 && name[0] != '-' && name[0] != 'f' && !IsDigit(name[0]) && !IsSpace(name[0]) && name[0] != '+'
      && '/' !in name
  {
  }

  /** No two signals have the same name. */
  lemma NamesDiffer(a: nat, b: nat)
    requires NameOf(a).Some? && NameOf(a) == NameOf(b)
    ensures a == b
  {
    NameLetters(a);
    var k := Letters(NameOf(a).value);
    assert k == Letters(NameOf(b).value);
  }

  lemma {:induction false} FirstNamed(s: string, list: seq<(string, nat)>)
    ensures SignalNamed(s, list).Some? ==>
      exists i :: 0 <= i < |list| && list[i] == (s, SignalNamed(s, list).value)
    ensures (exists i :: 0 <= i < |list| && list[i].0 == s) ==> SignalNamed(s, list).Some?
  {
    if list != [] && list[0].0 != s {
      FirstNamed(s, list[1..]);
      if SignalNamed(s, list).Some? {
        var i :| 0 <= i < |list[1..]| && list[1..][i] == (s, SignalNamed(s, list).value);
        assert list[i + 1] == (s, SignalNamed(s, list).value);
      }
      if i :| 0 <= i < |list| && list[i].0 == s {
        assert list[1..][i - 1].0 == s;
      }
    } else if list != [] {
      assert list[0] == (s, SignalNamed(s, list).value);
    }
  }

  /** The table lists exactly these names. */
  lemma ListHasNames()
    ensures forall i :: 0 <= i < |SIGLIST| ==> NameOf(SIGLIST[i].1) == Some(SIGLIST[i].0)
  {
  }

  lemma NameIsListed(signal: nat)
    requires NameOf(signal).Some?
    ensures exists i :: 0 <= i < |SIGLIST| && SIGLIST[i] == (NameOf(signal).value, signal)
  {
    var at := [-1, 3, 5, 8, 4, -1, 0, -1, 2, 6, 11, 9, 12, 7, 1, 10, -1, 13, 14, 15, 16, 17, 18];
    assert SIGLIST[at[signal]] == (NameOf(signal).value, signal);
  }

  lemma NamedExactly(s: string, signal: nat)
    ensures SignalNamed(s, SIGLIST) == Some(signal) <==> NameOf(signal) == Some(s)
  {
    FirstNamed(s, SIGLIST);
    ListHasNames();
    if NameOf(signal) == Some(s) {
      NameIsListed(signal);
      NamesDiffer(signal, SignalNamed(s, SIGLIST).value);
    }
  }

  // ----- one item -----

  /** What a piece of the list stands for. */
  ghost predicate Denotes(piece: string, item: Item) {
    match item
    case Forever => piece == "forever"
    case Timeout(t) => piece != [] && IsDigit(piece[0]) && Number(piece, t)
    case Signal(nr) =>
      && piece != "forever" && !(piece != [] && IsDigit(piece[0]))
      && exists word :: AfterHyphen(piece, word) && (Number(word, nr) || NameOf(nr) == Some(word))
    case Goto(_) => false
  }

  /** One hyphen in front is dropped. */
  ghost predicate AfterHyphen(piece: string, word: string) {
    piece == "-" + word || (piece == word && (word == [] || word[0] != '-'))
  }

  lemma NameIsNoNumber(signal: nat)
    requires NameOf(signal).Some?
    ensures ParseUnsigned(NameOf(signal).value) == None
  {
    NameLetters(signal);
  }

  lemma SignalExactly(word: string, nr: nat)
    ensures ParseSignal(word) == Some(nr) <==> Number(word, nr) || NameOf(nr) == Some(word)
  {
    NumberExactly(word, nr);
    NamedExactly(word, nr);
    if NameOf(nr) == Some(word) {
      NameIsNoNumber(nr);
    }
  }

  /** A piece is read as an item if and only if it is short enough and stands for that item; so every other piece,
      one that is neither a number, a listed name nor `forever`, is refused. */
  lemma PieceExactly(piece: string, item: Item)
    ensures ParsePiece(piece) == Some(item) <==> |piece| < 20 && Denotes(piece, item)
  {
    var word := if piece != [] && piece[0] == '-' then piece[1..] else piece;
    assert piece == if piece != [] && piece[0] == '-' then "-" + word else word;
    forall w | AfterHyphen(piece, w) ensures w == word {
      if piece == "-" + w {
        assert piece[1..] == w;
      }
    }
    match item
    case Forever =>
    case Timeout(t) => NumberExactly(piece, t);
    case Signal(nr) => SignalExactly(word, nr);
    case Goto(_) =>
  }

  predicate Writable(item: Item) {
    match item
    case Timeout(value) => value <= INT_MAX
    case Signal(value) => value <= INT_MAX
    case Forever => true
    case Goto(_) => false
  }

  /** A signal may be written as a number, which takes a hyphen, or by its name, with or without one. */
  datatype Style = Numbered | Named | Hyphenated

  datatype Word = Word(item: Item, style: Style)

  predicate WordOk(w: Word) {
    Writable(w.item) && (w.item.Signal? && !w.style.Numbered? ==> NameOf(w.item.value).Some?)
  }

  function Show(w: Word): string
    requires WordOk(w)
  {
    match w.item
    case Timeout(value) => Dec(value)
    case Forever => "forever"
    case Signal(value) =>
      match w.style
      case Numbered => "-" + Dec(value)
      case Named => NameOf(value).value
      case Hyphenated => "-" + NameOf(value).value
  }

  /** What is written for an item is not too long, has no slash, and is read back as that item. */
  lemma ItemReadsBack(w: Word)
    requires WordOk(w)
    ensures '/' !in Show(w) && ParsePiece(Show(w)) == Some(w.item)
  {
    match w.item
    case Forever =>
      PieceExactly("forever", Forever);
    case Timeout(value) =>
      NumberReadsBack(value);
      TenDigits(value);
      DecDigits(value);
      PieceExactly(Dec(value), w.item);
    case Signal(value) =>
      SignalReadsBack(w);
  }

  lemma SignalReadsBack(w: Word)
    requires WordOk(w) && w.item.Signal?
    ensures '/' !in Show(w) && ParsePiece(Show(w)) == Some(w.item)
  {
    var nr := w.item.value;
    if w.style.Numbered? {
      NumberReadsBack(nr);
      TenDigits(nr);
      DecDigits(nr);
    } else {
      NameLetters(nr);
    }
    var word := if w.style.Numbered? then Dec(nr) else NameOf(nr).value;
    assert AfterHyphen(Show(w), word);
    StartsNot(Show(w));
    PieceExactly(Show(w), w.item);
  }

  lemma StartsNot(s: string)
    requires s != [] && s[0] != 'f'
    ensures s != "forever"
  {
  }

  // ----- a list -----

  function Write(words: seq<Word>): string
    requires |words| > 0 && forall i :: 0 <= i < |words| ==> WordOk(words[i])
  {
    if |words| == 1 then Show(words[0]) else Show(words[0]) + "/" + Write(words[1..])
  }

  function Items(words: seq<Word>): (items: seq<Item>)
    ensures |items| == |words|
  {
    if words == [] then [] else [words[0].item] + Items(words[1..])
  }

  /** Reading cuts the first piece off again. */
  lemma PiecesOfGlued(first: string, rest: string)
    requires '/' !in first
    ensures Pieces(first) == [first] && Pieces(first + "/" + rest) == [first] + Pieces(rest)
  {
    assert first[..|first|] == first;
    PiecesStep(first, |first|);
    var s := first + "/" + rest;
    assert s[..|first|] == first && s[|first|] == '/' && s[|first| + 1..] == rest;
    PiecesStep(s, |first|);
  }

  lemma ParseCons(piece: string, item: Item, pieces: seq<string>, items: seq<Item>)
    requires ParsePiece(piece) == Some(item) && ParseAll(pieces) == Some(items)
    ensures ParseAll([piece] + pieces) == Some([item] + items)
  {
    assert ([piece] + pieces)[1..] == pieces;
  }

  lemma OneReadsBack(w: Word)
    requires WordOk(w)
    ensures ParseAll(Pieces(Write([w]))) == Some([w.item]) && |Pieces(Write([w]))| == 1
  {
    ItemReadsBack(w);
    PiecesOfGlued(Show(w), "");
    ParseCons(Show(w), w.item, [], []);
    assert [w.item] + [] == [w.item] && [Show(w)] + [] == [Show(w)];
  }

  lemma {:induction false} ListReadsBack(words: seq<Word>)
    requires |words| > 0 && forall i :: 0 <= i < |words| ==> WordOk(words[i])
    ensures ParseAll(Pieces(Write(words))) == Some(Items(words)) && |Pieces(Write(words))| == |words|
    decreases |words|
  {
    var w := words[0];
    if |words| == 1 {
      assert words == [w] && Items(words) == [w.item];
      OneReadsBack(w);
    } else {
      var rest := Write(words[1..]);
      ItemReadsBack(w);
      PiecesOfGlued(Show(w), rest);
      ListReadsBack(words[1..]);
      ParseCons(Show(w), w.item, Pieces(rest), Items(words[1..]));
    }
  }

  /** A schedule of two items or more is understood as written, however its signals are spelled: accepted if and only
      if the list has a meaning, and then as that meaning. */
  lemma ScheduleReadsBack(words: seq<Word>, signalNr: nat)
    requires |words| > 1 && forall i :: 0 <= i < |words| ==> WordOk(words[i])
    ensures Parse(Write(words), signalNr).Some? <==> exists schedule :: Means(Items(words), schedule)
    ensures Parse(Write(words), signalNr).Some? ==> Means(Items(words), Parse(Write(words), signalNr).value)
  {
    ListReadsBack(words);
    PiecesCount(Write(words));
    CollectMeans(Items(words));
  }

  // ----- every string -----

  function Join(pieces: seq<string>): string
    requires |pieces| > 0
  {
    if |pieces| == 1 then pieces[0] else pieces[0] + "/" + Join(pieces[1..])
  }

  ghost predicate NoSlashes(pieces: seq<string>) {
    forall i :: 0 <= i < |pieces| ==> '/' !in pieces[i]
  }

  lemma {:induction false} PiecesOfJoin(pieces: seq<string>)
    requires |pieces| > 0 && NoSlashes(pieces)
    ensures Pieces(Join(pieces)) == pieces
  {
    if |pieces| == 1 {
      PiecesOfGlued(pieces[0], "");
    } else {
      PiecesOfJoin(pieces[1..]);
      PiecesOfGlued(pieces[0], Join(pieces[1..]));
    }
  }

  lemma {:induction false} JoinOfPieces(s: string)
    ensures Join(Pieces(s)) == s && NoSlashes(Pieces(s))
    decreases |s|
  {
    if s != [] {
      var rest := Pieces(s[1..]);
      JoinOfPieces(s[1..]);
      assert s == [s[0]] + s[1..];
      if s[0] == '/' {
        assert ([""] + rest)[1..] == rest;
      } else {
        var pieces := [[s[0]] + rest[0]] + rest[1..];
        assert pieces[1..] == rest[1..];
        if |rest| > 1 {
          ConcatAssociates([s[0]], rest[0], "/");
          ConcatAssociates([s[0]], rest[0] + "/", Join(rest[1..]));
        }
      }
    }
  }

  /** The pieces stand for these items, one by one. */
  ghost predicate AllDenote(pieces: seq<string>, items: seq<Item>) {
    && |pieces| == |items|
    && forall i :: 0 <= i < |pieces| ==> |pieces[i]| < 20 && Denotes(pieces[i], items[i])
  }

  lemma {:induction false} ParseAllExactly(pieces: seq<string>, items: seq<Item>)
    ensures ParseAll(pieces) == Some(items) <==> AllDenote(pieces, items)
  {
    if pieces != [] && items != [] {
      PieceExactly(pieces[0], items[0]);
      ParseAllExactly(pieces[1..], items[1..]);
      assert items == [items[0]] + items[1..];
      assert forall i :: 0 < i < |pieces| ==> pieces[i] == pieces[1..][i - 1];
      assert forall i :: 0 < i < |items| ==> items[i] == items[1..][i - 1];
    }
  }

  lemma {:induction false} SlashesCounted(s: string)
    ensures Slashes(s) > 0 <==> '/' in s
  {
    if s != [] {
      SlashesCounted(s[1..]);
      assert s == [s[0]] + s[1..];
    }
  }

  /** A list has one meaning at most. */
  lemma MeansOne(items: seq<Item>, a: seq<Item>, b: seq<Item>)
    requires Means(items, a) && Means(items, b)
    ensures a == b
  {
    if p: nat :| p < |items| - 1 && items[p] == Forever {
      OnlyForever(items, p, a);
      OnlyForever(items, p, b);
    }
  }

  /** What the user meant: a single timeout, or items between slashes. */
  ghost predicate Intends(s: string, signalNr: nat, schedule: seq<Item>) {
    if '/' !in s then
      exists t :: Denotes(s, Timeout(t)) && schedule == [Signal(signalNr), Timeout(t), Signal(SIGKILL), Timeout(t)]
    else
      exists pieces, items ::
        && |pieces| > 0 && NoSlashes(pieces) && Join(pieces) == s && AllDenote(pieces, items) && Means(items, schedule)
  }

  /** The parser accepts a string if and only if it intends a schedule, and then that one. */
  lemma ParseExactly(s: string, signalNr: nat, schedule: seq<Item>)
    ensures Parse(s, signalNr) == Some(schedule) <==> Intends(s, signalNr, schedule)
  {
    SlashesCounted(s);
    if '/' !in s {
      TimeoutExactly(s, signalNr, schedule);
    } else {
      JoinOfPieces(s);
      if ParseAll(Pieces(s)).Some? {
        var items := ParseAll(Pieces(s)).value;
        ParseAllExactly(Pieces(s), items);
        CollectMeans(items);
      }
      if Intends(s, signalNr, schedule) {
        var pieces, items :|
          |pieces| > 0 && NoSlashes(pieces) && Join(pieces) == s && AllDenote(pieces, items) && Means(items, schedule);
        PiecesOfJoin(pieces);
        ParseAllExactly(pieces, items);
        CollectMeans(items);
        MeansOne(items, schedule, Collect(items, [], None).value);
      }
    }
  }

  lemma TimeoutExactly(s: string, signalNr: nat, schedule: seq<Item>)
    requires '/' !in s
    ensures Parse(s, signalNr) == Some(schedule) <==> Intends(s, signalNr, schedule)
  {
    SlashesCounted(s);
    if ParseUnsigned(s).Some? {
      NumberExactly(s, ParseUnsigned(s).value);
    }
    forall t: nat | Number(s, t) ensures ParseUnsigned(s) == Some(t) {
      NumberExactly(s, t);
    }
    if Parse(s, signalNr) == Some(schedule) {
      assert Denotes(s, Timeout(schedule[1].value));
    }
  }

  /** A single timeout stands for: signal, wait, kill, wait. */
  lemma TimeoutReadsBack(t: nat, signalNr: nat)
    requires t <= INT_MAX
    ensures Parse(Dec(t), signalNr) == Some([Signal(signalNr), Timeout(t), Signal(SIGKILL), Timeout(t)])
  {
    var w := Word(Timeout(t), Numbered);
    ListReadsBack([w]);
    PiecesCount(Write([w]));
    ItemReadsBack(w);
  }

  /** TERM/5/KILL/5 */
  lemma NamesInASchedule(signalNr: nat)
    ensures Parse("TERM/5/KILL/5", signalNr) == Some([Signal(15), Timeout(5), Signal(9), Timeout(5)])
  {
    var words := [Word(Signal(15), Named), Word(Timeout(5), Numbered), Word(Signal(9), Named), Word(Timeout(5), Numbered)];
    var rest := words[1..];
    assert rest[1..] == words[2..] && words[2..][1..] == words[3..];
    assert Write(words) == "TERM" + "/" + ("5" + "/" + ("KILL" + "/" + "5"));
    assert Write(words) == "TERM/5/KILL/5";
    assert Items(words) == [Signal(15), Timeout(5), Signal(9), Timeout(5)];
    ScheduleReadsBack(words, signalNr);
    assert Means(Items(words), Items(words));
  }
}
