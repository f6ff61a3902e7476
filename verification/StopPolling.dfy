/**
 do_stop_timeout of start-stop-daemon: polling for processes to exit until a timeout. The struct timeval
 arithmetic of the source is proved to be integer arithmetic in microseconds, and the polling algorithm is
 proved against a description in microseconds.

 The clock is arbitrary: it may stand still or step back. The pause itself (select) is not relied on, since a
 signal can cut it short.
 */
module StopPolling {
  import opened Basics

  const MICROS: int := 1_000_000
  const MIN_POLL_INTERVAL: int := 20_000

  // ----- struct timeval -----

  datatype Timeval = Timeval(sec: int, usec: int)

  function Micros(t: Timeval): int {
    t.sec * MICROS + t.usec
  }

  /** What gettimeofday returns. */
  predicate Normal(t: Timeval) {
    0 <= t.usec < MICROS
  }

  /** The division of C, towards zero. */
  function Quot(a: int, b: int): int
    requires b > 0
  {
    if a >= 0 then a / b else -(-a / b)
  }

  function Rem(a: int, b: int): int
    requires b > 0
  {
    a - b * Quot(a, b)
  }

  function Tmul(a: Timeval, b: int): Timeval {
    Timeval(a.sec * b + Quot(a.usec * b, MICROS), Rem(a.usec * b, MICROS))
  }

  /** timersub */
  function Sub(a: Timeval, b: Timeval): Timeval {
    var d := Timeval(a.sec - b.sec, a.usec - b.usec);
    if d.usec < 0 then Timeval(d.sec - 1, d.usec + MICROS) else d
  }

  /** timercmp with <; the one with > is this with its operands exchanged. */
  predicate Less(a: Timeval, b: Timeval) {
    if a.sec == b.sec then a.usec < b.usec else a.sec < b.sec
  }

  lemma TmulIsExact(a: Timeval, b: int)
    ensures Micros(Tmul(a, b)) == Micros(a) * b
    ensures -MICROS < Tmul(a, b).usec < MICROS
    ensures Normal(a) && b >= 0 ==> Normal(Tmul(a, b))
  {
    calc {
      Micros(Tmul(a, b));
      a.sec * b * MICROS + a.usec * b;
      { TimesBoth(a.sec, MICROS, a.usec, b); }
      Micros(a) * b;
    }
    if a.usec >= 0 && b >= 0 {
      assert a.usec * b >= 0;
    }
  }

  lemma TimesBoth(s: int, m: int, u: int, b: int)
    ensures s * b * m + u * b == (s * m + u) * b
  {
  }

  lemma SubIsExact(a: Timeval, b: Timeval)
    requires Normal(a) && Normal(b)
    ensures Normal(Sub(a, b)) && Micros(Sub(a, b)) == Micros(a) - Micros(b)
  {
  }

  lemma LessIsExact(a: Timeval, b: Timeval)
    requires Normal(a) && Normal(b)
    ensures Less(a, b) <==> Micros(a) < Micros(b)
  {
  }

  // ----- the polling loop in microseconds -----

  /** One turn of the loop: the clock before do_stop, whether it found a process, the clock after it. */
  datatype Round = Round(before: Timeval, killed: bool, after: Timeval)

  function Max(a: int, b: int): int {
    if a >= b then a else b
  }

  /** The i-th pause takes min(10, i + 2) times as long as the poll did, within the time remaining, and at
      least 20 ms. */
  function Pause(i: nat, round: Round, stopat: int): int {
    var elapsed := Micros(round.after) - Micros(round.before);
    var remaining := stopat - Micros(round.after);
    Max(MIN_POLL_INTERVAL, if remaining < Max(0, elapsed * Min(10, i + 2)) then remaining
                           else Max(0, elapsed * Min(10, i + 2)))
  }

  /** The loop goes on after this round. */
  predicate GoesOn(round: Round, stopat: int) {
    Micros(round.before) <= stopat && round.killed && Micros(round.after) < stopat
  }

  /** The result of the last round: late or still there is false, gone in time is true. */
  predicate Verdict(round: Round, stopat: int) {
    Micros(round.before) <= stopat && !round.killed
  }

  predicate Clock(rounds: seq<Round>) {
    forall i :: 0 <= i < |rounds| ==> Normal(rounds[i].before) && Normal(rounds[i].after)
  }

  /** What a run of the loop does: how many rounds it begins, its pauses and its result; no result when the
      rounds end while it is still polling. */
  ghost predicate Polls(stopat: int, rounds: seq<Round>, pauses: seq<Timeval>, gone: Option<bool>) {
    && |pauses| <= |rounds|
    && (forall i :: 0 <= i < |pauses| ==>
          GoesOn(rounds[i], stopat) && Normal(pauses[i]) && Micros(pauses[i]) == Pause(i, rounds[i], stopat))
    && if |pauses| == |rounds| then gone == None
       else !GoesOn(rounds[|pauses|], stopat) && gone == Some(Verdict(rounds[|pauses|], stopat))
  }

  /** The body of the loop between the polls: the pause in struct timeval arithmetic. */
  method Interval(round: Round, stopat: Timeval, ratio: nat) returns (interval: Timeval)
    requires Normal(round.before) && Normal(round.after) && Normal(stopat)
    requires Less(round.after, stopat) && 2 <= ratio <= 10
    ensures Normal(interval)
    ensures Micros(interval) == Pause(ratio - 2, round, Micros(stopat))
  {
    SubIsExact(stopat, round.after);
    var maxinterval := Sub(stopat, round.after);
    SubIsExact(round.after, round.before);
    interval := Sub(round.after, round.before);
    TmulIsExact(interval, ratio);
    interval := Tmul(interval, ratio);
    if interval.sec < 0 || interval.usec < 0 {
      interval := Timeval(0, 0);
    }
    if Less(maxinterval, interval) {
      interval := maxinterval;
    }
    if interval.sec == 0 && interval.usec <= MIN_POLL_INTERVAL {
      interval := interval.(usec := MIN_POLL_INTERVAL);
    }
  }

  method DoStopTimeout(timeout: nat, start: Timeval, rounds: seq<Round>)
    returns (gone: Option<bool>, pauses: seq<Timeval>)
    requires Normal(start) && Clock(rounds)
    ensures Polls(Micros(start) + timeout * MICROS, rounds, pauses, gone)
  {
    var stopat := start.(sec := start.sec + timeout);
    var ratio := 1;
    pauses := [];
    while |pauses| < |rounds|
      invariant |pauses| <= |rounds|
      invariant ratio == Min(10, |pauses| + 1)
      invariant forall i :: 0 <= i < |pauses| ==>
        && GoesOn(rounds[i], Micros(stopat)) && Normal(pauses[i])
        && Micros(pauses[i]) == Pause(i, rounds[i], Micros(stopat))
    {
      var round := rounds[|pauses|];
      LessIsExact(stopat, round.before);
      LessIsExact(round.after, stopat);
      if Less(stopat, round.before) {
        return Some(false), pauses;
      }
      if !round.killed {
        return Some(true), pauses;
      }
      if !Less(round.after, stopat) {
        return Some(false), pauses;
      }
      if ratio < 10 {
        ratio := ratio + 1;
      }
      var interval := Interval(round, stopat, ratio);
      PauseSaturates(|pauses|, ratio, round, Micros(stopat));
      pauses := pauses + [interval];
    }
    return None, pauses;
  }

  lemma PauseSaturates(i: nat, ratio: nat, round: Round, stopat: int)
    requires ratio == Min(10, i + 2)
    ensures Pause(ratio - 2, round, stopat) == Pause(i, round, stopat)
  {
  }

  // ----- what the source promises -----

  /** Every pause lies between 20 ms and the time remaining, whatever the clock does. */
  lemma PausesAreBounded(stopat: int, rounds: seq<Round>, pauses: seq<Timeval>, gone: Option<bool>, i: nat)
    requires Polls(stopat, rounds, pauses, gone) && i < |pauses|
    ensures MIN_POLL_INTERVAL <= Micros(pauses[i])
    ensures Micros(pauses[i]) <= Max(MIN_POLL_INTERVAL, stopat - Micros(rounds[i].after))
  {
    assert GoesOn(rounds[i], stopat);
  }

  /** The clock is at least as far as the pauses say. */
  ghost predicate Advances(start: int, rounds: seq<Round>, pauses: seq<Timeval>) {
    && (rounds != [] ==> start <= Micros(rounds[0].before))
    && (forall i :: 0 <= i < |rounds| ==> Micros(rounds[i].before) <= Micros(rounds[i].after))
    && (forall i {:trigger pauses[i]} :: 0 <= i < |pauses| && i + 1 < |rounds| ==>
          Micros(rounds[i].after) + Micros(pauses[i]) <= Micros(rounds[i + 1].before))
  }

  lemma {:induction false} Elapsed(start: int, rounds: seq<Round>, pauses: seq<Timeval>, i: nat)
    requires forall k :: 0 <= k < |pauses| ==> MIN_POLL_INTERVAL <= Micros(pauses[k])
    requires Advances(start, rounds, pauses)
    requires i <= |pauses| && i < |rounds|
    ensures start + MIN_POLL_INTERVAL * i <= Micros(rounds[i].before)
  {
    if i > 0 {
      Elapsed(start, rounds, pauses, i - 1);
      assert MIN_POLL_INTERVAL <= Micros(pauses[i - 1]);
      assert Micros(rounds[i - 1].before) <= Micros(rounds[i - 1].after);
    }
  }

  lemma PausesAreLong(stopat: int, rounds: seq<Round>, pauses: seq<Timeval>, gone: Option<bool>)
    requires Polls(stopat, rounds, pauses, gone)
    ensures forall k :: 0 <= k < |pauses| ==> MIN_POLL_INTERVAL <= Micros(pauses[k])
  {
  }

  lemma LastGoesOn(stopat: int, rounds: seq<Round>, pauses: seq<Timeval>, gone: Option<bool>)
    requires Polls(stopat, rounds, pauses, gone) && pauses != []
    ensures Micros(rounds[|pauses| - 1].before) <= stopat && Micros(rounds[|pauses| - 1].after) < stopat
  {
    assert GoesOn(rounds[|pauses| - 1], stopat);
  }

  /** The calls of do_stop: one a pause, and one more when the last round is not late already. */
  function PollCount(stopat: int, rounds: seq<Round>, pauses: seq<Timeval>): nat {
    |pauses| + if |pauses| < |rounds| && Micros(rounds[|pauses|].before) <= stopat then 1 else 0
  }

  lemma FewPauses(
    start: int, timeout: nat, stopat: int, rounds: seq<Round>, pauses: seq<Timeval>, gone: Option<bool>)
    requires stopat == start + timeout * MICROS
    requires Polls(stopat, rounds, pauses, gone) && Advances(start, rounds, pauses)
    ensures |pauses| <= 50 * timeout
  {
    var n := |pauses|;
    if n > 0 {
      PausesAreLong(stopat, rounds, pauses, gone);
      Elapsed(start, rounds, pauses, n - 1);
      LastGoesOn(stopat, rounds, pauses, gone);
    }
  }

  /** With a clock that advances by each pause, do_stop is called at most 50 times a second and once more, and
      the loop is over, whatever is still running, in the round after 50 * timeout pauses. */
  lemma PollingIsBounded(
    start: int, timeout: nat, stopat: int, rounds: seq<Round>, pauses: seq<Timeval>, gone: Option<bool>)
    requires stopat == start + timeout * MICROS
    requires Polls(stopat, rounds, pauses, gone) && Advances(start, rounds, pauses)
    ensures PollCount(stopat, rounds, pauses) <= 50 * timeout + 1
    ensures |rounds| > 50 * timeout ==> gone.Some?
  {
    FewPauses(start, timeout, stopat, rounds, pauses, gone);
  }

  /** How long the i-th poll took. */
  function PollTime(round: Round): int {
    Micros(round.after) - Micros(round.before)
  }

  /** The pause after the i-th poll is min(10, i + 2) times as long as the poll was, as far as there is time and up to
      the least pause: polling takes at most one part in min(10, i + 2) + 1 of each full round. */
  lemma DutyCycle(stopat: int, rounds: seq<Round>, pauses: seq<Timeval>, gone: Option<bool>, i: nat)
    requires Polls(stopat, rounds, pauses, gone) && i < |pauses|
    ensures var k, p := Min(10, i + 2), Micros(pauses[i]);
      && p <= Max(MIN_POLL_INTERVAL, PollTime(rounds[i]) * k)
      && (p >= stopat - Micros(rounds[i].after)
          || (p >= PollTime(rounds[i]) * k && PollTime(rounds[i]) * (k + 1) <= PollTime(rounds[i]) + p))
  {
    assert GoesOn(rounds[i], stopat);
    var k, e := Min(10, i + 2), PollTime(rounds[i]);
    assert e * (k + 1) == e * k + e;
  }

  /** The time spent in the first n polls. */
  function Busy(rounds: seq<Round>, n: nat): int
    requires n <= |rounds|
  {
    if n == 0 then 0 else Busy(rounds, n - 1) + PollTime(rounds[n - 1])
  }

  /** With a clock that advances by each pause, polling takes at most a third of the time until the last pause. */
  lemma {:induction false} BusyAtMostAThird(
    start: int, stopat: int, rounds: seq<Round>, pauses: seq<Timeval>, gone: Option<bool>, n: nat)
    requires Polls(stopat, rounds, pauses, gone) && Advances(start, rounds, pauses) && n < |pauses|
    ensures 3 * Busy(rounds, n) <= Micros(rounds[n].before) - start
  {
    if n > 0 {
      BusyAtMostAThird(start, stopat, rounds, pauses, gone, n - 1);
      DutyCycle(stopat, rounds, pauses, gone, n - 1);
      assert GoesOn(rounds[n], stopat);
      assert Micros(rounds[n - 1].after) + Micros(pauses[n - 1]) <= Micros(rounds[n].before);
      TwiceAtLeast(PollTime(rounds[n - 1]), Min(10, n + 1));
    }
  }

  lemma TwiceAtLeast(e: int, k: nat)
    requires k >= 2 && e >= 0
    ensures e * k >= 2 * e
  {
  }

  /** On the clock: the first n rounds found a process in time, and there was time left after each. */
  ghost predicate StillThere(stopat: int, rounds: seq<Round>, n: nat)
    requires n <= |rounds|
  {
    forall j :: 0 <= j < n ==>
      Micros(rounds[j].before) <= stopat && rounds[j].killed && Micros(rounds[j].after) < stopat
  }

  /** In time, gone is noticed and reported; true is never the answer to a timeout. The answer is false if and only if
      a round begins too late or finds a process when time is up, and nothing was noticed before. */
  lemma TrueExactlyWhenGone(stopat: int, rounds: seq<Round>, pauses: seq<Timeval>, gone: Option<bool>)
    requires Polls(stopat, rounds, pauses, gone)
    ensures gone == Some(true) <==>
      exists i: nat :: i < |rounds| && StillThere(stopat, rounds, i)
        && Micros(rounds[i].before) <= stopat && !rounds[i].killed
    ensures gone == Some(false) <==>
      exists i: nat :: i < |rounds| && StillThere(stopat, rounds, i)
        && (Micros(rounds[i].before) > stopat || (rounds[i].killed && stopat <= Micros(rounds[i].after)))
  {
    assert StillThere(stopat, rounds, |pauses|);
    assert forall i :: 0 <= i < |pauses| ==> GoesOn(rounds[i], stopat);
  }
}
