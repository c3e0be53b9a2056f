/**
 The backend's supervisor for background tasks: restart with exponential backoff,
 reset after a healthy run. Times are in seconds.
 */
module Supervisor {
  import opened Text

  const MAX_DELAY: nat := 300
  const HEALTHY_THRESHOLD: real := 60.0

  predicate Lifetimes(ls: seq<real>) {
    forall i | 0 <= i < |ls| :: ls[i] >= 0.0
  }

  /** The delay slept after a task that lived for `lifetime`, and the delay kept for the next turn. */
  function Slept(delay: nat, lifetime: real): nat {
    if lifetime >= HEALTHY_THRESHOLD then 1 else delay
  }

  function NextDelay(delay: nat, lifetime: real): nat {
    Min(2 * Slept(delay, lifetime), MAX_DELAY)
  }

  /** The sleeps of a supervisor whose tasks live as long as `ls` says, starting with `delay`. */
  function Sleeps(delay: nat, ls: seq<real>): (sleeps: seq<nat>)
    ensures |sleeps| == |ls|
    decreases |ls|
  {
    if ls == [] then [] else [Slept(delay, ls[0])] + Sleeps(NextDelay(delay, ls[0]), ls[1..])
  }

  /** The time that lifetimes and sleeps take together. */
  function Elapsed(ls: seq<real>, sleeps: seq<nat>): real
    requires |ls| == |sleeps|
  {
    if ls == [] then 0.0 else ls[0] + sleeps[0] as real + Elapsed(ls[1..], sleeps[1..])
  }

  /** The loop of `spawn_supervised`, run until a shutdown arrives after the given tasks. */
  method Supervise(ls: seq<real>) returns (sleeps: seq<nat>)
    requires Lifetimes(ls)
    ensures sleeps == Sleeps(1, ls)
  {
    var delay: nat := 1;
    sleeps := [];
    for i := 0 to |ls|
      invariant sleeps + Sleeps(delay, ls[i..]) == Sleeps(1, ls)
    {
      ghost var todo, before: nat := ls[i..], delay;
      if ls[i] >= HEALTHY_THRESHOLD {
        delay := 1;
      }
      assert todo[1..] == ls[i + 1..];
      assert Sleeps(before, todo) == [delay] + Sleeps(Min(2 * delay, MAX_DELAY), ls[i + 1..]);
      sleeps := sleeps + [delay];
      delay := Min(delay * 2, MAX_DELAY);
    }
  }

  // ---- Each sleep is a capped power of two ---------------------------------

  function Pow2(k: nat): nat {
    if k == 0 then 1 else 2 * Pow2(k - 1)
  }

  /** How many restarts have been made since `delay` was last 1. */
  function SinceReset(ls: seq<real>, i: nat): nat
    requires i < |ls|
  {
    if i == 0 || ls[i] >= 60.0 then 0 else SinceReset(ls, i - 1) + 1
  }

  /** The same count, for a supervisor that has already made `k` restarts when `ls` begins. */
  function SinceResetFrom(k: nat, ls: seq<real>, i: nat): nat
    requires i < |ls|
  {
    if ls[i] >= HEALTHY_THRESHOLD then 0 else if i == 0 then k else SinceResetFrom(k, ls, i - 1) + 1
  }

  lemma {:induction false} SinceResetShift(k: nat, ls: seq<real>, i: nat)
    requires 0 < i < |ls|
    ensures var k' := if ls[0] >= HEALTHY_THRESHOLD then 1 else k + 1;
            SinceResetFrom(k, ls, i) == SinceResetFrom(k', ls[1..], i - 1)
  {
    if i > 1 && ls[i] < HEALTHY_THRESHOLD {
      SinceResetShift(k, ls, i - 1);
    }
  }

  lemma {:induction false} SleepFrom(k: nat, ls: seq<real>, i: nat)
    requires i < |ls|
    ensures Sleeps(Min(Pow2(k), MAX_DELAY), ls)[i] == Min(Pow2(SinceResetFrom(k, ls, i)), MAX_DELAY)
    decreases |ls|
  {
    if i > 0 {
      var k' := if ls[0] >= HEALTHY_THRESHOLD then 1 else k + 1;
      assert Pow2(1) == 2;
      assert NextDelay(Min(Pow2(k), MAX_DELAY), ls[0]) == Min(Pow2(k'), MAX_DELAY);
      SinceResetShift(k, ls, i);
      SleepFrom(k', ls[1..], i - 1);
    }
  }

  lemma {:induction false} SinceResetAgrees(ls: seq<real>, i: nat)
    requires i < |ls|
    ensures SinceResetFrom(0, ls, i) == SinceReset(ls, i)
  {
    if i > 0 {
      SinceResetAgrees(ls, i - 1);
    }
  }

  /** Every sleep is min(2^k, 300), where k counts the restarts since the last reset. */
  lemma {:induction false} SleepIsCappedPower(ls: seq<real>, i: nat)
    requires i < |ls|
    ensures Sleeps(1, ls)[i] == Min(Pow2(SinceReset(ls, i)), 300)
  {
    SleepFrom(0, ls, i);
    SinceResetAgrees(ls, i);
  }

  lemma {:induction false} NoReset(ls: seq<real>, i: nat)
    requires i < |ls| && forall j | 0 < j <= i :: ls[j] < 60.0
    ensures SinceReset(ls, i) == i
  {
    if i == 0 {
    } else {
      NoReset(ls, i - 1);
    }
  }

  lemma {:induction false} PowersPast(k: nat)
    requires k >= 9
    ensures Pow2(k) >= 512
  {
    if k == 9 {
      assert Pow2(4) == 16;
      assert Pow2(8) == 256;
    } else {
      PowersPast(k - 1);
    }
  }

  lemma PowersUpTo()
    ensures Pow2(0) == 1 && Pow2(1) == 2 && Pow2(2) == 4 && Pow2(3) == 8 && Pow2(4) == 16
    ensures Pow2(5) == 32 && Pow2(6) == 64 && Pow2(7) == 128 && Pow2(8) == 256
  {
    assert Pow2(4) == 16;
    assert Pow2(6) == 64;
  }

  /** A task that never runs for a minute is restarted after these seconds, and after a minute after 1 again. */
  lemma {:induction false} BackoffWrittenOut(ls: seq<real>, i: nat)
    requires i < |ls| && forall j | 0 <= j <= i :: ls[j] < 60.0
    ensures Sleeps(1, ls)[i] == if i < 9 then [1, 2, 4, 8, 16, 32, 64, 128, 256][i] else 300
    ensures i + 1 < |ls| && ls[i + 1] >= 60.0 ==> Sleeps(1, ls)[i + 1] == 1
  {
    SleepIsCappedPower(ls, i);
    NoReset(ls, i);
    PowersUpTo();
    if i >= 9 {
      PowersPast(i);
    }
    if i + 1 < |ls| && ls[i + 1] >= 60.0 {
      SleepIsCappedPower(ls, i + 1);
    }
  }

  // ---- Amortised bound on the number of restarts -----------------------------

  /** A potential on the delay: what is left of the initial credit of 300. */
  function Potential(delay: nat): nat {
    if delay <= 1 then 300
    else if delay <= 2 then 214
    else if delay <= 4 then 133
    else if delay <= 8 then 62
    else if delay <= 16 then 11
    else 0
  }

  /** The delays that occur. */
  predicate IsDelay(delay: nat) {
    delay in {1, 2, 4, 8, 16, 32, 64, 128, 256, 300}
  }

  /** Potential pays for every restart that comes quicker than one in 91/5 seconds. */
  lemma {:induction false} Amortised(delay: nat, ls: seq<real>)
    requires IsDelay(delay) && Lifetimes(ls)
    ensures 91.0 * |ls| as real <= 5.0 * Elapsed(ls, Sleeps(delay, ls)) + Potential(delay) as real
    decreases |ls|
  {
    if ls == [] {
    } else {
      var slept, next := Slept(delay, ls[0]), NextDelay(delay, ls[0]);
      assert Sleeps(delay, ls)[1..] == Sleeps(next, ls[1..]);
      Amortised(next, ls[1..]);
      assert 91.0 + Potential(next) as real <= 5.0 * (ls[0] + slept as real) + Potential(delay) as real;
    }
  }

  lemma {:induction false} SleepsOfTail(delay: nat, ls: seq<real>, a: nat) returns (later: nat)
    requires IsDelay(delay) && a <= |ls|
    ensures IsDelay(later) && Sleeps(delay, ls)[a..] == Sleeps(later, ls[a..])
    decreases |ls|
  {
    if a == 0 {
      later := delay;
      assert ls[0..] == ls;
    } else {
      later := SleepsOfTail(NextDelay(delay, ls[0]), ls[1..], a - 1);
      assert ls[1..][a - 1..] == ls[a..];
      assert Sleeps(delay, ls)[a..] == Sleeps(delay, ls)[1..][a - 1..];
    }
  }

  lemma {:induction false} SleepsOfPrefix(delay: nat, ls: seq<real>, b: nat)
    requires b <= |ls|
    ensures Sleeps(delay, ls)[..b] == Sleeps(delay, ls[..b])
    decreases |ls|
  {
    if b > 0 {
      SleepsOfPrefix(NextDelay(delay, ls[0]), ls[1..], b - 1);
      assert ls[..b][1..] == ls[1..][..b - 1];
    }
  }

  /** In every window of a run, n restarts take T seconds with 91 n <= 5 T + 300. */
  lemma {:induction false} RestartBound(ls: seq<real>, a: nat, b: nat)
    requires Lifetimes(ls) && a <= b <= |ls|
    ensures 91.0 * (b - a) as real <= 5.0 * Elapsed(ls[a..b], Sleeps(1, ls)[a..b]) + 300.0
  {
    var later := SleepsOfTail(1, ls, a);
    assert ls[a..][..b - a] == ls[a..b];
    assert Sleeps(1, ls)[a..][..b - a] == Sleeps(1, ls)[a..b];
    SleepsOfPrefix(later, ls[a..], b - a);
    Amortised(later, ls[a..b]);
  }

  /** The constant 300 cannot be improved: five immediate failures take 31 seconds. */
  lemma BoundIsTight()
    ensures var ls := [0.0, 0.0, 0.0, 0.0, 0.0];
            91.0 * |ls| as real == 5.0 * Elapsed(ls, Sleeps(1, ls)) + 300.0
  {
    var ls := [0.0, 0.0, 0.0, 0.0, 0.0];
    FiveTurns(1, ls);
  }

  /** One minute of health, then four immediate failures. */
  const CYCLE := [60.0, 0.0, 0.0, 0.0, 0.0]

  function Cycles(n: nat): seq<real> {
    if n == 0 then [] else CYCLE + Cycles(n - 1)
  }

  lemma OneTurn(delay: nat, ls: seq<real>)
    requires ls != []
    ensures var next := NextDelay(delay, ls[0]);
            Elapsed(ls, Sleeps(delay, ls))
              == ls[0] + Slept(delay, ls[0]) as real + Elapsed(ls[1..], Sleeps(next, ls[1..]))
  {
    assert Sleeps(delay, ls)[1..] == Sleeps(NextDelay(delay, ls[0]), ls[1..]);
  }

  /** Five quick restarts after a fresh start or a healthy run sleep 1 + 2 + 4 + 8 + 16 seconds. */
  lemma FiveTurns(delay: nat, ls: seq<real>)
    requires |ls| >= 5 && (ls[0] >= HEALTHY_THRESHOLD || delay == 1)
    requires forall i | 1 <= i < 5 :: ls[i] < HEALTHY_THRESHOLD
    ensures Elapsed(ls, Sleeps(delay, ls))
         == ls[0] + ls[1] + ls[2] + ls[3] + ls[4] + 31.0 + Elapsed(ls[5..], Sleeps(32, ls[5..]))
  {
    hide Sleeps, Elapsed;
    OneTurn(delay, ls);
    OneTurn(2, ls[1..]);
    OneTurn(4, ls[2..]);
    OneTurn(8, ls[3..]);
    OneTurn(16, ls[4..]);
    assert ls[1..][1..] == ls[2..] && ls[2..][1..] == ls[3..] && ls[3..][1..] == ls[4..] && ls[4..][1..] == ls[5..];
  }

  /** Nor can the rate: this pattern makes 5 n restarts in exactly 91 n seconds, for every n. */
  lemma {:induction false} RateIsOptimal(n: nat, delay: nat)
    ensures Lifetimes(Cycles(n)) && |Cycles(n)| == 5 * n
    ensures Elapsed(Cycles(n), Sleeps(delay, Cycles(n))) == 91.0 * n as real
  {
    if n > 0 {
      RateIsOptimal(n - 1, 32);
      var ls := Cycles(n);
      assert ls[5..] == Cycles(n - 1);
      FiveTurns(delay, ls);
    }
  }
}
