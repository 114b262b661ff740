/** The step-rate controller: an integer rate in steps per second that the
    speed commands double or halve, and the timer period derived from it. */
module StepClock {

  /** The two speed commands: `inc` (numpad +) and `dec` (numpad -). */
  datatype RateCommand = SpeedUp | SlowDown

  /** Below this rate `inc` still doubles. */
  const DoublingLimit: nat := 500

  /** The largest rate `inc` and `dec` can reach from a rate of 1. */
  const MaxRate: nat := 512

  /** The rate after one command. */
  function Adjusted(rate: nat, c: RateCommand): (r: nat)
    ensures rate >= 1 ==> r >= 1
    ensures rate < 2 * DoublingLimit ==> r < 2 * DoublingLimit
    ensures c == SpeedUp ==> rate <= r <= 2 * rate
    ensures c == SlowDown ==> r <= rate && 2 * r >= rate - 1
  {
    match c
    case SpeedUp => if rate < DoublingLimit then rate * 2 else rate
    case SlowDown => if rate > 1 then rate / 2 else rate
  }

  /** The rate after a sequence of commands, applied in order. */
  function RateAfter(rate: nat, cmds: seq<RateCommand>): (r: nat)
    decreases |cmds|
  {
    if cmds == [] then rate else RateAfter(Adjusted(rate, cmds[0]), cmds[1..])
  }

  /** The timer period in whole milliseconds, `1000 / steps_per_second`. */
  function PeriodMs(rate: nat): (ms: nat)
    requires rate > 0
    ensures ms * rate <= 1000 < (ms + 1) * rate
  {
    1000 / rate
  }

  predicate IsPowerOfTwo(n: nat)
    decreases n
  {
    n == 1 || (n >= 2 && n % 2 == 0 && IsPowerOfTwo(n / 2))
  }

  /** The rates reachable from 1: powers of two from 1 to 512. */
  predicate Reachable(rate: nat)
  {
    IsPowerOfTwo(rate) && 1 <= rate <= MaxRate
  }

  /** The powers of two below 1024 are exactly 1, 2, 4, ..., 512. */
  lemma {:induction false} SmallPowersOfTwo(n: nat)
    requires IsPowerOfTwo(n) && n < 1024
    ensures n in {1, 2, 4, 8, 16, 32, 64, 128, 256, 512}
    decreases n
  {
    if n != 1 {
      SmallPowersOfTwo(n / 2);
    }
  }

  /** One command keeps the rate a power of two between 1 and 512. */
  lemma AdjustedKeepsReachable(rate: nat, c: RateCommand)
    requires Reachable(rate)
    ensures Reachable(Adjusted(rate, c))
  {
    SmallPowersOfTwo(rate);
  }

  /** Any sequence of commands keeps the rate a power of two between 1 and 512. */
  lemma {:induction false} RateAfterKeepsReachable(rate: nat, cmds: seq<RateCommand>)
    requires Reachable(rate)
    ensures Reachable(RateAfter(rate, cmds))
    decreases |cmds|
  {
    if cmds != [] {
      AdjustedKeepsReachable(rate, cmds[0]);
      RateAfterKeepsReachable(Adjusted(rate, cmds[0]), cmds[1..]);
    }
  }

  /** Starting from the initial rate 1, every rate the commands produce is a
      power of two in [1, 512]. */
  lemma RatesFromOneAreReachable(cmds: seq<RateCommand>)
    ensures Reachable(RateAfter(1, cmds))
  {
    RateAfterKeepsReachable(1, cmds);
  }

  /** A reachable rate gives a period of at least 1 ms and at most 1000 ms. */
  lemma ReachablePeriodIsPositive(rate: nat)
    requires Reachable(rate)
    ensures 1 <= PeriodMs(rate) <= 1000
  {
  }

  /** Five speed-ups from 1 give 32; nine reach 512 and a tenth stays there;
      slowing down at 1 stays at 1; speeding up at 512 stays at 512, and so
      does speeding up at 500. */
  lemma RateCommandExamples()
    ensures RateAfter(1, [SpeedUp, SpeedUp, SpeedUp, SpeedUp, SpeedUp]) == 32
    ensures Adjusted(1, SlowDown) == 1
    ensures Adjusted(MaxRate, SpeedUp) == MaxRate
    ensures Adjusted(DoublingLimit, SpeedUp) == DoublingLimit
    ensures RateAfter(1, [SpeedUp, SpeedUp, SpeedUp, SpeedUp, SpeedUp, SpeedUp, SpeedUp, SpeedUp, SpeedUp]) == MaxRate
    ensures RateAfter(1, [SpeedUp, SpeedUp, SpeedUp, SpeedUp, SpeedUp, SpeedUp, SpeedUp, SpeedUp, SpeedUp, SpeedUp]) == MaxRate
  {
  }

  /** `StepTimer`: the current rate and the period of the repeating timer
      that paces the generations. The foreign timer's running state is
      abstracted to `ticks`, the number of times it has been advanced. */
  class StepTimer {
    var stepsPerSecond: nat
    var durationMs: nat
    var ticks: nat

    /** The period always matches the (positive) rate. */
    predicate Valid()
      reads this
    {
      stepsPerSecond >= 1 && durationMs == PeriodMs(stepsPerSecond)
    }

    /** `StepTimer::new`: divides by the rate, so it must be positive. */
    constructor (sps: nat)
      requires sps > 0
      ensures Valid()
      ensures stepsPerSecond == sps && ticks == 0
    {
      stepsPerSecond := sps;
      durationMs := 1000 / sps;
      ticks := 0;
    }

    /** `inc`: double the rate while it is below 500, then reset the period. */
    method Inc()
      requires Valid()
      modifies this
      ensures Valid()
      ensures stepsPerSecond == Adjusted(old(stepsPerSecond), SpeedUp)
      ensures ticks == old(ticks)
    {
      if stepsPerSecond < DoublingLimit {
        stepsPerSecond := stepsPerSecond * 2;
      }
      UpdateDuration();
    }

    /** `dec`: halve the rate while it is above 1, then reset the period. */
    method Dec()
      requires Valid()
      modifies this
      ensures Valid()
      ensures stepsPerSecond == Adjusted(old(stepsPerSecond), SlowDown)
      ensures ticks == old(ticks)
    {
      if stepsPerSecond > 1 {
        stepsPerSecond := stepsPerSecond / 2;
      }
      UpdateDuration();
    }

    /** `update_duration`: the period follows the current rate. */
    method UpdateDuration()
      requires stepsPerSecond > 0
      modifies this`durationMs
      ensures durationMs == PeriodMs(stepsPerSecond)
    {
      durationMs := 1000 / stepsPerSecond;
    }

    /** `timer.tick(delta).just_finished()`: advances the timer once; whether
        a period finished is decided by the foreign timer and given as `fired`. */
    method Tick(fired: bool) returns (justFinished: bool)
      modifies this`ticks
      ensures ticks == old(ticks) + 1
      ensures justFinished == fired
    {
      ticks := ticks + 1;
      justFinished := fired;
    }
  }
}
