/** What a single double-spend trial reports, shared by both race policies,
    and the C++ conversion that turns a clock reading into that report's
    integer finish time. */
module RaceOutcome {

  /** The tuple (winFlag, finTime, attackerBlockHeight) one trial returns.
      The finish time is stored through an `int` variable in the source, so
      it is always a whole number of seconds. */
  datatype TrialOutcome = TrialOutcome(won: bool, finishTime: int, attackerHeight: int)

  /** A trial either reaches one of its terminal conditions, or the injected
      interval samples run out first. The source draws fresh samples forever;
      `SamplesExhausted` is the model's extra outcome for a finite trace. */
  datatype RaceResult = Finished(outcome: TrialOutcome) | SamplesExhausted

  /** The assignment of a double to an `int` variable: truncation toward zero. */
  function TruncToInt(x: real): (n: int)
    ensures 0.0 <= x ==> n as real <= x < n as real + 1.0
    ensures x < 0.0 ==> n as real - 1.0 < x <= n as real
  {
    if 0.0 <= x then x.Floor else -((-x).Floor)
  }

  /** Truncation never reorders two clock readings. */
  lemma TruncMonotonic(x: real, y: real)
    requires x <= y
    ensures TruncToInt(x) <= TruncToInt(y)
  {
  }

  /** A deadline that is a whole number of seconds is reported unchanged. */
  lemma TruncOfWhole(k: int)
    ensures TruncToInt(k as real) == k
  {
  }
}
