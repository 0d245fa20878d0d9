/** The merged-stream race of dsa_simple.cpp: one stream of block arrivals,
    each routed to the attacker or to the honest chain. The honest chain
    starts one block ahead. The deadline is checked before an arrival is
    committed, and the win condition after. */
module SplitStreamRace {
  import opened RaceOutcome

  /** Required block count in dsa_simple.cpp. */
  const Z := 6

  /** One arrival: the sampled interval, and the uniform draw that routes it. */
  datatype Arrival = Arrival(interval: real, draw: real)

  /** An arrival goes to the attacker iff beta >= the uniform draw. */
  predicate ToAttacker(beta: real, x: Arrival) {
    beta >= x.draw
  }

  /** The clock after the first k arrivals are committed. */
  function Clock(arrivals: seq<Arrival>, k: nat): real
    requires k <= |arrivals|
  {
    if k == 0 then 0.0 else Clock(arrivals, k - 1) + arrivals[k - 1].interval
  }

  /** How many of the first k arrivals went to the attacker. */
  function AttackerHeight(beta: real, arrivals: seq<Arrival>, k: nat): nat
    requires k <= |arrivals|
  {
    if k == 0 then 0
    else AttackerHeight(beta, arrivals, k - 1) + (if ToAttacker(beta, arrivals[k - 1]) then 1 else 0)
  }

  /** The honest height after the first k arrivals: the starting block plus
      the arrivals that did not go to the attacker. */
  function HonestHeight(beta: real, arrivals: seq<Arrival>, k: nat): nat
    requires k <= |arrivals|
  {
    if k == 0 then 1
    else HonestHeight(beta, arrivals, k - 1) + (if ToAttacker(beta, arrivals[k - 1]) then 0 else 1)
  }

  /** Arrival k (counted from 1) ends the trial: committing it would pass the
      deadline, or once committed the attacker has at least Z blocks and
      more than the honest chain. */
  predicate Terminal(beta: real, at: real, arrivals: seq<Arrival>, k: nat)
    requires 1 <= k <= |arrivals|
  {
    Clock(arrivals, k) > at
    || (AttackerHeight(beta, arrivals, k) >= Z
        && AttackerHeight(beta, arrivals, k) > HonestHeight(beta, arrivals, k))
  }

  /** The record reported when arrival k ends the trial. A deadline loss
      reports the attacker height before that arrival: nothing is committed. */
  function ArrivalOutcome(beta: real, at: real, arrivals: seq<Arrival>, k: nat): TrialOutcome
    requires 1 <= k <= |arrivals|
  {
    if Clock(arrivals, k) > at then TrialOutcome(false, TruncToInt(at), AttackerHeight(beta, arrivals, k - 1))
    else TrialOutcome(true, TruncToInt(Clock(arrivals, k)), AttackerHeight(beta, arrivals, k))
  }

  /** One trial, stated as the arrival-by-arrival recursion the loop performs;
      the heights start at attacker 0 and honest 1. */
  function Race(beta: real, at: real, arrivals: seq<Arrival>): (r: RaceResult)
    ensures r.Finished? ==> r.outcome.attackerHeight >= 0
    ensures r.Finished? && !r.outcome.won ==> r.outcome.finishTime == TruncToInt(at)
    ensures r.Finished? && r.outcome.won ==>
      r.outcome.attackerHeight >= Z && r.outcome.finishTime <= TruncToInt(at)
  {
    RaceFrom(beta, at, 0.0, 0, 1, arrivals)
  }

  /** The arrivals still to come, from clock currentTime and the two heights. */
  function RaceFrom(beta: real, at: real, currentTime: real, attackerHeight: int, honestHeight: int,
                    rest: seq<Arrival>): (r: RaceResult)
    ensures r.Finished? ==> r.outcome.attackerHeight >= attackerHeight
    ensures r.Finished? && !r.outcome.won ==> r.outcome.finishTime == TruncToInt(at)
    ensures r.Finished? && r.outcome.won ==>
      r.outcome.attackerHeight >= Z && r.outcome.finishTime <= TruncToInt(at)
    decreases |rest|
  {
    if rest == [] then SamplesExhausted
    else if currentTime + rest[0].interval > at then
      Finished(TrialOutcome(false, TruncToInt(at), attackerHeight))
    else
      var t := currentTime + rest[0].interval;
      var a := if ToAttacker(beta, rest[0]) then attackerHeight + 1 else attackerHeight;
      var h := if ToAttacker(beta, rest[0]) then honestHeight else honestHeight + 1;
      if a >= Z && a > h then Finished(TrialOutcome(true, TruncToInt(t), a))
      else RaceFrom(beta, at, t, a, h, rest[1..])
  }

  /** simulateDoubleSpendingAttack: a `while (true)` loop over arrivals; it
      returns once the injected arrivals run out. */
  method Simulate(beta: real, at: real, arrivals: seq<Arrival>) returns (r: RaceResult)
    ensures r == Race(beta, at, arrivals)
  {
    var currentTime := 0.0;
    var attackerBlockHeight := 0;
    var honestBlockHeight := 1;
    var i := 0;
    while true
      invariant 0 <= i <= |arrivals|
      invariant attackerBlockHeight + honestBlockHeight == 1 + i
      invariant i > 0 ==> currentTime <= at
      invariant RaceFrom(beta, at, currentTime, attackerBlockHeight, honestBlockHeight, arrivals[i..])
                == Race(beta, at, arrivals)
      decreases |arrivals| - i
    {
      if i == |arrivals| {
        return SamplesExhausted;
      }
      var arrival := arrivals[i];
      assert arrivals[i..][1..] == arrivals[i + 1..];
      if currentTime + arrival.interval > at {
        return Finished(TrialOutcome(false, TruncToInt(at), attackerBlockHeight));
      }
      if beta >= arrival.draw {
        currentTime := currentTime + arrival.interval;
        attackerBlockHeight := attackerBlockHeight + 1;
      } else {
        currentTime := currentTime + arrival.interval;
        honestBlockHeight := honestBlockHeight + 1;
      }
      i := i + 1;
      if attackerBlockHeight >= Z && attackerBlockHeight > honestBlockHeight {
        return Finished(TrialOutcome(true, TruncToInt(currentTime), attackerBlockHeight));
      }
    }
  }

  /** Each committed arrival raises exactly one of the two heights, so after
      k arrivals they add up to the starting honest block plus k. */
  lemma {:induction false} HeightsAccountForArrivals(beta: real, arrivals: seq<Arrival>, k: nat)
    requires k <= |arrivals|
    ensures AttackerHeight(beta, arrivals, k) + HonestHeight(beta, arrivals, k) == 1 + k
  {
    if k > 0 {
      HeightsAccountForArrivals(beta, arrivals, k - 1);
    }
  }

  /** Starting after arrival i, if arrival k is the first terminal one past i,
      it decides the outcome. */
  lemma {:induction false} RaceFromStopsAtFirstTerminal(beta: real, at: real, arrivals: seq<Arrival>,
                                                        i: nat, k: nat)
    requires i < k <= |arrivals|
    requires Terminal(beta, at, arrivals, k)
    requires forall j | i < j < k :: !Terminal(beta, at, arrivals, j)
    ensures RaceFrom(beta, at, Clock(arrivals, i), AttackerHeight(beta, arrivals, i), HonestHeight(beta, arrivals, i),
                     arrivals[i..])
            == Finished(ArrivalOutcome(beta, at, arrivals, k))
    decreases k - i
  {
    assert arrivals[i..][0] == arrivals[i];
    assert arrivals[i..][1..] == arrivals[i + 1..];
    if i + 1 < k {
      assert !Terminal(beta, at, arrivals, i + 1);
      RaceFromStopsAtFirstTerminal(beta, at, arrivals, i + 1, k);
    }
  }

  /** The first arrival that meets either terminal condition decides the
      trial: a loss at the deadline with the height before it, or a win. */
  lemma FirstTerminalArrivalDecides(beta: real, at: real, arrivals: seq<Arrival>, k: nat)
    requires 1 <= k <= |arrivals|
    requires Terminal(beta, at, arrivals, k)
    requires forall j | 1 <= j < k :: !Terminal(beta, at, arrivals, j)
    ensures Race(beta, at, arrivals) == Finished(ArrivalOutcome(beta, at, arrivals, k))
  {
    assert arrivals[0..] == arrivals;
    RaceFromStopsAtFirstTerminal(beta, at, arrivals, 0, k);
  }

  lemma {:induction false} RaceFromExhausts(beta: real, at: real, arrivals: seq<Arrival>, i: nat)
    requires i <= |arrivals|
    requires forall j | i < j <= |arrivals| :: !Terminal(beta, at, arrivals, j)
    ensures RaceFrom(beta, at, Clock(arrivals, i), AttackerHeight(beta, arrivals, i), HonestHeight(beta, arrivals, i),
                     arrivals[i..])
            == SamplesExhausted
    decreases |arrivals| - i
  {
    if i < |arrivals| {
      assert arrivals[i..][0] == arrivals[i];
      assert arrivals[i..][1..] == arrivals[i + 1..];
      assert !Terminal(beta, at, arrivals, i + 1);
      RaceFromExhausts(beta, at, arrivals, i + 1);
    }
  }

  /** A trace in which no arrival is terminal ends in exhaustion. */
  lemma NoTerminalArrivalExhausts(beta: real, at: real, arrivals: seq<Arrival>)
    requires forall j | 1 <= j <= |arrivals| :: !Terminal(beta, at, arrivals, j)
    ensures Race(beta, at, arrivals) == SamplesExhausted
  {
    assert arrivals[0..] == arrivals;
    RaceFromExhausts(beta, at, arrivals, 0);
  }

  lemma {:induction false} RaceFromFinishedAtSomeArrival(beta: real, at: real, arrivals: seq<Arrival>, i: nat)
    requires i <= |arrivals|
    requires RaceFrom(beta, at, Clock(arrivals, i), AttackerHeight(beta, arrivals, i), HonestHeight(beta, arrivals, i),
                      arrivals[i..]).Finished?
    ensures exists k :: (
      && i < k <= |arrivals|
      && Terminal(beta, at, arrivals, k)
      && (forall j | i < j < k :: !Terminal(beta, at, arrivals, j))
      && RaceFrom(beta, at, Clock(arrivals, i), AttackerHeight(beta, arrivals, i), HonestHeight(beta, arrivals, i),
                  arrivals[i..]).outcome
         == ArrivalOutcome(beta, at, arrivals, k))
    decreases |arrivals| - i
  {
    assert arrivals[i..][0] == arrivals[i];
    assert arrivals[i..][1..] == arrivals[i + 1..];
    if Terminal(beta, at, arrivals, i + 1) {
      assert i < i + 1 <= |arrivals|;
    } else {
      RaceFromFinishedAtSomeArrival(beta, at, arrivals, i + 1);
      var k :| (
        && i + 1 < k <= |arrivals|
        && Terminal(beta, at, arrivals, k)
        && (forall j | i + 1 < j < k :: !Terminal(beta, at, arrivals, j))
        && RaceFrom(beta, at, Clock(arrivals, i + 1), AttackerHeight(beta, arrivals, i + 1),
                    HonestHeight(beta, arrivals, i + 1), arrivals[i + 1..]).outcome
           == ArrivalOutcome(beta, at, arrivals, k));
      assert forall j | i < j < k :: !Terminal(beta, at, arrivals, j);
    }
  }

  /** Conversely, every finished trial ended at its first terminal arrival
      k; every arrival before it was committed with the clock within the
      deadline, and the heights then add up to one plus the arrivals. */
  lemma RaceFinishedAtSomeArrival(beta: real, at: real, arrivals: seq<Arrival>) returns (k: nat)
    requires Race(beta, at, arrivals).Finished?
    ensures 1 <= k <= |arrivals| && Terminal(beta, at, arrivals, k)
    ensures forall j | 1 <= j < k ::
      Clock(arrivals, j) <= at
      && !(AttackerHeight(beta, arrivals, j) >= Z && AttackerHeight(beta, arrivals, j) > HonestHeight(beta, arrivals, j))
    ensures Race(beta, at, arrivals).outcome == ArrivalOutcome(beta, at, arrivals, k)
  {
    assert arrivals[0..] == arrivals;
    RaceFromFinishedAtSomeArrival(beta, at, arrivals, 0);
    k :| (
      && 0 < k <= |arrivals|
      && Terminal(beta, at, arrivals, k)
      && (forall j | 0 < j < k :: !Terminal(beta, at, arrivals, j))
      && RaceFrom(beta, at, Clock(arrivals, 0), AttackerHeight(beta, arrivals, 0), HonestHeight(beta, arrivals, 0),
                  arrivals[0..]).outcome
         == ArrivalOutcome(beta, at, arrivals, k));
    forall j | 1 <= j < k
      ensures Clock(arrivals, j) <= at
      ensures !(AttackerHeight(beta, arrivals, j) >= Z && AttackerHeight(beta, arrivals, j) > HonestHeight(beta, arrivals, j))
    {
      assert !Terminal(beta, at, arrivals, j);
    }
  }

  /** A loss happens at the first arrival that would pass the deadline; its
      clock and heights are not advanced, so it reports the attacker height
      reached by the arrivals before it. */
  lemma LossFacts(beta: real, at: real, arrivals: seq<Arrival>) returns (k: nat)
    requires Race(beta, at, arrivals).Finished? && !Race(beta, at, arrivals).outcome.won
    ensures 1 <= k <= |arrivals| && Clock(arrivals, k) > at
    ensures forall j | 1 <= j < k :: Clock(arrivals, j) <= at
    ensures Race(beta, at, arrivals).outcome
            == TrialOutcome(false, TruncToInt(at), AttackerHeight(beta, arrivals, k - 1))
  {
    k := RaceFinishedAtSomeArrival(beta, at, arrivals);
  }

  /** A win happens right after committing arrival k: the attacker then has
      at least Z blocks and more than the honest chain, the two heights add
      up to 1 + k, and the finish time is the clock, within the deadline,
      truncated to whole seconds. */
  lemma WinFacts(beta: real, at: real, arrivals: seq<Arrival>) returns (k: nat)
    requires Race(beta, at, arrivals).Finished? && Race(beta, at, arrivals).outcome.won
    ensures 1 <= k <= |arrivals| && Clock(arrivals, k) <= at
    ensures Race(beta, at, arrivals).outcome.attackerHeight == AttackerHeight(beta, arrivals, k)
    ensures AttackerHeight(beta, arrivals, k) >= Z
    ensures AttackerHeight(beta, arrivals, k) > HonestHeight(beta, arrivals, k)
    ensures AttackerHeight(beta, arrivals, k) + HonestHeight(beta, arrivals, k) == 1 + k
    ensures Race(beta, at, arrivals).outcome.finishTime == TruncToInt(Clock(arrivals, k))
  {
    k := RaceFinishedAtSomeArrival(beta, at, arrivals);
    HeightsAccountForArrivals(beta, arrivals, k);
  }

  /** Routing: committing arrival k raises the attacker height when
      beta >= its draw and the honest height otherwise, never both. */
  lemma RoutingRaisesOneHeight(beta: real, arrivals: seq<Arrival>, k: nat)
    requires 1 <= k <= |arrivals|
    ensures beta >= arrivals[k - 1].draw <==>
              AttackerHeight(beta, arrivals, k) == AttackerHeight(beta, arrivals, k - 1) + 1
    ensures beta >= arrivals[k - 1].draw <==>
              HonestHeight(beta, arrivals, k) == HonestHeight(beta, arrivals, k - 1)
    ensures AttackerHeight(beta, arrivals, k - 1) <= AttackerHeight(beta, arrivals, k)
    ensures HonestHeight(beta, arrivals, k - 1) <= HonestHeight(beta, arrivals, k)
  {
  }

  /** With non-negative intervals the clock never goes below zero. */
  lemma {:induction false} ClockNonNegative(arrivals: seq<Arrival>, k: nat)
    requires k <= |arrivals|
    requires forall n | 0 <= n < |arrivals| :: 0.0 <= arrivals[n].interval
    ensures 0.0 <= Clock(arrivals, k)
  {
    if k > 0 {
      ClockNonNegative(arrivals, k - 1);
    }
  }

  /** With a non-negative deadline and non-negative intervals, every
      reported finish time lies between zero and the deadline. */
  lemma FinishTimeWithinDeadline(beta: real, at: real, arrivals: seq<Arrival>)
    requires 0.0 <= at
    requires forall n | 0 <= n < |arrivals| :: 0.0 <= arrivals[n].interval
    requires Race(beta, at, arrivals).Finished?
    ensures 0 <= Race(beta, at, arrivals).outcome.finishTime <= TruncToInt(at)
  {
    if Race(beta, at, arrivals).outcome.won {
      var k := WinFacts(beta, at, arrivals);
      ClockNonNegative(arrivals, k);
    }
  }

  /** With a zero deadline, a first arrival of positive length already
      passes it: the trial loses at time 0 before any block is committed. */
  lemma ZeroDeadlineLoses(beta: real, arrivals: seq<Arrival>)
    requires |arrivals| > 0 && arrivals[0].interval > 0.0
    ensures Race(beta, 0.0, arrivals) == Finished(TrialOutcome(false, 0, 0))
  {
  }
}
