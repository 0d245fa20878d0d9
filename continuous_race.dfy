/** The separate-clocks race: after one priming attacker block, every round
    advances an honest clock and an attacker clock by one sampled interval
    each, then checks the deadline before the win condition. The same code
    appears in dsa_efficient.cpp (z = 6, deadline passed in) and main.cpp
    (z = 5, deadline fixed at five days); z is a parameter here. */
module ContinuousRace {
  import opened RaceOutcome

  /** Required block count in dsa_efficient.cpp. */
  const EfficientZ := 6
  /** Required block count in main.cpp. */
  const MainZ := 5
  /** The fixed deadline of main.cpp, 60 * 60 * 24 * 5 seconds. */
  const MainDeadline := 432000

  /** The two intervals sampled in one round: honest first, then attacker. */
  datatype Round = Round(honestInterval: real, attackerInterval: real)

  /** Everything one trial samples: the priming attacker interval and the rounds. */
  datatype Draws = Draws(priming: real, rounds: seq<Round>)

  /** The honest clock after the first k rounds. */
  function HonestClock(rounds: seq<Round>, k: nat): real
    requires k <= |rounds|
  {
    if k == 0 then 0.0 else HonestClock(rounds, k - 1) + rounds[k - 1].honestInterval
  }

  /** The attacker clock after the priming block and the first k rounds. */
  function AttackerClock(priming: real, rounds: seq<Round>, k: nat): real
    requires k <= |rounds|
  {
    if k == 0 then priming else AttackerClock(priming, rounds, k - 1) + rounds[k - 1].attackerInterval
  }

  /** Round k (counted from 1) ends the trial: the attacker clock is past the
      deadline, or at least z - 1 rounds have run and the attacker clock is
      not behind the honest one. */
  predicate Terminal(z: int, at: real, priming: real, rounds: seq<Round>, k: nat)
    requires 1 <= k <= |rounds|
  {
    at < AttackerClock(priming, rounds, k)
    || (k >= z - 1 && AttackerClock(priming, rounds, k) <= HonestClock(rounds, k))
  }

  /** The record reported when round k is the one that ends the trial. */
  function RoundOutcome(at: real, priming: real, rounds: seq<Round>, k: nat): TrialOutcome
    requires 1 <= k <= |rounds|
  {
    if at < AttackerClock(priming, rounds, k) then TrialOutcome(false, TruncToInt(at), k + 1)
    else TrialOutcome(true, TruncToInt(AttackerClock(priming, rounds, k)), k + 1)
  }

  /** One trial, stated as the round-by-round recursion the loop performs. */
  function Race(z: int, at: real, priming: real, rounds: seq<Round>): (r: RaceResult)
    ensures at < priming ==> r == Finished(TrialOutcome(false, TruncToInt(at), 1))
    ensures r.Finished? ==> r.outcome.attackerHeight >= 1
    ensures r.Finished? && !r.outcome.won ==> r.outcome.finishTime == TruncToInt(at)
    ensures r.Finished? && r.outcome.won ==>
      r.outcome.attackerHeight >= z && r.outcome.attackerHeight >= 2 && r.outcome.finishTime <= TruncToInt(at)
  {
    if at < priming then Finished(TrialOutcome(false, TruncToInt(at), 1))
    else RaceFrom(z, at, 0.0, priming, 0, rounds)
  }

  /** The rounds still to run, from clocks honestTime and attackerTime after
      blockHeight completed rounds. */
  function RaceFrom(z: int, at: real, honestTime: real, attackerTime: real, blockHeight: int,
                    rest: seq<Round>): (r: RaceResult)
    ensures r.Finished? ==> r.outcome.attackerHeight >= blockHeight + 2
    ensures r.Finished? && !r.outcome.won ==> r.outcome.finishTime == TruncToInt(at)
    ensures r.Finished? && r.outcome.won ==>
      r.outcome.attackerHeight >= z && r.outcome.finishTime <= TruncToInt(at)
    decreases |rest|
  {
    if rest == [] then SamplesExhausted
    else
      var h := honestTime + rest[0].honestInterval;
      var a := attackerTime + rest[0].attackerInterval;
      var b := blockHeight + 1;
      if at < a then Finished(TrialOutcome(false, TruncToInt(at), b + 1))
      else if b >= z - 1 && a <= h then Finished(TrialOutcome(true, TruncToInt(a), b + 1))
      else RaceFrom(z, at, h, a, b, rest[1..])
  }

  /** simulateDoubleSpendingAttack: the priming block, then a `while (true)`
      loop over rounds; it returns once the injected rounds run out. */
  method Simulate(z: int, at: real, priming: real, rounds: seq<Round>) returns (r: RaceResult)
    ensures r == Race(z, at, priming, rounds)
  {
    var blockHeight := 0;
    var attackerBlockHeight := 0;
    var honestCurrentTime := 0.0;
    var attackerCurrentTime := 0.0;

    attackerCurrentTime := attackerCurrentTime + priming;
    attackerBlockHeight := attackerBlockHeight + 1;
    if at < attackerCurrentTime {
      return Finished(TrialOutcome(false, TruncToInt(at), attackerBlockHeight));
    }
    while true
      invariant 0 <= blockHeight <= |rounds|
      invariant RaceFrom(z, at, honestCurrentTime, attackerCurrentTime, blockHeight, rounds[blockHeight..])
                == Race(z, at, priming, rounds)
      decreases |rounds| - blockHeight
    {
      if blockHeight == |rounds| {
        return SamplesExhausted;
      }
      var round := rounds[blockHeight];
      assert rounds[blockHeight..][1..] == rounds[blockHeight + 1..];
      honestCurrentTime := honestCurrentTime + round.honestInterval;
      attackerCurrentTime := attackerCurrentTime + round.attackerInterval;
      blockHeight := blockHeight + 1;

      if at < attackerCurrentTime {
        attackerBlockHeight := blockHeight + 1;
        return Finished(TrialOutcome(false, TruncToInt(at), attackerBlockHeight));
      }
      if blockHeight >= z - 1 && attackerCurrentTime <= honestCurrentTime {
        attackerBlockHeight := blockHeight + 1;
        return Finished(TrialOutcome(true, TruncToInt(attackerCurrentTime), attackerBlockHeight));
      }
    }
  }

  /** Starting after round i, if round k is the first terminal round past i,
      it decides the outcome. */
  lemma {:induction false} RaceFromStopsAtFirstTerminal(z: int, at: real, priming: real, rounds: seq<Round>,
                                                        i: nat, k: nat)
    requires i < k <= |rounds|
    requires Terminal(z, at, priming, rounds, k)
    requires forall j | i < j < k :: !Terminal(z, at, priming, rounds, j)
    ensures RaceFrom(z, at, HonestClock(rounds, i), AttackerClock(priming, rounds, i), i, rounds[i..])
            == Finished(RoundOutcome(at, priming, rounds, k))
    decreases k - i
  {
    assert rounds[i..][0] == rounds[i];
    assert rounds[i..][1..] == rounds[i + 1..];
    if i + 1 < k {
      assert !Terminal(z, at, priming, rounds, i + 1);
      RaceFromStopsAtFirstTerminal(z, at, priming, rounds, i + 1, k);
    }
  }

  /** The first round that meets either terminal condition decides the trial:
      a loss at the deadline if the attacker clock is past it, a win otherwise. */
  lemma FirstTerminalRoundDecides(z: int, at: real, priming: real, rounds: seq<Round>, k: nat)
    requires priming <= at
    requires 1 <= k <= |rounds|
    requires Terminal(z, at, priming, rounds, k)
    requires forall j | 1 <= j < k :: !Terminal(z, at, priming, rounds, j)
    ensures Race(z, at, priming, rounds) == Finished(RoundOutcome(at, priming, rounds, k))
  {
    assert rounds[0..] == rounds;
    RaceFromStopsAtFirstTerminal(z, at, priming, rounds, 0, k);
  }

  lemma {:induction false} RaceFromExhausts(z: int, at: real, priming: real, rounds: seq<Round>, i: nat)
    requires i <= |rounds|
    requires forall j | i < j <= |rounds| :: !Terminal(z, at, priming, rounds, j)
    ensures RaceFrom(z, at, HonestClock(rounds, i), AttackerClock(priming, rounds, i), i, rounds[i..])
            == SamplesExhausted
    decreases |rounds| - i
  {
    if i < |rounds| {
      assert rounds[i..][0] == rounds[i];
      assert rounds[i..][1..] == rounds[i + 1..];
      assert !Terminal(z, at, priming, rounds, i + 1);
      RaceFromExhausts(z, at, priming, rounds, i + 1);
    }
  }

  /** A trace in which no round is terminal ends in exhaustion, never in a result. */
  lemma NoTerminalRoundExhausts(z: int, at: real, priming: real, rounds: seq<Round>)
    requires priming <= at
    requires forall j | 1 <= j <= |rounds| :: !Terminal(z, at, priming, rounds, j)
    ensures Race(z, at, priming, rounds) == SamplesExhausted
  {
    assert rounds[0..] == rounds;
    RaceFromExhausts(z, at, priming, rounds, 0);
  }

  lemma {:induction false} RaceFromFinishedAtSomeRound(z: int, at: real, priming: real, rounds: seq<Round>, i: nat)
    requires i <= |rounds|
    requires RaceFrom(z, at, HonestClock(rounds, i), AttackerClock(priming, rounds, i), i, rounds[i..]).Finished?
    ensures exists k :: (
      && i < k <= |rounds|
      && Terminal(z, at, priming, rounds, k)
      && (forall j | i < j < k :: !Terminal(z, at, priming, rounds, j))
      && RaceFrom(z, at, HonestClock(rounds, i), AttackerClock(priming, rounds, i), i, rounds[i..]).outcome
         == RoundOutcome(at, priming, rounds, k))
    decreases |rounds| - i
  {
    assert rounds[i..][0] == rounds[i];
    assert rounds[i..][1..] == rounds[i + 1..];
    if Terminal(z, at, priming, rounds, i + 1) {
      assert i < i + 1 <= |rounds|;
    } else {
      RaceFromFinishedAtSomeRound(z, at, priming, rounds, i + 1);
      var k :| (
        && i + 1 < k <= |rounds|
        && Terminal(z, at, priming, rounds, k)
        && (forall j | i + 1 < j < k :: !Terminal(z, at, priming, rounds, j))
        && RaceFrom(z, at, HonestClock(rounds, i + 1), AttackerClock(priming, rounds, i + 1), i + 1, rounds[i + 1..]).outcome
           == RoundOutcome(at, priming, rounds, k));
      assert forall j | i < j < k :: !Terminal(z, at, priming, rounds, j);
    }
  }

  /** Conversely, every finished trial that got past the priming block ended
      at the first terminal round, and every earlier round had the attacker
      within the deadline and not yet winning. */
  lemma RaceFinishedAtSomeRound(z: int, at: real, priming: real, rounds: seq<Round>) returns (k: nat)
    requires priming <= at
    requires Race(z, at, priming, rounds).Finished?
    ensures 1 <= k <= |rounds| && Terminal(z, at, priming, rounds, k)
    ensures forall j | 1 <= j < k ::
      AttackerClock(priming, rounds, j) <= at
      && !(j >= z - 1 && AttackerClock(priming, rounds, j) <= HonestClock(rounds, j))
    ensures Race(z, at, priming, rounds).outcome == RoundOutcome(at, priming, rounds, k)
  {
    assert rounds[0..] == rounds;
    RaceFromFinishedAtSomeRound(z, at, priming, rounds, 0);
    k :| (
      && 0 < k <= |rounds|
      && Terminal(z, at, priming, rounds, k)
      && (forall j | 0 < j < k :: !Terminal(z, at, priming, rounds, j))
      && RaceFrom(z, at, HonestClock(rounds, 0), AttackerClock(priming, rounds, 0), 0, rounds[0..]).outcome
         == RoundOutcome(at, priming, rounds, k));
    forall j | 1 <= j < k
      ensures AttackerClock(priming, rounds, j) <= at
      ensures !(j >= z - 1 && AttackerClock(priming, rounds, j) <= HonestClock(rounds, j))
    {
      assert !Terminal(z, at, priming, rounds, j);
    }
  }

  /** Within a round the deadline is checked first: a round that puts the
      attacker past the deadline is a loss even if the attacker clock is
      not behind the honest clock and enough rounds have run. */
  lemma DeadlineCheckedBeforeWin(z: int, at: real, priming: real, rounds: seq<Round>, k: nat)
    requires priming <= at
    requires 1 <= k <= |rounds|
    requires forall j | 1 <= j < k :: !Terminal(z, at, priming, rounds, j)
    requires at < AttackerClock(priming, rounds, k)
    requires k >= z - 1 && AttackerClock(priming, rounds, k) <= HonestClock(rounds, k)
    ensures Race(z, at, priming, rounds) == Finished(TrialOutcome(false, TruncToInt(at), k + 1))
  {
    FirstTerminalRoundDecides(z, at, priming, rounds, k);
  }

  /** A win happens in some round k >= z - 1, reports attackerHeight = k + 1,
      and its finish time is the attacker clock, within the deadline and not
      behind the honest clock, truncated to whole seconds. */
  lemma WinFacts(z: int, at: real, priming: real, rounds: seq<Round>) returns (k: nat)
    requires Race(z, at, priming, rounds).Finished? && Race(z, at, priming, rounds).outcome.won
    ensures 1 <= k <= |rounds| && k >= z - 1
    ensures Race(z, at, priming, rounds).outcome.attackerHeight == k + 1
    ensures AttackerClock(priming, rounds, k) <= HonestClock(rounds, k)
    ensures AttackerClock(priming, rounds, k) <= at
    ensures Race(z, at, priming, rounds).outcome.finishTime == TruncToInt(AttackerClock(priming, rounds, k))
  {
    k := RaceFinishedAtSomeRound(z, at, priming, rounds);
  }

  /** A loss after the priming block happens in some round k whose attacker
      clock is past the deadline, and reports attackerHeight = k + 1. */
  lemma LossInLoopFacts(z: int, at: real, priming: real, rounds: seq<Round>) returns (k: nat)
    requires priming <= at
    requires Race(z, at, priming, rounds).Finished? && !Race(z, at, priming, rounds).outcome.won
    ensures 1 <= k <= |rounds| && at < AttackerClock(priming, rounds, k)
    ensures Race(z, at, priming, rounds).outcome == TrialOutcome(false, TruncToInt(at), k + 1)
  {
    k := RaceFinishedAtSomeRound(z, at, priming, rounds);
  }

  /** With non-negative intervals both clocks only move forward. */
  lemma {:induction false} ClocksNonDecreasing(priming: real, rounds: seq<Round>, j: nat, k: nat)
    requires j <= k <= |rounds|
    requires forall n | 0 <= n < |rounds| :: 0.0 <= rounds[n].honestInterval && 0.0 <= rounds[n].attackerInterval
    ensures HonestClock(rounds, j) <= HonestClock(rounds, k)
    ensures AttackerClock(priming, rounds, j) <= AttackerClock(priming, rounds, k)
    decreases k - j
  {
    if j < k {
      ClocksNonDecreasing(priming, rounds, j, k - 1);
    }
  }

  /** With a non-negative deadline and non-negative samples, every reported
      finish time lies between zero and the deadline. */
  lemma FinishTimeWithinDeadline(z: int, at: real, priming: real, rounds: seq<Round>)
    requires 0.0 <= at && 0.0 <= priming
    requires forall n | 0 <= n < |rounds| :: 0.0 <= rounds[n].honestInterval && 0.0 <= rounds[n].attackerInterval
    requires Race(z, at, priming, rounds).Finished?
    ensures 0 <= Race(z, at, priming, rounds).outcome.finishTime <= TruncToInt(at)
  {
    if Race(z, at, priming, rounds).outcome.won {
      var k := WinFacts(z, at, priming, rounds);
      ClocksNonDecreasing(priming, rounds, 0, k);
    }
  }

  /** main.cpp's instance: a priming interval beyond five days loses at
      once, reporting the whole deadline and one attacker block; a win needs
      at least five attacker blocks and finishes within the deadline. */
  lemma MainInstance(d: Draws)
    ensures MainDeadline as real < d.priming ==>
              Race(MainZ, MainDeadline as real, d.priming, d.rounds)
              == Finished(TrialOutcome(false, MainDeadline, 1))
    ensures Race(MainZ, MainDeadline as real, d.priming, d.rounds).Finished? ==>
              Race(MainZ, MainDeadline as real, d.priming, d.rounds).outcome.finishTime <= MainDeadline
    ensures (Race(MainZ, MainDeadline as real, d.priming, d.rounds).Finished?
             && Race(MainZ, MainDeadline as real, d.priming, d.rounds).outcome.won) ==>
              Race(MainZ, MainDeadline as real, d.priming, d.rounds).outcome.attackerHeight >= MainZ
  {
    TruncOfWhole(MainDeadline);
  }
}
