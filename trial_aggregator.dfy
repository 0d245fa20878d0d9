/** The per-scenario trial loops of the three programs' `main`: run the race
    once per trial, count the attacker's wins, and record after every trial
    the running win rate and that trial's outcome fields. */
module TrialAggregator {
  import opened RaceOutcome
  import ContinuousRace
  import SplitStreamRace

  /** The samples injected into one trial. Their tag selects the race
      policy: dsa_efficient.cpp runs the continuous race, dsa_simple.cpp the
      split-stream race. */
  datatype TrialDraws =
    | ContinuousDraws(draws: ContinuousRace.Draws)
    | SplitStreamDraws(arrivals: seq<SplitStreamRace.Arrival>)

  /** The four parallel lists one scenario fills, trial by trial. */
  datatype ScenarioResult = ScenarioResult(
    winRates: seq<real>,
    wonList: seq<bool>,
    finishTimes: seq<int>,
    heights: seq<int>)

  /** A scenario either completes every trial, or stops at the first trial
      whose injected samples run out. */
  datatype ScenarioRun = Completed(result: ScenarioResult) | Aborted(trial: nat)

  /** main.cpp's tally: the win count, or the first trial that ran out of samples. */
  datatype WinCount = Counted(wins: nat) | CountAborted(trial: nat)

  /** One trial of a scenario with attacker share beta and deadline at.
      Both programs require six attacker blocks for a win, and both report
      the truncated deadline on a loss. */
  function Trial(beta: real, at: real, d: TrialDraws): (r: RaceResult)
    ensures r.Finished? ==> r.outcome.attackerHeight >= 0
    ensures r.Finished? && !r.outcome.won ==> r.outcome.finishTime == TruncToInt(at)
    ensures r.Finished? && r.outcome.won ==>
      r.outcome.attackerHeight >= 6 && r.outcome.finishTime <= TruncToInt(at)
  {
    match d
    case ContinuousDraws(c) => ContinuousRace.Race(ContinuousRace.EfficientZ, at, c.priming, c.rounds)
    case SplitStreamDraws(xs) => SplitStreamRace.Race(beta, at, xs)
  }

  /** One trial of main.cpp: z = 5 and a deadline of five days. */
  function MainTrial(d: ContinuousRace.Draws): RaceResult
  {
    ContinuousRace.Race(ContinuousRace.MainZ, ContinuousRace.MainDeadline as real, d.priming, d.rounds)
  }

  /** Every sampled interval of a trial is non-negative, as exponential
      samples are. */
  predicate NonNegativeSamples(d: TrialDraws) {
    match d
    case ContinuousDraws(c) =>
      && 0.0 <= c.priming
      && forall n | 0 <= n < |c.rounds| :: 0.0 <= c.rounds[n].honestInterval && 0.0 <= c.rounds[n].attackerInterval
    case SplitStreamDraws(xs) => forall n | 0 <= n < |xs| :: 0.0 <= xs[n].interval
  }

  /** Under either policy, with a non-negative deadline and non-negative
      samples, a finished trial reports a finish time between zero and the
      deadline. */
  lemma TrialFinishTimeWithinDeadline(beta: real, at: real, d: TrialDraws)
    requires 0.0 <= at && NonNegativeSamples(d)
    requires Trial(beta, at, d).Finished?
    ensures 0 <= Trial(beta, at, d).outcome.finishTime <= TruncToInt(at)
  {
    match d
    case ContinuousDraws(c) =>
      ContinuousRace.FinishTimeWithinDeadline(ContinuousRace.EfficientZ, at, c.priming, c.rounds);
    case SplitStreamDraws(xs) =>
      SplitStreamRace.FinishTimeWithinDeadline(beta, at, xs);
  }

  predicate IsWin(r: RaceResult) {
    r.Finished? && r.outcome.won
  }

  /** The number of wins in a list of won flags. */
  function Wins(won: seq<bool>): (n: nat)
    ensures n <= |won|
  {
    if won == [] then 0 else Wins(won[..|won| - 1]) + (if won[|won| - 1] then 1 else 0)
  }

  /** The running win rate after trial k (counted from 0) is the wins among
      trials 0..k divided by k + 1. */
  function RunningRate(won: seq<bool>, k: nat): real
    requires k < |won|
  {
    Wins(won[..k + 1]) as real / (k + 1) as real
  }

  /** Entry k of the lists records trial d: its outcome fields, and the
      running rate after it. */
  predicate RecordsTrial(beta: real, at: real, d: TrialDraws, res: ScenarioResult, k: nat)
    requires k < |res.winRates| && k < |res.wonList| && k < |res.finishTimes| && k < |res.heights|
  {
    && Trial(beta, at, d) == Finished(TrialOutcome(res.wonList[k], res.finishTimes[k], res.heights[k]))
    && res.winRates[k] == RunningRate(res.wonList, k)
  }

  /** What a scenario has recorded for the trials of draws: one entry per
      trial in every list, entry k recording trial k. */
  predicate Records(beta: real, at: real, draws: seq<TrialDraws>, res: ScenarioResult)
  {
    && |res.winRates| == |draws| && |res.wonList| == |draws|
    && |res.finishTimes| == |draws| && |res.heights| == |draws|
    && forall k | 0 <= k < |draws| :: RecordsTrial(beta, at, draws[k], res, k)
  }

  /** A scenario run is correct for its draws: complete with the right
      records when every trial finishes, otherwise stopped at the first
      trial that ran out of samples. */
  predicate Tallies(beta: real, at: real, draws: seq<TrialDraws>, run: ScenarioRun)
  {
    match run
    case Completed(res) => Records(beta, at, draws, res)
    case Aborted(t) =>
      && t < |draws|
      && Trial(beta, at, draws[t]) == SamplesExhausted
      && forall k | 0 <= k < t :: Trial(beta, at, draws[k]).Finished?
  }

  /** One call of the selected policy's simulateDoubleSpendingAttack. */
  method RunTrial(beta: real, at: real, d: TrialDraws) returns (results: RaceResult)
    ensures results == Trial(beta, at, d)
  {
    match d {
      case ContinuousDraws(c) =>
        results := ContinuousRace.Simulate(ContinuousRace.EfficientZ, at, c.priming, c.rounds);
      case SplitStreamDraws(xs) =>
        results := SplitStreamRace.Simulate(beta, at, xs);
    }
  }

  lemma WinsAppend(won: seq<bool>, b: bool)
    ensures Wins(won + [b]) == Wins(won) + (if b then 1 else 0)
  {
    assert (won + [b])[..|won|] == won;
  }

  /** Appending one trial's entries keeps the records of the earlier trials. */
  lemma RecordsKept(beta: real, at: real, draws: seq<TrialDraws>, k: nat, res: ScenarioResult,
                    res': ScenarioResult, j: nat)
    requires k < |draws| && j < k
    requires Records(beta, at, draws[..k], res)
    requires |res'.winRates| == |res'.wonList| == |res'.finishTimes| == |res'.heights| == k + 1
    requires res'.winRates[..k] == res.winRates && res'.wonList[..k] == res.wonList
    requires res'.finishTimes[..k] == res.finishTimes && res'.heights[..k] == res.heights
    ensures RecordsTrial(beta, at, draws[j], res', j)
  {
    assert draws[..k][j] == draws[j];
    assert RecordsTrial(beta, at, draws[..k][j], res, j);
    assert res'.wonList[..j + 1] == res.wonList[..j + 1];
    assert res'.winRates[j] == res.winRates[j];
    assert res'.finishTimes[j] == res.finishTimes[j] && res'.heights[j] == res.heights[j];
  }

  /** Recording one more finished trial keeps the records correct. */
  lemma RecordsExtend(beta: real, at: real, draws: seq<TrialDraws>, k: nat, res: ScenarioResult, wins: nat,
                      o: TrialOutcome, res': ScenarioResult)
    requires k < |draws|
    requires Records(beta, at, draws[..k], res)
    requires wins == Wins(res.wonList)
    requires Trial(beta, at, draws[k]) == Finished(o)
    requires res' == ScenarioResult(res.winRates + [(wins + if o.won then 1 else 0) as real / (k + 1) as real],
                                    res.wonList + [o.won],
                                    res.finishTimes + [o.finishTime],
                                    res.heights + [o.attackerHeight])
    ensures wins + (if o.won then 1 else 0) == Wins(res'.wonList)
    ensures Records(beta, at, draws[..k + 1], res')
  {
    WinsAppend(res.wonList, o.won);
    assert res'.wonList[..k + 1] == res'.wonList;
    assert res'.winRates[..k] == res.winRates && res'.wonList[..k] == res.wonList;
    assert res'.finishTimes[..k] == res.finishTimes && res'.heights[..k] == res.heights;
    var ds := draws[..k + 1];
    forall j | 0 <= j <= k
      ensures RecordsTrial(beta, at, ds[j], res', j)
    {
      assert ds[j] == draws[j];
      if j < k {
        RecordsKept(beta, at, draws, k, res, res', j);
      }
    }
    assert |res'.winRates| == |ds| && |res'.wonList| == |ds|;
    assert |res'.finishTimes| == |ds| && |res'.heights| == |ds|;
  }

  /** A trial that runs out of samples after k finished ones aborts the scenario at k. */
  lemma AbortedAtFirstExhausted(beta: real, at: real, draws: seq<TrialDraws>, k: nat, res: ScenarioResult)
    requires k < |draws|
    requires Records(beta, at, draws[..k], res)
    requires Trial(beta, at, draws[k]) == SamplesExhausted
    ensures Tallies(beta, at, draws, Aborted(k))
  {
    forall j | 0 <= j < k
      ensures Trial(beta, at, draws[j]).Finished?
    {
      assert draws[..k][j] == draws[j];
      assert RecordsTrial(beta, at, draws[..k][j], res, j);
    }
  }

  /** The `for (k = 0; k < n; k++)` loop of one scenario, with n = |draws|. */
  method RunScenario(beta: real, at: real, draws: seq<TrialDraws>) returns (run: ScenarioRun)
    ensures Tallies(beta, at, draws, run)
  {
    var attackerWins := 0;
    var attackerWinList: seq<bool> := [];
    var attackerTimeList: seq<int> := [];
    var attackerBlockHeightList: seq<int> := [];
    var winRateList: seq<real> := [];
    for k := 0 to |draws|
      invariant attackerWins == Wins(attackerWinList)
      invariant Records(beta, at, draws[..k],
                        ScenarioResult(winRateList, attackerWinList, attackerTimeList, attackerBlockHeightList))
    {
      var results := RunTrial(beta, at, draws[k]);
      if results == SamplesExhausted {
        AbortedAtFirstExhausted(beta, at, draws, k,
                                ScenarioResult(winRateList, attackerWinList, attackerTimeList, attackerBlockHeightList));
        return Aborted(k);
      }
      RecordsExtend(beta, at, draws, k,
                    ScenarioResult(winRateList, attackerWinList, attackerTimeList, attackerBlockHeightList),
                    attackerWins, results.outcome,
                    ScenarioResult(winRateList + [(attackerWins + if results.outcome.won then 1 else 0) as real / (k + 1) as real],
                                   attackerWinList + [results.outcome.won],
                                   attackerTimeList + [results.outcome.finishTime],
                                   attackerBlockHeightList + [results.outcome.attackerHeight]));
      if results.outcome.won {
        attackerWins := attackerWins + 1;
      }
      winRateList := winRateList + [attackerWins as real / (k + 1) as real];
      attackerWinList := attackerWinList + [results.outcome.won];
      attackerTimeList := attackerTimeList + [results.outcome.finishTime];
      attackerBlockHeightList := attackerBlockHeightList + [results.outcome.attackerHeight];
    }
    assert draws[..|draws|] == draws;
    run := Completed(ScenarioResult(winRateList, attackerWinList, attackerTimeList, attackerBlockHeightList));
  }

  /** The flags "trial k of main.cpp finished with a win". */
  function MainWinFlags(trials: seq<ContinuousRace.Draws>): seq<bool>
  {
    seq(|trials|, k requires 0 <= k < |trials| => IsWin(MainTrial(trials[k])))
  }

  /** main.cpp's loop: count the trials the attacker wins. */
  method CountAttackerWins(trials: seq<ContinuousRace.Draws>) returns (count: WinCount)
    ensures count.Counted? ==>
      && (forall k | 0 <= k < |trials| :: MainTrial(trials[k]).Finished?)
      && count.wins == Wins(MainWinFlags(trials))
      && count.wins <= |trials|
    ensures count.CountAborted? ==>
      && count.trial < |trials|
      && MainTrial(trials[count.trial]) == SamplesExhausted
      && forall k | 0 <= k < count.trial :: MainTrial(trials[k]).Finished?
  {
    var attackerWins := 0;
    for i := 0 to |trials|
      invariant forall k | 0 <= k < i :: MainTrial(trials[k]).Finished?
      invariant attackerWins == Wins(MainWinFlags(trials)[..i])
    {
      var results := ContinuousRace.Simulate(ContinuousRace.MainZ, ContinuousRace.MainDeadline as real,
                                             trials[i].priming, trials[i].rounds);
      if results == SamplesExhausted {
        return CountAborted(i);
      }
      assert MainWinFlags(trials)[..i + 1][..i] == MainWinFlags(trials)[..i];
      if results.outcome.won {
        attackerWins := attackerWins + 1;
      }
    }
    assert MainWinFlags(trials)[..|trials|] == MainWinFlags(trials);
    count := Counted(attackerWins);
  }

  /** Adding one trial adds its flag to the count, so the count never
      decreases, never grows by more than one, and never exceeds the trials. */
  lemma WinsStep(won: seq<bool>, k: nat)
    requires k < |won|
    ensures Wins(won[..k + 1]) == Wins(won[..k]) + (if won[k] then 1 else 0)
    ensures Wins(won[..k]) <= Wins(won[..k + 1]) <= Wins(won[..k]) + 1
    ensures Wins(won[..k + 1]) <= k + 1
  {
    assert won[..k + 1][..k] == won[..k];
  }

  /** Every running rate lies between 0 and 1, and times k + 1 it gives the
      wins among trials 0..k. */
  lemma RunningRateBounds(won: seq<bool>, k: nat)
    requires k < |won|
    ensures 0.0 <= RunningRate(won, k) <= 1.0
    ensures RunningRate(won, k) * (k + 1) as real == Wins(won[..k + 1]) as real
  {
    WinsStep(won, k);
    var w, d := Wins(won[..k + 1]) as real, (k + 1) as real;
    assert 0.0 <= w <= d;
    QuotientBounds(w, d);
  }

  lemma QuotientBounds(w: real, d: real)
    requires 0.0 <= w <= d && 0.0 < d
    ensures 0.0 <= w / d <= 1.0
    ensures w / d * d == w
  {
  }

  /** A scenario's records are fixed by its draws: two runs that both
      tally the same draws are the same run. */
  lemma {:induction false} TalliesDetermineRun(beta: real, at: real, draws: seq<TrialDraws>, r1: ScenarioRun, r2: ScenarioRun)
    requires Tallies(beta, at, draws, r1) && Tallies(beta, at, draws, r2)
    ensures r1 == r2
  {
    if r1.Completed? && r2.Completed? {
      var a, b := r1.result, r2.result;
      forall k | 0 <= k < |draws|
        ensures a.wonList[k] == b.wonList[k] && a.finishTimes[k] == b.finishTimes[k] && a.heights[k] == b.heights[k]
      {
        assert RecordsTrial(beta, at, draws[k], a, k) && RecordsTrial(beta, at, draws[k], b, k);
      }
      assert a.wonList == b.wonList;
      forall k | 0 <= k < |draws|
        ensures a.winRates[k] == b.winRates[k]
      {
        assert RecordsTrial(beta, at, draws[k], a, k) && RecordsTrial(beta, at, draws[k], b, k);
      }
      assert a.wonList == b.wonList;
      assert a.finishTimes == b.finishTimes;
      assert a.heights == b.heights;
      assert a.winRates == b.winRates;
    }
  }

  /** Every recorded outcome has a non-negative attacker height and a
      finish time no later than the deadline, under either policy; with a
      non-negative deadline and non-negative samples, no finish time is
      negative either. */
  lemma RecordedOutcomesBounded(beta: real, at: real, draws: seq<TrialDraws>, res: ScenarioResult)
    requires Records(beta, at, draws, res)
    ensures forall k | 0 <= k < |draws| :: res.heights[k] >= 0 && res.finishTimes[k] <= TruncToInt(at)
    ensures forall k | 0 <= k < |draws| :: 0.0 <= res.winRates[k] <= 1.0
    ensures 0.0 <= at && (forall k | 0 <= k < |draws| :: NonNegativeSamples(draws[k])) ==>
              forall k | 0 <= k < |draws| :: 0 <= res.finishTimes[k]
  {
    forall k | 0 <= k < |draws|
      ensures res.heights[k] >= 0 && res.finishTimes[k] <= TruncToInt(at)
      ensures 0.0 <= res.winRates[k] <= 1.0
      ensures 0.0 <= at && NonNegativeSamples(draws[k]) ==> 0 <= res.finishTimes[k]
    {
      assert RecordsTrial(beta, at, draws[k], res, k);
      RunningRateBounds(res.wonList, k);
      if 0.0 <= at && NonNegativeSamples(draws[k]) {
        TrialFinishTimeWithinDeadline(beta, at, draws[k]);
      }
    }
  }
}
