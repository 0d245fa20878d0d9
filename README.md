# Double-spend race simulator, modelled in Dafny

This project models the deterministic core of a Monte Carlo simulator. The
simulator estimates how often an attacker with a share `beta` of the hash
power can build a private chain that overtakes the honest chain before a
deadline `AT`. The repository has three C++ programs:

- `dsa_efficient.cpp`, the continuous race. After one priming attacker block,
  each round advances an honest clock and an attacker clock by one sampled
  interval each. The round then checks "attacker past the deadline: lose"
  before "at least z − 1 rounds and attacker clock ≤ honest clock: win".
  Here z = 6 and beta and AT are passed in.
- `main.cpp`, the same continuous race with z = 5 and AT fixed at 432000 s.
  Its `main` only counts the wins.
- `dsa_simple.cpp`, the split-stream race. One merged stream of arrivals
  starts from heights honest 1 and attacker 0. Before an arrival is
  committed, the program checks whether it would pass the deadline. The
  arrival goes to the attacker iff beta ≥ a uniform draw. The trial is won
  once the attacker has at least 6 blocks and more than the honest chain.

In both dsa programs, `main` sweeps every (beta, AT) pair with beta in the
outer loop. Each scenario runs n trials and keeps four parallel lists: the
running win rate `wins/(k+1)`, the won flag, the finish time and the
attacker height. `betaToString` erases the '.' from beta's printed form to
build a file name.

The samples are not drawn in the model. They are passed in as finite
sequences:

- a continuous trial gets `Draws(priming, rounds)`, where each `Round` holds
  an honest interval and an attacker interval;
- a split-stream trial gets a sequence of `Arrival(interval, draw)`.

The tag on a trial's samples (`ContinuousDraws` or `SplitStreamDraws`)
selects the race that trial runs (`TrialAggregator.Trial`). Each program
runs one race for every trial, but the model does not require the tags of
a scenario to agree, so a modelled scenario may mix the two races. The
scenario and sweep contracts hold trial by trial whatever the tag, so a
program's single-race scenario is the special case where every tag is the
same.

Each race has three parts:

- a recursive function (`Race`/`RaceFrom`) that follows the loop step by step;
- an imperative `while true` method (`Simulate`) proved equal to that function;
- lemmas that characterise the result in closed form. The trial ends at the
  first terminal round or arrival, and that step alone decides the record.

Modules: `RaceOutcome` (the outcome record and the double-to-int
truncation), `ContinuousRace`, `SplitStreamRace`, `TrialAggregator`,
`ScenarioSweep` and `BetaLabel`.

On these points the model follows the C++ code:

- `finTime` is an `int` in all three programs. A reported finish time is
  therefore the clock truncated toward zero (`TruncToInt`), not a real
  number. A deadline loss reports `TruncToInt(at)`, which is exactly `at`
  for the whole-second deadlines of the sweeps (`SweepLossReportsDeadline`).
- The programs do not reject invalid parameters (beta outside (0, 1),
  AT ≤ 0), so neither does the model. Lemmas that need non-negative samples
  or deadlines say so in their `requires`.
- The programs have no round cap. The loops end only on a terminal
  condition. The model ends them instead when the injected samples run out,
  with the extra result `SamplesExhausted`. A scenario or a win count whose
  trial runs out stops at that trial (`Aborted(k)` / `CountAborted(k)`).
- A split-stream trial with AT = 0 loses at once only if the first interval
  is positive. A zero interval satisfies `0 + 0 > 0` as false, so the
  arrival is committed (`ZeroDeadlineLoses` requires a positive interval).
- In the continuous race, beta (and alpha) only set the sampling rates. The
  race logic never reads them, so the continuous functions take z and AT
  only.

## Model

| member | source | states |
|---|---|---|
| RaceOutcome.TruncToInt | dsa_efficient.cpp:36 | the int stored from a double is its value truncated toward zero: n ≤ x < n + 1 for x ≥ 0, n − 1 < x ≤ n for x < 0 |
| RaceOutcome.TruncMonotonic | dsa_efficient.cpp:86 | truncation preserves ≤, so an attacker clock within the deadline reports a finish time no later than the truncated deadline |
| RaceOutcome.TruncOfWhole | dsa_efficient.cpp:126 | a deadline converted from an int is reported back unchanged |
| ContinuousRace.Race | dsa_efficient.cpp:21-95 | a priming interval past AT loses at once with (false, trunc AT, 1); every result has attackerHeight ≥ 1; a loss reports trunc AT; a win has attackerHeight ≥ z and ≥ 2 and finishTime ≤ trunc AT |
| ContinuousRace.RaceFrom | dsa_efficient.cpp:63-91 | from any loop state, a finished result has attackerHeight ≥ rounds done + 2, a loss reports trunc AT, a win has attackerHeight ≥ z and finishTime ≤ trunc AT |
| ContinuousRace.Simulate | dsa_efficient.cpp:21-95 | the imperative priming step and `while (true)` loop return exactly `Race(z, at, priming, rounds)` |
| ContinuousRace.FirstTerminalRoundDecides | dsa_efficient.cpp:63-91 | if round k is the first round whose attacker clock passes AT or that has k ≥ z − 1 and attacker clock ≤ honest clock, the trial ends there with the record of round k (deadline checked first) |
| ContinuousRace.NoTerminalRoundExhausts | dsa_efficient.cpp:63-91 | if no round meets either terminal condition, no result is reported (samples exhausted) |
| ContinuousRace.RaceFinishedAtSomeRound | dsa_efficient.cpp:63-91 | every finished trial past the priming block stops at a terminal round k; every earlier round had attacker clock ≤ AT and not (round ≥ z − 1 and attacker clock ≤ honest clock); the record is round k's |
| ContinuousRace.DeadlineCheckedBeforeWin | dsa_efficient.cpp:73-90 | a first terminal round whose attacker clock passes AT loses with (false, trunc AT, k + 1) even when k ≥ z − 1 and attacker clock ≤ honest clock |
| ContinuousRace.WinFacts | dsa_efficient.cpp:83-90 | a win happens in a round k ≥ z − 1, reports attackerHeight = k + 1, has attacker clock (priming plus k attacker intervals) ≤ honest clock and ≤ AT, and reports that clock truncated |
| ContinuousRace.LossInLoopFacts | dsa_efficient.cpp:73-80 | a loss after the priming block happens in a round k whose attacker clock is past AT and reports (false, trunc AT, k + 1) |
| ContinuousRace.ClocksNonDecreasing | main.cpp:64-67 | with non-negative intervals, the honest clock (sum of honest intervals) and the attacker clock (priming plus attacker intervals) never decrease from round to round |
| ContinuousRace.FinishTimeWithinDeadline | dsa_efficient.cpp:45-90 | with non-negative AT and samples, every finish time lies in [0, trunc AT] |
| ContinuousRace.MainInstance | main.cpp:19-93 | with z = 5 and AT = 432000: a priming interval past AT gives (false, 432000, 1); every finish time is ≤ 432000; a win has attackerHeight ≥ 5 |
| SplitStreamRace.Race | dsa_simple.cpp:21-77 | starting from heights 0 and 1, every result has attackerHeight ≥ 0; a loss reports trunc AT; a win has attackerHeight ≥ 6 and finishTime ≤ trunc AT |
| SplitStreamRace.RaceFrom | dsa_simple.cpp:43-74 | from any loop state, attacker height never decreases; a loss reports trunc AT; a win has attackerHeight ≥ 6 and finishTime ≤ trunc AT |
| SplitStreamRace.Simulate | dsa_simple.cpp:21-77 | the imperative `while (true)` loop returns exactly `Race(beta, at, arrivals)` |
| SplitStreamRace.HeightsAccountForArrivals | dsa_simple.cpp:56-65 | each committed arrival raises exactly one height, so attacker + honest = 1 + committed arrivals |
| SplitStreamRace.FirstTerminalArrivalDecides | dsa_simple.cpp:43-74 | if arrival k is the first one whose commit would pass AT, or after which the attacker has ≥ 6 blocks and more than the honest chain, the trial ends there with arrival k's record |
| SplitStreamRace.NoTerminalArrivalExhausts | dsa_simple.cpp:43-74 | if no arrival is terminal, no result is reported (samples exhausted) |
| SplitStreamRace.RaceFinishedAtSomeArrival | dsa_simple.cpp:43-74 | every finished trial stops at a terminal arrival k; before it every committed clock is ≤ AT and no earlier commit met the win condition; the record is arrival k's |
| SplitStreamRace.LossFacts | dsa_simple.cpp:48-53 | a loss happens at the first arrival whose commit would pass AT; every committed clock is ≤ AT; it reports (false, trunc AT, attacker height before that arrival), so nothing is committed first |
| SplitStreamRace.WinFacts | dsa_simple.cpp:56-73 | a win happens right after committing arrival k with clock ≤ AT, attacker height ≥ 6 and > honest height, heights summing to 1 + k, and finishTime = truncated clock |
| SplitStreamRace.RoutingRaisesOneHeight | dsa_simple.cpp:56-65 | committing arrival k raises the attacker height iff beta ≥ its draw, and the honest height otherwise; neither height decreases |
| SplitStreamRace.ClockNonNegative | dsa_simple.cpp:58-64 | with non-negative intervals the clock is never negative |
| SplitStreamRace.FinishTimeWithinDeadline | dsa_simple.cpp:43-74 | with non-negative AT and intervals, every finish time lies in [0, trunc AT] |
| SplitStreamRace.ZeroDeadlineLoses | dsa_simple.cpp:28-53 | with AT = 0 and a positive first interval, the trial loses at once with (false, 0, 0) |
| TrialAggregator.Trial | dsa_simple.cpp:122 | a trial under either policy reports attackerHeight ≥ 0, a loss reports trunc AT, a win needs ≥ 6 attacker blocks and finishes by trunc AT |
| TrialAggregator.RunTrial | dsa_efficient.cpp:140 | one `simulateDoubleSpendingAttack(beta, at)` call of the selected race returns exactly `Trial(beta, at, d)` |
| TrialAggregator.TrialFinishTimeWithinDeadline | dsa_efficient.cpp:140 | under either policy, with non-negative AT and samples, a finish time lies in [0, trunc AT] |
| TrialAggregator.Wins | dsa_efficient.cpp:142-145 | the win count never exceeds the number of trials counted |
| TrialAggregator.RunScenario | dsa_efficient.cpp:138-151 | the trial loop yields four lists of length n; entry k holds trial k's won flag, finish time and height, and the running rate wins(0..k)/(k + 1); or it stops at the first trial whose samples run out |
| TrialAggregator.CountAttackerWins | main.cpp:98-107 | the win count equals the number of trials that finish with a win, and is ≤ n; or the count stops at the first trial whose samples run out |
| TrialAggregator.WinsStep | dsa_simple.cpp:124-128 | one more trial adds exactly its flag to the count: the running count never decreases, grows by at most one, and never exceeds k + 1 |
| TrialAggregator.RunningRateBounds | dsa_efficient.cpp:146 | the running rate pushed after trial k (likewise dsa_simple.cpp:128), wins(0..k)/(k + 1), lies in [0, 1] and times k + 1 gives the wins so far |
| TrialAggregator.TalliesDetermineRun | dsa_efficient.cpp:138-151 | the result of a scenario is fixed by its samples: two runs that both satisfy RunScenario's postcondition are equal |
| TrialAggregator.RecordedOutcomesBounded | dsa_simple.cpp:120-133 | under either policy every recorded height is ≥ 0, every finish time is ≤ trunc AT, and every running rate is in [0, 1]; with non-negative AT and samples every finish time is also ≥ 0 |
| ScenarioSweep.SweepOrder | dsa_efficient.cpp:118-121 | the sweep order of an m × k sweep has m·k entries, each a pair of valid indices |
| ScenarioSweep.SweepOrderRowMajor | dsa_efficient.cpp:118-126 | the pair (i, j) is visited at position i·k + j, with beta in the outer loop and AT in the inner loop |
| ScenarioSweep.SweepOrderPosition | dsa_efficient.cpp:118-126 | every position n of the sweep holds the pair (i, j) with n = i·k + j |
| ScenarioSweep.SweepVisitsEachPairOnce | dsa_efficient.cpp:118-126 | position n holds (i, j) iff n = i·k + j, so each pair is visited exactly once |
| ScenarioSweep.RunSweep | dsa_efficient.cpp:118-160 | the nested loops visit exactly the m·k pairs in row-major order; scenario n is run with (betaList[i], atList[j]) and that pair's samples, and satisfies RunScenario's postcondition |
| ScenarioSweep.SweepLossReportsDeadline | dsa_efficient.cpp:116-126 | in a sweep scenario a lost trial reports exactly the whole-second deadline from atList |
| BetaLabel.WithoutDots | dsa_simple.cpp:84 | the erased text is no longer than the input and contains no '.' |
| BetaLabel.WithoutDotsAppend | dsa_simple.cpp:84 | erasing dots commutes with concatenation, so the remaining characters keep their original order |
| BetaLabel.OtherCharactersKept | dsa_simple.cpp:84 | every character other than '.' occurs as often after erasure as before |
| BetaLabel.DotFreeUnchanged | dsa_simple.cpp:84 | erasure leaves a text unchanged iff it has no '.' |
| BetaLabel.RemoveDots | dsa_efficient.cpp:102 | `std::remove` in place: the prefix up to the returned end is the input with every '.' removed |
| BetaLabel.BetaToString | dsa_efficient.cpp:97-104 | the label is the formatted text with every '.' removed |

## Left out

- `generateBlockTime` (exponential sampling over `std::random_device` and `mt19937`) is not modelled. It is library randomness with transcendental floating point. Its results are passed in as `Round` and `Arrival` intervals.
- The `rand()/RAND_MAX` routing draw is not modelled either. It is passed in as `Arrival.draw`, compared with beta exactly as the code does.
- The `ostringstream` printing of beta inside `betaToString` is not modelled. It is library formatting of a double. `BetaToString` takes the printed text as input.
- CSV output, file-name building, console output and `std::chrono` timing are I/O and are not modelled. The sweep returns the scenario runs instead of writing them.
- Floating point: clocks are exact `real` sums and win rates exact `real` quotients. IEEE rounding of the sums and of `(double)attackerWins / (k + 1)` is not modelled.
- The unused `blockOrder` vector is not modelled, nor are `alpha` and `T`, which only parametrise the sampler. In the continuous race, beta only feeds the sampler, so it is absent too.
- Integer widths are not modelled. Overflow of the C++ `int` counters (rounds, heights, wins, n) cannot occur on finite traces of realistic size. Converting a double out of `int` range to `int` is undefined in C++, and the model's `TruncToInt` is total instead.
- Statistical properties (convergence of the win rate, independence of samples) are probabilistic and cannot be stated here.
- The hard-coded trial counts (10000 × 100, 1000000, 100000) and the literal beta and AT lists are not modelled. The model takes n from the number of injected trial samples and takes the lists as parameters.
- BetaLabel.RemoveDots: like `std::remove`, it says nothing about the characters after the returned end. `BetaToString` cuts them off, as `erase` does.
