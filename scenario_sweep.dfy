/** The nested loops of `main` in dsa_efficient.cpp and dsa_simple.cpp: one
    scenario per (beta, AT) pair, beta in the outer loop and AT in the inner. */
module ScenarioSweep {
  import opened RaceOutcome
  import opened TrialAggregator

  /** The index pairs of row i of the sweep: (i, 0), (i, 1), ..., (i, k - 1). */
  function Row(i: nat, k: nat): seq<(nat, nat)>
  {
    seq(k, j requires 0 <= j < k => (i, j))
  }

  /** The (beta index, AT index) pairs of an m-by-k sweep in the order visited. */
  function SweepOrder(m: nat, k: nat): (r: seq<(nat, nat)>)
    ensures |r| == m * k
    ensures forall n | 0 <= n < |r| :: r[n].0 < m && r[n].1 < k
  {
    if m == 0 then [] else SweepOrder(m - 1, k) + Row(m - 1, k)
  }

  lemma RowStart(i: nat, m: nat, k: nat)
    requires i < m
    ensures i * k + k <= m * k
  {
    assert (m - i) * k >= k by {
      assert m - i >= 1;
    }
  }

  /** Row-major order: the pair (i, j) is visited at position i * |AT| + j. */
  lemma {:induction false} SweepOrderRowMajor(m: nat, k: nat, i: nat, j: nat)
    requires i < m && j < k
    ensures i * k + j < m * k
    ensures SweepOrder(m, k)[i * k + j] == (i, j)
  {
    RowStart(i, m, k);
    if i < m - 1 {
      RowStart(i, m - 1, k);
      SweepOrderRowMajor(m - 1, k, i, j);
    } else {
      assert i * k == (m - 1) * k;
    }
  }

  /** And every position n holds the pair (i, j) with n = i * |AT| + j. */
  lemma {:induction false} SweepOrderPosition(m: nat, k: nat, n: nat)
    requires n < m * k
    ensures n == SweepOrder(m, k)[n].0 * k + SweepOrder(m, k)[n].1
  {
    if m > 0 {
      assert m * k == (m - 1) * k + k;
      if n < (m - 1) * k {
        SweepOrderPosition(m - 1, k, n);
      }
    }
  }

  /** So the sweep visits each pair exactly once: position n holds (i, j)
      if and only if n = i * |AT| + j. */
  lemma SweepVisitsEachPairOnce(m: nat, k: nat, n: nat, i: nat, j: nat)
    requires n < m * k && i < m && j < k
    ensures SweepOrder(m, k)[n] == (i, j) <==> n == i * k + j
  {
    SweepOrderRowMajor(m, k, i, j);
    SweepOrderPosition(m, k, n);
  }

  /** Both `for` loops of `main`. The samples for scenario (i, j) come from
      draws(i, j); the deadline is the int atList[j] converted to double. */
  method RunSweep(betas: seq<real>, ats: seq<int>, draws: (nat, nat) -> seq<TrialDraws>)
    returns (visited: seq<(nat, nat)>, runs: seq<ScenarioRun>)
    ensures visited == SweepOrder(|betas|, |ats|)
    ensures |runs| == |visited| == |betas| * |ats|
    ensures forall n | 0 <= n < |runs| ::
      Tallies(betas[visited[n].0], ats[visited[n].1] as real, draws(visited[n].0, visited[n].1), runs[n])
  {
    visited, runs := [], [];
    for i := 0 to |betas|
      invariant visited == SweepOrder(i, |ats|)
      invariant |runs| == |visited|
      invariant forall n | 0 <= n < |runs| ::
        visited[n].0 < |betas| && visited[n].1 < |ats|
        && Tallies(betas[visited[n].0], ats[visited[n].1] as real, draws(visited[n].0, visited[n].1), runs[n])
    {
      for j := 0 to |ats|
        invariant visited == SweepOrder(i, |ats|) + Row(i, |ats|)[..j]
        invariant |runs| == |visited|
        invariant forall n | 0 <= n < |runs| ::
          visited[n].0 < |betas| && visited[n].1 < |ats|
          && Tallies(betas[visited[n].0], ats[visited[n].1] as real, draws(visited[n].0, visited[n].1), runs[n])
      {
        var beta := betas[i];
        var at := ats[j] as real;
        var run := RunScenario(beta, at, draws(i, j));
        assert Row(i, |ats|)[..j + 1] == Row(i, |ats|)[..j] + [(i, j)];
        visited := visited + [(i, j)];
        runs := runs + [run];
      }
      assert Row(i, |ats|)[..|ats|] == Row(i, |ats|);
    }
  }

  /** A scenario of the sweep reports a deadline loss at exactly the whole
      number of seconds in atList. */
  lemma SweepLossReportsDeadline(beta: real, at: int, draws: seq<TrialDraws>, res: ScenarioResult, k: nat)
    requires Records(beta, at as real, draws, res)
    requires k < |draws| && !res.wonList[k]
    ensures res.finishTimes[k] == at
  {
    assert RecordsTrial(beta, at as real, draws[k], res, k);
    TruncOfWhole(at);
  }
}
