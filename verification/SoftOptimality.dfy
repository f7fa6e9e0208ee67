/** What the soft decoder maximises: the correlation of the received values with the code
    word, over every input that returns the trellis to state 0. */
module SoftOptimality {
  import opened Bits
  import opened Trellis
  import opened Viterbi
  import opened SoftViterbi

  /** The total gain of the path of u. */
  function Gain(gs: seq<Gains>, u: BitString): real
    requires |u| <= |gs|
  {
    if u == [] then 0.0 else
      var v := u[..|u| - 1];
      Gain(gs, v) + gs[|v|][Register(End(v), u[|u| - 1])]
  }

  lemma GainAppend(gs: seq<Gains>, v: BitString, b: bool)
    requires |v| < |gs|
    ensures End(v + [b]) == Next(End(v), b)
    ensures Gain(gs, v + [b]) == Gain(gs, v) + gs[|v|][Register(End(v), b)]
  {
    assert (v + [b])[..|v|] == v;
  }

  /** The path of u never falls to the sentinel. */
  ghost predicate StaysAbove(gs: seq<Gains>, u: BitString)
    requires |u| <= |gs|
  {
    Gain(gs, u) > NINF && (u != [] ==> StaysAbove(gs, u[..|u| - 1]))
  }

  // ----- The dynamic programme is optimal -----

  lemma ChoosesBest(pm: seq<real>, g: Gains, s: State, u: bool)
    requires |pm| == 16 && pm[s] > NINF
    ensures SoftChoose(pm, g, Next(s, u)).metric >= pm[s] + g[Register(s, u)]
  {
    var ns := Next(s, u);
    assert ns % 2 == Bit(u) && (s == ns / 2 || s == ns / 2 + 8);
  }

  lemma ChoiceIsABranch(pm: seq<real>, g: Gains, ns: State)
    requires |pm| == 16 && SoftChoose(pm, g, ns).metric > NINF
    ensures var c := SoftChoose(pm, g, ns);
      pm[c.prev] > NINF && Next(c.prev, c.input) == ns && c.metric == pm[c.prev] + g[Register(c.prev, c.input)]
  {
  }

  /** No path that stays above the sentinel gains more than the metric where it ends. */
  lemma {:induction false} MetricIsUpperBound(gs: seq<Gains>, u: BitString)
    requires |u| <= |gs| && StaysAbove(gs, u)
    ensures SoftMetrics(gs, |u|)[End(u)] >= Gain(gs, u)
  {
    if u != [] {
      var v := u[..|u| - 1];
      MetricIsUpperBound(gs, v);
      ChoosesBest(SoftMetrics(gs, |v|), gs[|v|], End(v), u[|u| - 1]);
      assert SoftMetrics(gs, |u|)[End(u)] == SoftSurvivors(gs, |v|)[End(u)].metric;
    }
  }

  lemma SurvivorStep(gs: seq<Gains>, i: nat, s: State)
    requires i < |gs| && SoftMetrics(gs, i + 1)[s] > NINF
    ensures var c := SoftSurvivors(gs, i)[s];
      && SoftMetrics(gs, i)[c.prev] > NINF && Next(c.prev, c.input) == s
      && SoftMetrics(gs, i + 1)[s] == SoftMetrics(gs, i)[c.prev] + gs[i][Register(c.prev, c.input)]
  {
    ChoiceIsABranch(SoftMetrics(gs, i), gs[i], s);
  }

  /** The traced path ends where the trace began and gains exactly the metric. */
  lemma {:induction false} TraceAchievesMetric(gs: seq<Gains>, i: nat, s: State)
    requires i <= |gs| && SoftMetrics(gs, i)[s] > NINF
    ensures End(SoftTrace(gs, i, s)) == s && Gain(gs, SoftTrace(gs, i, s)) == SoftMetrics(gs, i)[s]
  {
    if i > 0 {
      SurvivorStep(gs, i - 1, s);
      var c := SoftSurvivors(gs, i - 1)[s];
      TraceAchievesMetric(gs, i - 1, c.prev);
      GainAppend(gs, SoftTrace(gs, i - 1, c.prev), c.input);
    }
  }

  lemma TraceIsOptimal(gs: seq<Gains>, n: nat, u: BitString)
    requires n <= |gs| && |u| == n && End(u) == 0 && StaysAbove(gs, u)
    ensures End(SoftTrace(gs, n, 0)) == 0 && Gain(gs, SoftTrace(gs, n, 0)) >= Gain(gs, u)
  {
    MetricIsUpperBound(gs, u);
    TraceAchievesMetric(gs, n, 0);
  }

  // ----- In terms of what was received -----

  /** The correlation of the received values with the code word of u. */
  function Correlation(rx: seq<real>, u: BitString): real
    requires |u| <= |rx| / 4
  {
    if u == [] then 0.0 else
      var v := u[..|u| - 1];
      Correlation(rx, v) + BranchGain(rx, |v|, MemoryAfter(v), u[|u| - 1])
  }

  lemma GainOfBranch(rx: seq<real>, i: nat, s: State, u: bool)
    requires i < |rx| / 4
    ensures GainTables(rx)[i][Register(s, u)] == BranchGain(rx, i, MemoryOf(s), u)
  {
    GainTableIsPriced(rx, i);
    assert GainTables(rx)[i] == GainTable(rx, i);
  }

  lemma {:induction false} GainIsCorrelation(rx: seq<real>, u: BitString)
    requires |u| <= |rx| / 4
    ensures Gain(GainTables(rx), u) == Correlation(rx, u)
  {
    if u != [] {
      var v := u[..|u| - 1];
      GainIsCorrelation(rx, v);
      EndIsMemory(v);
      NumberNext(MemoryAfter(v), u[|u| - 1]);
      GainOfBranch(rx, |v|, End(v), u[|u| - 1]);
    }
  }

  function Abs(x: real): (r: real)
    ensures r >= 0.0
  {
    if x < 0.0 then -x else x
  }

  /** The sum of the magnitudes of the values used by the first n steps. */
  function Magnitude(rx: seq<real>, n: nat): (m: real)
    requires n <= |rx| / 4
    ensures m >= 0.0
  {
    if n == 0 then 0.0
    else
      Magnitude(rx, n - 1) + Abs(rx[4 * n - 4]) + Abs(rx[4 * n - 3]) + Abs(rx[4 * n - 2]) + Abs(rx[4 * n - 1])
  }

  lemma BranchGainWithin(rx: seq<real>, i: nat, m: Memory, u: bool)
    requires i < |rx| / 4
    ensures BranchGain(rx, i, m, u) >= Magnitude(rx, i) - Magnitude(rx, i + 1)
  {
  }

  lemma {:induction false} MagnitudeGrows(rx: seq<real>, i: nat, n: nat)
    requires i <= n <= |rx| / 4
    ensures Magnitude(rx, i) <= Magnitude(rx, n)
    decreases n
  {
    if i < n {
      MagnitudeGrows(rx, i, n - 1);
    }
  }

  lemma {:induction false} CorrelationWithin(rx: seq<real>, u: BitString)
    requires |u| <= |rx| / 4
    ensures Correlation(rx, u) >= -Magnitude(rx, |u|)
  {
    if u != [] {
      var v := u[..|u| - 1];
      CorrelationWithin(rx, v);
      BranchGainWithin(rx, |v|, MemoryAfter(v), u[|u| - 1]);
    }
  }

  lemma {:induction false} MagnitudeKeepsAbove(rx: seq<real>, u: BitString)
    requires |u| <= |rx| / 4 && Magnitude(rx, |rx| / 4) < -NINF
    ensures StaysAbove(GainTables(rx), u)
  {
    if u != [] {
      MagnitudeKeepsAbove(rx, u[..|u| - 1]);
    }
    CorrelationWithin(rx, u);
    GainIsCorrelation(rx, u);
    MagnitudeGrows(rx, |u|, |rx| / 4);
  }

  lemma NoBetterInput(rx: seq<real>, u: BitString)
    requires |u| == |rx| / 4 && End(u) == 0 && Magnitude(rx, |rx| / 4) < -NINF
    ensures var d := SoftTrace(GainTables(rx), |rx| / 4, 0); End(d) == 0 && Correlation(rx, d) >= Correlation(rx, u)
  {
    var d := SoftTrace(GainTables(rx), |rx| / 4, 0);
    MagnitudeKeepsAbove(rx, u);
    TraceIsOptimal(GainTables(rx), |rx| / 4, u);
    GainIsCorrelation(rx, u);
    GainIsCorrelation(rx, d);
  }

  /** For all received values whose magnitudes sum to less than the sentinel, the soft
      decoder's output drives the trellis back to state 0 and has the greatest correlation
      among all inputs of that length that do. */
  lemma SoftDecodeIsOptimal(rx: seq<real>)
    requires Magnitude(rx, |rx| / 4) < 1_000_000_000_000_000_000.0
    ensures var d := SoftTrace(GainTables(rx), |rx| / 4, 0);
      End(d) == 0 && forall u :: |u| == |rx| / 4 && End(u) == 0 ==> Correlation(rx, d) >= Correlation(rx, u)
  {
    var d := SoftTrace(GainTables(rx), |rx| / 4, 0);
    ZerosEndInZero(|rx| / 4);
    NoBetterInput(rx, Zeros(|rx| / 4));
    forall u | |u| == |rx| / 4 && End(u) == 0 ensures Correlation(rx, d) >= Correlation(rx, u) {
      NoBetterInput(rx, u);
    }
  }
}
