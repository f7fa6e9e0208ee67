/** viterbi_r14_soft, which maximises a correlation instead of minimising mismatches, and
    its agreement with the hard decoder on hard inputs.  Floating point is modelled by
    real numbers. */
module SoftViterbi {
  import opened Bits
  import opened Trellis
  import opened Viterbi

  const NINF: real := -1_000_000_000_000_000_000.0

  type Gains = b: seq<real> | |b| == 32 witness seq(32, _ => 0.0)

  // ----- The dynamic programme -----

  datatype SoftChoice = SoftChoice(metric: real, prev: State, input: bool)

  const SOFT_NONE := SoftChoice(NINF, 0, false)

  function SoftOffer(pm: seq<real>, g: Gains, c: SoftChoice, s: State, u: bool): SoftChoice
    requires |pm| == 16
  {
    if pm[s] <= NINF then c
    else
      var metric := pm[s] + g[Register(s, u)];
      if metric > c.metric then SoftChoice(metric, s, u) else c
  }

  function SoftChoose(pm: seq<real>, g: Gains, ns: State): SoftChoice
    requires |pm| == 16
  {
    var u := ns % 2 == 1;
    SoftOffer(pm, g, SoftOffer(pm, g, SOFT_NONE, ns / 2, u), ns / 2 + 8, u)
  }

  function SoftMetrics(gs: seq<Gains>, i: nat): (pm: seq<real>)
    requires i <= |gs|
    ensures |pm| == 16
    decreases i, 0
  {
    if i == 0 then seq(16, s => if s == 0 then 0.0 else NINF)
    else var row := SoftSurvivors(gs, i - 1); seq(16, s requires 0 <= s < 16 => row[s].metric)
  }

  function SoftSurvivors(gs: seq<Gains>, i: nat): (row: seq<SoftChoice>)
    requires i < |gs|
    ensures |row| == 16
    decreases i, 1
  {
    var pm := SoftMetrics(gs, i);
    seq(16, s requires 0 <= s < 16 => SoftChoose(pm, gs[i], s))
  }

  function SoftTrace(gs: seq<Gains>, i: nat, s: State): (u: BitString)
    requires i <= |gs|
    ensures |u| == i
  {
    if i == 0 then [] else
      var c := SoftSurvivors(gs, i - 1)[s];
      SoftTrace(gs, i - 1, c.prev) + [c.input]
  }

  // ----- Correlation gains -----

  /** x * (1 - 2e): +x where a 0 is expected, -x where a 1 is. */
  function Signed(x: real, e: bool): real {
    if e then -x else x
  }

  function BranchGain(rx: seq<real>, i: nat, m: Memory, u: bool): real
    requires 4 * i + 4 <= |rx|
  {
    Signed(rx[4 * i], Out(m, u, 0)) + Signed(rx[4 * i + 1], Out(m, u, 1))
    + Signed(rx[4 * i + 2], Out(m, u, 2)) + Signed(rx[4 * i + 3], Out(m, u, 3))
  }

  function GainTable(rx: seq<real>, i: nat): Gains
    requires 4 * i + 4 <= |rx|
  {
    seq(32, sr requires 0 <= sr < 32 => BranchGain(rx, i, MemoryOf(sr / 2), sr % 2 == 1))
  }

  function GainTables(rx: seq<real>): (gs: seq<Gains>)
    ensures |gs| == |rx| / 4
  {
    seq(|rx| / 4, i requires 0 <= i < |rx| / 4 => GainTable(rx, i))
  }

  // ----- Agreement with the hard decoder -----

  /** A hard symbol as a soft value: +1 for 0, -1 for 1, 0 for an erasure. */
  function Soft(r: Sym): real {
    if r == 0 then 1.0 else if r == 1 then -1.0 else 0.0
  }

  function SoftInput(rx: seq<Sym>): seq<real> {
    seq(|rx|, i requires 0 <= i < |rx| => Soft(rx[i]))
  }

  /** How many of the four symbols of step i were received. */
  function Kept(rx: seq<Sym>, i: nat): (k: nat)
    requires 4 * i + 4 <= |rx|
    ensures k <= 4
  {
    (if rx[4 * i] == 2 then 0 else 1) + (if rx[4 * i + 1] == 2 then 0 else 1)
    + (if rx[4 * i + 2] == 2 then 0 else 1) + (if rx[4 * i + 3] == 2 then 0 else 1)
  }

  /** The gain of a branch is the received count minus twice its mismatches. */
  lemma GainIsKeptMinusTwiceCost(rx: seq<Sym>, i: nat, m: Memory, u: bool)
    requires 4 * i + 4 <= |rx|
    ensures BranchGain(SoftInput(rx), i, m, u) == (Kept(rx, i) - 2 * BranchCost(rx, i, m, u)) as real
  {
    var x := SoftInput(rx);
    GainOfOne(rx[4 * i], Out(m, u, 0));
    GainOfOne(rx[4 * i + 1], Out(m, u, 1));
    GainOfOne(rx[4 * i + 2], Out(m, u, 2));
    GainOfOne(rx[4 * i + 3], Out(m, u, 3));
  }

  lemma GainOfOne(r: Sym, e: bool)
    ensures Signed(Soft(r), e) == ((if r == 2 then 0 else 1) - 2 * Mismatch(e, r)) as real
  {
  }

  /** The soft table of a step mirrors the hard one. */
  ghost predicate Mirrored(bc: Branches, g: Gains, d: nat) {
    d <= 4 && forall k {:trigger g[k]} :: 0 <= k < 32 ==> bc[k] <= 4 && g[k] == (d - 2 * bc[k]) as real
  }

  lemma TablesMirror(rx: seq<Sym>, i: nat)
    requires i < |rx| / 4
    ensures Mirrored(Tables(rx)[i], GainTables(SoftInput(rx))[i], Kept(rx, i))
  {
    forall k | 0 <= k < 32
      ensures Tables(rx)[i][k] <= 4
      ensures GainTables(SoftInput(rx))[i][k] == (Kept(rx, i) - 2 * Tables(rx)[i][k]) as real
    {
      GainIsKeptMinusTwiceCost(rx, i, MemoryOf(k / 2), k % 2 == 1);
    }
  }

  /** Soft and hard choice agree: same branch, metric = received count - 2 * mismatches. */
  predicate Agree(c: Choice, s: SoftChoice, kept: nat) {
    && c.prev == s.prev && c.input == s.input
    && if c.metric < INF then 0 <= c.metric && s.metric == (kept - 2 * c.metric) as real
       else c.metric == INF && s.metric == NINF
  }

  ghost predicate MetricsAgree(pm: seq<int>, sp: seq<real>, kept: nat, bound: nat)
    requires |pm| == |sp| == 16
  {
    kept <= bound && forall s: State {:trigger sp[s]} ::
      if pm[s] < INF then 0 <= pm[s] <= bound && sp[s] == (kept - 2 * pm[s]) as real
      else pm[s] == INF && sp[s] == NINF
  }

  lemma OffersAgree(pm: seq<int>, sp: seq<real>, bc: Branches, g: Gains, kept: nat, d: nat, bound: nat,
                    c: Choice, sc: SoftChoice, s: State, u: bool)
    requires |pm| == |sp| == 16 && MetricsAgree(pm, sp, kept, bound) && Mirrored(bc, g, d) && bound + 4 < INF
    requires Agree(c, sc, kept + d) && (c.metric < INF ==> c.metric <= bound + 4)
    ensures var c' := Offer(pm, bc, c, s, u);
      Agree(c', SoftOffer(sp, g, sc, s, u), kept + d) && (c'.metric < INF ==> c'.metric <= bound + 4)
  {
    assert sp[s] == sp[s] && g[Register(s, u)] == g[Register(s, u)];
  }

  lemma ChoicesAgree(pm: seq<int>, sp: seq<real>, bc: Branches, g: Gains, kept: nat, d: nat, bound: nat, ns: State)
    requires |pm| == |sp| == 16 && MetricsAgree(pm, sp, kept, bound) && Mirrored(bc, g, d) && bound + 4 < INF
    ensures Agree(Choose(pm, bc, ns), SoftChoose(sp, g, ns), kept + d)
    ensures Choose(pm, bc, ns).metric < INF ==> Choose(pm, bc, ns).metric <= bound + 4
  {
    var u := ns % 2 == 1;
    OffersAgree(pm, sp, bc, g, kept, d, bound, NONE, SOFT_NONE, ns / 2, u);
    OffersAgree(pm, sp, bc, g, kept, d, bound, Offer(pm, bc, NONE, ns / 2, u),
                SoftOffer(sp, g, SOFT_NONE, ns / 2, u), ns / 2 + 8, u);
  }

  /** Every step's soft table mirrors its hard one, with the counts ds. */
  ghost predicate AllMirrored(bcs: seq<Branches>, gs: seq<Gains>, ds: seq<nat>) {
    |bcs| == |gs| == |ds| && forall i {:trigger gs[i]} :: 0 <= i < |gs| ==> Mirrored(bcs[i], gs[i], ds[i])
  }

  function Total(ds: seq<nat>, i: nat): nat
    requires i <= |ds|
  {
    if i == 0 then 0 else Total(ds, i - 1) + ds[i - 1]
  }

  lemma SurvivorAgrees(bcs: seq<Branches>, gs: seq<Gains>, ds: seq<nat>, i: nat, s: State)
    requires AllMirrored(bcs, gs, ds) && i < |gs| && 4 * i + 4 < INF
    requires MetricsAgree(Metrics(bcs, i), SoftMetrics(gs, i), Total(ds, i), 4 * i)
    ensures Agree(Survivors(bcs, i)[s], SoftSurvivors(gs, i)[s], Total(ds, i + 1))
    ensures Survivors(bcs, i)[s].metric < INF ==> Survivors(bcs, i)[s].metric <= 4 * i + 4
  {
    ChoicesAgree(Metrics(bcs, i), SoftMetrics(gs, i), bcs[i], gs[i], Total(ds, i), ds[i], 4 * i, s);
  }

  lemma NextMetrics(bcs: seq<Branches>, gs: seq<Gains>, i: nat, s: State)
    requires i < |bcs| == |gs|
    ensures Metrics(bcs, i + 1)[s] == Survivors(bcs, i)[s].metric
    ensures SoftMetrics(gs, i + 1)[s] == SoftSurvivors(gs, i)[s].metric
  {
  }

  lemma {:induction false} AllMetricsAgree(bcs: seq<Branches>, gs: seq<Gains>, ds: seq<nat>, i: nat)
    requires AllMirrored(bcs, gs, ds) && i <= |gs| && 4 * i < INF
    ensures MetricsAgree(Metrics(bcs, i), SoftMetrics(gs, i), Total(ds, i), 4 * i)
  {
    if i > 0 {
      AllMetricsAgree(bcs, gs, ds, i - 1);
      var pm, sp, kept := Metrics(bcs, i), SoftMetrics(gs, i), Total(ds, i);
      assert Mirrored(bcs[i - 1], gs[i - 1], ds[i - 1]);
      forall s: State
        ensures if pm[s] < INF then 0 <= pm[s] <= 4 * i && sp[s] == (kept - 2 * pm[s]) as real
                else pm[s] == INF && sp[s] == NINF
      {
        SurvivorAgrees(bcs, gs, ds, i - 1, s);
        NextMetrics(bcs, gs, i - 1, s);
      }
    }
  }

  lemma {:induction false} TracesAgree(bcs: seq<Branches>, gs: seq<Gains>, ds: seq<nat>, i: nat, s: State)
    requires AllMirrored(bcs, gs, ds) && i <= |gs| && 4 * i < INF
    ensures SoftTrace(gs, i, s) == Trace(bcs, i, s)
  {
    if i > 0 {
      AllMetricsAgree(bcs, gs, ds, i - 1);
      SurvivorAgrees(bcs, gs, ds, i - 1, s);
      TracesAgree(bcs, gs, ds, i - 1, Survivors(bcs, i - 1)[s].prev);
    }
  }

  /** On hard inputs the soft decoder returns, bit for bit, what the hard decoder does. */
  lemma SoftTraceIsHardTrace(rx: seq<Sym>)
    requires |rx| < INF
    ensures SoftTrace(GainTables(SoftInput(rx)), |rx| / 4, 0) == Trace(Tables(rx), |rx| / 4, 0)
  {
    var ds := seq(|rx| / 4, i requires 0 <= i < |rx| / 4 => Kept(rx, i));
    forall i | 0 <= i < |rx| / 4 ensures Mirrored(Tables(rx)[i], GainTables(SoftInput(rx))[i], ds[i]) {
      TablesMirror(rx, i);
    }
    TracesAgree(Tables(rx), GainTables(SoftInput(rx)), ds, |rx| / 4, 0);
  }

  // ----- The loops -----

  function SoftRelaxState(pm: seq<real>, g: Gains, row: seq<SoftChoice>, k: State): (r: seq<SoftChoice>)
    requires |pm| == 16 && |row| == 16
    ensures |r| == 16
  {
    var n0, n1 := Next(k, false), Next(k, true);
    row[n0 := SoftOffer(pm, g, row[n0], k, false)][n1 := SoftOffer(pm, g, row[n1], k, true)]
  }

  function SoftRelaxed(pm: seq<real>, g: Gains, k: nat): (row: seq<SoftChoice>)
    requires |pm| == 16 && k <= 16
    ensures |row| == 16
    decreases k
  {
    if k == 0 then seq(16, _ => SOFT_NONE) else SoftRelaxState(pm, g, SoftRelaxed(pm, g, k - 1), k - 1)
  }

  lemma {:induction false} SoftRelaxedAt(pm: seq<real>, g: Gains, k: nat, s: State)
    requires |pm| == 16 && k <= 16
    ensures var u := s % 2 == 1;
      SoftRelaxed(pm, g, k)[s] ==
        if k <= s / 2 then SOFT_NONE
        else if k <= s / 2 + 8 then SoftOffer(pm, g, SOFT_NONE, s / 2, u)
        else SoftChoose(pm, g, s)
    decreases k
  {
    if k > 0 {
      SoftRelaxedAt(pm, g, k - 1, s);
    }
  }

  ghost predicate GainPriced(rx: seq<real>, i: nat, g: Gains)
    requires 4 * i + 4 <= |rx|
  {
    forall s: State, u: bool {:trigger BranchGain(rx, i, MemoryOf(s), u)} ::
      g[Register(s, u)] == BranchGain(rx, i, MemoryOf(s), u)
  }

  lemma GainTableIsPriced(rx: seq<real>, i: nat)
    requires 4 * i + 4 <= |rx|
    ensures GainPriced(rx, i, GainTable(rx, i))
  {
    forall s: State, u: bool
      ensures GainTable(rx, i)[Register(s, u)] == BranchGain(rx, i, MemoryOf(s), u)
    {
      assert Register(s, u) / 2 == s && (Register(s, u) % 2 == 1) == u;
    }
  }

  method BranchMetric(rx: seq<real>, i: nat, mem: Memory, u: bool, start: real) returns (metric: real)
    requires 4 * i + 4 <= |rx|
    ensures metric == start + BranchGain(rx, i, mem, u)
  {
    metric := start;
    for m := 0 to 4
      invariant metric == start
        + (if m > 0 then Signed(rx[4 * i], Out(mem, u, 0)) else 0.0)
        + (if m > 1 then Signed(rx[4 * i + 1], Out(mem, u, 1)) else 0.0)
        + (if m > 2 then Signed(rx[4 * i + 2], Out(mem, u, 2)) else 0.0)
        + (if m > 3 then Signed(rx[4 * i + 3], Out(mem, u, 3)) else 0.0)
    {
      metric := metric + Signed(rx[4 * i + m], Out(mem, u, m));
    }
  }

  method PricedMetric(rx: seq<real>, i: nat, s: State, u: bool, start: real, ghost g: Gains) returns (metric: real)
    requires 4 * i + 4 <= |rx| && GainPriced(rx, i, g)
    ensures metric == start + g[Register(s, u)]
  {
    metric := BranchMetric(rx, i, MemoryOf(s), u, start);
  }

  method RelaxBranches(rx: seq<real>, i: nat, pm: seq<real>, k: State, best: array<SoftChoice>, ghost g: Gains)
    requires |pm| == 16 && 4 * i + 4 <= |rx| && GainPriced(rx, i, g) && best.Length == 16
    modifies best
    ensures best[..] == SoftRelaxState(pm, g, old(best[..]), k)
  {
    if pm[k] <= NINF {
      return;
    }
    ghost var r := best[..];
    for inp := 0 to 2
      invariant best[..] == if inp == 0 then r
        else if inp == 1 then r[Next(k, false) := SoftOffer(pm, g, r[Next(k, false)], k, false)]
        else SoftRelaxState(pm, g, r, k)
    {
      var ns: State := Next(k, inp == 1);
      var metric := PricedMetric(rx, i, k, inp == 1, pm[k], g);
      if metric > best[ns].metric {
        best[ns] := SoftChoice(metric, k, inp == 1);
      }
    }
  }

  /** One iteration of the outer loop: a new table row and the next path metrics. */
  method Advance(rx: seq<real>, i: nat, pm: seq<real>, ghost gs: seq<Gains>)
      returns (row: seq<SoftChoice>, newPm: seq<real>)
    requires i < |gs| == |rx| / 4 && GainPriced(rx, i, gs[i]) && pm == SoftMetrics(gs, i)
    ensures row == SoftSurvivors(gs, i) && newPm == SoftMetrics(gs, i + 1)
  {
    var best := new SoftChoice[16](_ => SOFT_NONE);
    for k: int := 0 to 16
      invariant best[..] == SoftRelaxed(pm, gs[i], k)
    {
      RelaxBranches(rx, i, pm, k, best, gs[i]);
    }
    row := best[..];
    forall s: State ensures row[s] == SoftChoose(pm, gs[i], s) { SoftRelaxedAt(pm, gs[i], 16, s); }
    newPm := seq(16, s requires 0 <= s < 16 => row[s].metric);
  }

  ghost predicate HoldsSurvivors(gs: seq<Gains>, table: seq<seq<SoftChoice>>) {
    |table| <= |gs| && forall r {:trigger table[r]} :: 0 <= r < |table| ==> table[r] == SoftSurvivors(gs, r)
  }

  method FillTables(rx: seq<real>, ghost gs: seq<Gains>) returns (table: seq<seq<SoftChoice>>)
    requires |gs| == |rx| / 4 && forall i :: 0 <= i < |gs| ==> GainPriced(rx, i, gs[i])
    ensures |table| == |gs| && HoldsSurvivors(gs, table)
  {
    var pm: seq<real> := seq(16, s => if s == 0 then 0.0 else NINF);
    table := [];
    for i := 0 to |rx| / 4
      invariant pm == SoftMetrics(gs, i) && |table| == i && HoldsSurvivors(gs, table)
    {
      var row;
      row, pm := Advance(rx, i, pm, gs);
      table := table + [row];
    }
  }

  method TraceBack(table: seq<seq<SoftChoice>>, ghost gs: seq<Gains>) returns (decoded: BitString)
    requires |table| == |gs| && HoldsSurvivors(gs, table)
    ensures decoded == SoftTrace(gs, |gs|, 0)
  {
    decoded := [];
    var state: State := 0;
    for i := |table| downto 0
      invariant SoftTrace(gs, |gs|, 0) == SoftTrace(gs, i, state) + decoded
    {
      decoded := [table[i][state].input] + decoded;
      state := table[i][state].prev;
    }
  }

  method Decode(rx: seq<real>) returns (decoded: BitString)
    ensures decoded == SoftTrace(GainTables(rx), |rx| / 4, 0)
  {
    ghost var gs := GainTables(rx);
    forall i | 0 <= i < |gs| ensures GainPriced(rx, i, gs[i]) { GainTableIsPriced(rx, i); }
    var table: seq<seq<SoftChoice>> := FillTables(rx, gs);
    decoded := TraceBack(table, gs);
  }

  /** Both decoders on the same hard-decided block. */
  method DecodeBoth(rx: seq<Sym>) returns (hard: BitString, soft: BitString)
    requires |rx| < INF
    ensures soft == hard
  {
    hard := Viterbi.Decode(rx);
    soft := Decode(SoftInput(rx));
    SoftTraceIsHardTrace(rx);
  }
}
