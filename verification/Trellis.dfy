/** The 16-state trellis of the K = 5 mother code, and the dynamic programme over it.

    A state holds the last four input bits, the newest in bit 0.  What a step costs is a
    table indexed by the 5-bit register (s << 1) | u, so everything here holds for any
    received sequence. */
module Trellis {
  import opened Bits

  type State = s: nat | s < 16
  type Branches = b: seq<nat> | |b| == 32 witness seq(32, _ => 0)

  const INF := 1_000_000_000

  /** ((s << 1) | u) & 0xF. */
  function Next(s: State, u: bool): State {
    if s < 8 then 2 * s + Bit(u) else 2 * s - 16 + Bit(u)
  }

  function Register(s: State, u: bool): (sr: nat)
    ensures sr < 32
  {
    2 * s + Bit(u)
  }

  // ----- Paths from state 0 -----

  function End(u: BitString): State {
    if u == [] then 0 else Next(End(u[..|u| - 1]), u[|u| - 1])
  }

  function Cost(bcs: seq<Branches>, u: BitString): nat
    requires |u| <= |bcs|
  {
    if u == [] then 0 else
      var v := u[..|u| - 1];
      Cost(bcs, v) + bcs[|v|][Register(End(v), u[|u| - 1])]
  }

  lemma CostAppend(bcs: seq<Branches>, v: BitString, b: bool)
    requires |v| < |bcs|
    ensures End(v + [b]) == Next(End(v), b)
    ensures Cost(bcs, v + [b]) == Cost(bcs, v) + bcs[|v|][Register(End(v), b)]
  {
    assert (v + [b])[..|v|] == v;
  }

  // ----- Add, compare, select -----

  datatype Choice = Choice(metric: int, prev: State, input: bool)

  const NONE := Choice(INF, 0, false)

  /** Offer the branch out of s on u to the best choice so far; ties keep the earlier one. */
  function Offer(pm: seq<int>, bc: Branches, c: Choice, s: State, u: bool): Choice
    requires |pm| == 16
  {
    if pm[s] >= INF then c
    else
      var metric := pm[s] + bc[Register(s, u)];
      if metric < c.metric then Choice(metric, s, u) else c
  }

  /** The survivor at state ns: its two predecessors, the lower-numbered one first. */
  function Choose(pm: seq<int>, bc: Branches, ns: State): Choice
    requires |pm| == 16
  {
    var u := ns % 2 == 1;
    Offer(pm, bc, Offer(pm, bc, NONE, ns / 2, u), ns / 2 + 8, u)
  }

  /** The metric of every state after i steps. */
  function Metrics(bcs: seq<Branches>, i: nat): (pm: seq<int>)
    requires i <= |bcs|
    ensures |pm| == 16
    decreases i, 0
  {
    if i == 0 then seq(16, s => if s == 0 then 0 else INF)
    else var row := Survivors(bcs, i - 1); seq(16, s requires 0 <= s < 16 => row[s].metric)
  }

  /** The survivor of step i at every state. */
  function Survivors(bcs: seq<Branches>, i: nat): (row: seq<Choice>)
    requires i < |bcs|
    ensures |row| == 16
    decreases i, 1
  {
    var pm := Metrics(bcs, i);
    seq(16, s requires 0 <= s < 16 => Choose(pm, bcs[i], s))
  }

  /** Follow the survivors back from state s after i steps. */
  function Trace(bcs: seq<Branches>, i: nat, s: State): (u: BitString)
    requires i <= |bcs|
    ensures |u| == i
  {
    if i == 0 then [] else
      var c := Survivors(bcs, i - 1)[s];
      Trace(bcs, i - 1, c.prev) + [c.input]
  }

  // ----- Optimality -----

  lemma ChoosesBest(pm: seq<int>, bc: Branches, s: State, u: bool)
    requires |pm| == 16 && pm[s] + bc[Register(s, u)] < INF
    ensures Choose(pm, bc, Next(s, u)).metric <= pm[s] + bc[Register(s, u)]
  {
    var ns := Next(s, u);
    assert ns % 2 == Bit(u) && (s == ns / 2 || s == ns / 2 + 8);
  }

  lemma ChoiceIsABranch(pm: seq<int>, bc: Branches, ns: State)
    requires |pm| == 16 && Choose(pm, bc, ns).metric < INF
    ensures var c := Choose(pm, bc, ns);
      pm[c.prev] < INF && Next(c.prev, c.input) == ns && c.metric == pm[c.prev] + bc[Register(c.prev, c.input)]
  {
  }

  /** No path is cheaper than the metric of the state it ends in. */
  lemma {:induction false} MetricIsLowerBound(bcs: seq<Branches>, u: BitString)
    requires |u| <= |bcs| && Cost(bcs, u) < INF
    ensures Metrics(bcs, |u|)[End(u)] <= Cost(bcs, u)
  {
    if u != [] {
      var v := u[..|u| - 1];
      MetricIsLowerBound(bcs, v);
      ChoosesBest(Metrics(bcs, |v|), bcs[|v|], End(v), u[|u| - 1]);
      assert Metrics(bcs, |u|)[End(u)] == Survivors(bcs, |v|)[End(u)].metric;
    }
  }

  /** A live survivor continues a live state at the cost of its branch. */
  lemma SurvivorStep(bcs: seq<Branches>, i: nat, s: State)
    requires i < |bcs| && Metrics(bcs, i + 1)[s] < INF
    ensures var c := Survivors(bcs, i)[s];
      Metrics(bcs, i)[c.prev] < INF && Next(c.prev, c.input) == s
      && Metrics(bcs, i + 1)[s] == Metrics(bcs, i)[c.prev] + bcs[i][Register(c.prev, c.input)]
  {
    ChoiceIsABranch(Metrics(bcs, i), bcs[i], s);
  }

  /** The traced path ends where the trace began and costs exactly the metric. */
  lemma {:induction false} TraceAchievesMetric(bcs: seq<Branches>, i: nat, s: State)
    requires i <= |bcs| && Metrics(bcs, i)[s] < INF
    ensures End(Trace(bcs, i, s)) == s && Cost(bcs, Trace(bcs, i, s)) == Metrics(bcs, i)[s]
  {
    if i > 0 {
      SurvivorStep(bcs, i - 1, s);
      var c := Survivors(bcs, i - 1)[s];
      TraceAchievesMetric(bcs, i - 1, c.prev);
      CostAppend(bcs, Trace(bcs, i - 1, c.prev), c.input);
    }
  }

  /** The traced path returns to state 0 and is no dearer than any other input of that
      length that does, as soon as one of those costs less than the sentinel. */
  lemma TraceIsOptimal(bcs: seq<Branches>, n: nat, u: BitString)
    requires n <= |bcs| && |u| == n && End(u) == 0 && Cost(bcs, u) < INF
    ensures End(Trace(bcs, n, 0)) == 0 && Cost(bcs, Trace(bcs, n, 0)) <= Cost(bcs, u)
  {
    MetricIsLowerBound(bcs, u);
    TraceAchievesMetric(bcs, n, 0);
  }
}
