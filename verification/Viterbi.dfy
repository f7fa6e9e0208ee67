/** viterbi_r14, the hard-decision decoder: path metrics and traceback tables filled in
    place, then read back from state 0. */
module Viterbi {
  import opened Bits
  import opened Trellis

  /** A received mother-code position: 0, 1, or 2 for an erasure. */
  type Sym = x: int | 0 <= x <= 2

  // ----- What the mother code expects and what a mismatch costs -----

  /** The four remembered input bits, the newest first. */
  datatype Memory = Memory(b0: bool, b1: bool, b2: bool, b3: bool)

  function MemoryOf(s: State): Memory {
    Memory(s % 2 == 1, s / 2 % 2 == 1, s / 4 % 2 == 1, s / 8 == 1)
  }

  function Number(m: Memory): State {
    Bit(m.b0) + 2 * Bit(m.b1) + 4 * Bit(m.b2) + 8 * Bit(m.b3)
  }

  function Shifted(m: Memory, u: bool): Memory {
    Memory(u, m.b0, m.b1, m.b2)
  }

  /** Mother-code bit k on input u: the parity of the register bits that the generators
      0x13, 0x1D, 0x17 and 0x1B select, bit 0 being the input. */
  function Out(m: Memory, u: bool, k: nat): bool {
    if k == 0 then (m.b3 != m.b0) != u
    else if k == 1 then ((m.b3 != m.b2) != m.b1) != u
    else if k == 2 then ((m.b3 != m.b1) != m.b0) != u
    else ((m.b3 != m.b2) != m.b0) != u
  }

  /** The generators as 5-bit masks over the register: memory from the oldest bit, then input. */
  const GENERATORS: seq<nat> := [0x13, 0x1D, 0x17, 0x1B]

  function Parity(b: BitString): bool {
    if b == [] then false else Parity(b[..|b| - 1]) != b[|b| - 1]
  }

  lemma RegisterBits(m: Memory, u: bool)
    ensures ToBits(Register(Number(m), u), 5) == [m.b3, m.b2, m.b1, m.b0, u]
  {
    var r := Register(Number(m), u);
    assert r / 2 == Number(m) && (r % 2 == 1) == u;
    assert r / 4 == Bit(m.b1) + 2 * Bit(m.b2) + 4 * Bit(m.b3) && r / 8 == Bit(m.b2) + 2 * Bit(m.b3);
    assert r / 16 == Bit(m.b3);
    FiveBits(r);
  }

  lemma FiveBits(v: nat)
    ensures ToBits(v, 5)
         == [v / 16 % 2 == 1, v / 8 % 2 == 1, v / 4 % 2 == 1, v / 2 % 2 == 1, v % 2 == 1]
  {
    assert ToBits(v, 5) == ToBits(v / 2, 4) + [v % 2 == 1];
    assert ToBits(v / 2, 4) == ToBits(v / 4, 3) + [v / 2 % 2 == 1];
    assert ToBits(v / 4, 3) == ToBits(v / 8, 2) + [v / 4 % 2 == 1];
    assert ToBits(v / 8, 2) == ToBits(v / 16, 1) + [v / 8 % 2 == 1];
    assert ToBits(v / 16, 1) == ToBits(v / 32, 0) + [v / 16 % 2 == 1];
  }

  lemma ParityPrefix(b: BitString, n: nat)
    requires n < |b|
    ensures Parity(b[..n + 1]) == (Parity(b[..n]) != b[n])
  {
    assert b[..n + 1][..n] == b[..n];
  }

  lemma ParityOfFive(b: BitString)
    requires |b| == 5
    ensures Parity(b) == ((((b[0] != b[1]) != b[2]) != b[3]) != b[4])
  {
    assert b[..0] == [] && b[..5] == b;
    ParityPrefix(b, 0);
    ParityPrefix(b, 1);
    ParityPrefix(b, 2);
    ParityPrefix(b, 3);
    ParityPrefix(b, 4);
  }

  lemma GeneratorBits(k: nat)
    requires k < 4
    ensures ToBits(GENERATORS[k], 5)
         == if k == 0 then [true, false, false, true, true] else if k == 1 then [true, true, true, false, true]
            else if k == 2 then [true, false, true, true, true] else [true, true, false, true, true]
  {
    FiveBits(GENERATORS[k]);
  }

  /** The bits of w are those of r that g selects. */
  lemma OutOfSelected(m: Memory, u: bool, k: nat, g: BitString, w: BitString)
    requires k < 4 && |g| == |w| == 5
    requires g == if k == 0 then [true, false, false, true, true] else if k == 1 then [true, true, true, false, true]
                  else if k == 2 then [true, false, true, true, true] else [true, true, false, true, true]
    requires var x := [m.b3, m.b2, m.b1, m.b0, u]; forall i :: 0 <= i < 5 ==> w[i] == (x[i] && g[i])
    ensures Out(m, u, k) == Parity(w)
  {
    ParityOfFive(w);
  }

  lemma OutSelects(m: Memory, u: bool, k: nat, r: nat, g: nat)
    requires k < 4 && ToBits(r, 5) == [m.b3, m.b2, m.b1, m.b0, u]
    requires ToBits(g, 5) == if k == 0 then [true, false, false, true, true]
                             else if k == 1 then [true, true, true, false, true]
                             else if k == 2 then [true, false, true, true, true] else [true, true, false, true, true]
    ensures Out(m, u, k) == Parity(ToBits(And(r, g), 5))
  {
    AndBits(r, g, 5);
    OutOfSelected(m, u, k, ToBits(g, 5), ToBits(And(r, g), 5));
  }

  /** The four mother-code bits are the parities of what the generators select. */
  lemma OutIsParity(m: Memory, u: bool, k: nat)
    requires k < 4
    ensures Out(m, u, k) == Parity(ToBits(And(Register(Number(m), u), GENERATORS[k]), 5))
  {
    RegisterBits(m, u);
    GeneratorBits(k);
    OutSelects(m, u, k, Register(Number(m), u), GENERATORS[k]);
  }

  lemma NumberNext(m: Memory, u: bool)
    ensures MemoryOf(Number(m)) == m && Next(Number(m), u) == Number(Shifted(m, u))
  {
  }

  /** The memory after the inputs u, from all zeros. */
  function MemoryAfter(u: BitString): Memory {
    if u == [] then Memory(false, false, false, false) else Shifted(MemoryAfter(u[..|u| - 1]), u[|u| - 1])
  }

  lemma {:induction false} EndIsMemory(u: BitString)
    ensures End(u) == Number(MemoryAfter(u))
  {
    if u != [] {
      EndIsMemory(u[..|u| - 1]);
      NumberNext(MemoryAfter(u[..|u| - 1]), u[|u| - 1]);
    }
  }

  /** An erasure costs nothing, a wrong bit costs one. */
  function Mismatch(e: bool, r: Sym): nat {
    if r == 2 || e == (r == 1) then 0 else 1
  }

  function BranchCost(rx: seq<Sym>, i: nat, s: Memory, u: bool): (c: nat)
    requires 4 * i + 4 <= |rx|
    ensures c <= 4
  {
    Mismatch(Out(s, u, 0), rx[4 * i]) + Mismatch(Out(s, u, 1), rx[4 * i + 1])
    + Mismatch(Out(s, u, 2), rx[4 * i + 2]) + Mismatch(Out(s, u, 3), rx[4 * i + 3])
  }

  /** The branch table of step i. */
  function Table(rx: seq<Sym>, i: nat): Branches
    requires 4 * i + 4 <= |rx|
  {
    seq(32, sr requires 0 <= sr < 32 => BranchCost(rx, i, MemoryOf(sr / 2), sr % 2 == 1))
  }

  function Tables(rx: seq<Sym>): (bcs: seq<Branches>)
    ensures |bcs| == |rx| / 4
  {
    seq(|rx| / 4, i requires 0 <= i < |rx| / 4 => Table(rx, i))
  }

  lemma TableAt(rx: seq<Sym>, i: nat, s: State, u: bool)
    requires 4 * i + 4 <= |rx|
    ensures Table(rx, i)[Register(s, u)] == BranchCost(rx, i, MemoryOf(s), u)
  {
    assert Register(s, u) / 2 == s && (Register(s, u) % 2 == 1) == u;
  }

  /** bc holds the cost of every branch of step i. */
  ghost predicate Priced(rx: seq<Sym>, i: nat, bc: Branches)
    requires 4 * i + 4 <= |rx|
  {
    forall s: State, u: bool {:trigger BranchCost(rx, i, MemoryOf(s), u)} ::
      bc[Register(s, u)] == BranchCost(rx, i, MemoryOf(s), u)
  }

  lemma TableIsPriced(rx: seq<Sym>, i: nat)
    requires 4 * i + 4 <= |rx|
    ensures Priced(rx, i, Table(rx, i))
  {
    forall s: State, u: bool
      ensures Table(rx, i)[Register(s, u)] == BranchCost(rx, i, MemoryOf(s), u)
    {
      TableAt(rx, i, s, u);
    }
  }

  /** How far the code word of u is from what was received. */
  function Distance(rx: seq<Sym>, u: BitString): nat
    requires |u| <= |rx| / 4
  {
    Cost(Tables(rx), u)
  }

  lemma DistanceAppend(rx: seq<Sym>, v: BitString, b: bool)
    requires |v| < |rx| / 4
    ensures Distance(rx, v + [b]) == Distance(rx, v) + BranchCost(rx, |v|, MemoryAfter(v), b)
  {
    CostAppend(Tables(rx), v, b);
    TableAt(rx, |v|, End(v), b);
    EndIsMemory(v);
    NumberNext(MemoryAfter(v), b);
  }

  lemma {:induction false} DistanceBound(rx: seq<Sym>, u: BitString)
    requires |u| <= |rx| / 4
    ensures Distance(rx, u) <= 4 * |u|
  {
    if u != [] {
      assert u == u[..|u| - 1] + [u[|u| - 1]];
      DistanceBound(rx, u[..|u| - 1]);
      DistanceAppend(rx, u[..|u| - 1], u[|u| - 1]);
    }
  }

  // ----- One step of the tables -----

  /** Source state k offers its two branches. */
  function RelaxState(pm: seq<int>, bc: Branches, row: seq<Choice>, k: State): (r: seq<Choice>)
    requires |pm| == 16 && |row| == 16
    ensures |r| == 16
  {
    var n0, n1 := Next(k, false), Next(k, true);
    row[n0 := Offer(pm, bc, row[n0], k, false)][n1 := Offer(pm, bc, row[n1], k, true)]
  }

  /** The table once the source states below k have been relaxed. */
  function Relaxed(pm: seq<int>, bc: Branches, k: nat): (row: seq<Choice>)
    requires |pm| == 16 && k <= 16
    ensures |row| == 16
    decreases k
  {
    if k == 0 then seq(16, _ => NONE) else RelaxState(pm, bc, Relaxed(pm, bc, k - 1), k - 1)
  }

  lemma RelaxStateAt(pm: seq<int>, bc: Branches, row: seq<Choice>, k: State, s: State)
    requires |pm| == 16 && |row| == 16
    ensures RelaxState(pm, bc, row, k)[s] ==
      if s / 2 == k || s / 2 + 8 == k then Offer(pm, bc, row[s], k, s % 2 == 1) else row[s]
  {
  }

  /** A state's entry is offered exactly its two predecessors, in order. */
  lemma {:induction false} RelaxedAt(pm: seq<int>, bc: Branches, k: nat, s: State)
    requires |pm| == 16 && k <= 16
    ensures var u := s % 2 == 1;
      Relaxed(pm, bc, k)[s] ==
        if k <= s / 2 then NONE
        else if k <= s / 2 + 8 then Offer(pm, bc, NONE, s / 2, u)
        else Choose(pm, bc, s)
    decreases k
  {
    if k > 0 {
      RelaxedAt(pm, bc, k - 1, s);
      RelaxStateAt(pm, bc, Relaxed(pm, bc, k - 1), k - 1, s);
    }
  }

  // ----- The loops -----

  method BranchMetric(rx: seq<Sym>, i: nat, mem: Memory, u: bool, start: int) returns (metric: int)
    requires 4 * i + 4 <= |rx|
    ensures metric == start + BranchCost(rx, i, mem, u)
  {
    metric := start;
    for m := 0 to 4
      invariant metric == start
        + (if m > 0 then Mismatch(Out(mem, u, 0), rx[4 * i]) else 0)
        + (if m > 1 then Mismatch(Out(mem, u, 1), rx[4 * i + 1]) else 0)
        + (if m > 2 then Mismatch(Out(mem, u, 2), rx[4 * i + 2]) else 0)
        + (if m > 3 then Mismatch(Out(mem, u, 3), rx[4 * i + 3]) else 0)
    {
      var e := Out(mem, u, m);
      if rx[4 * i + m] != 2 {
        metric := metric + (if e == (rx[4 * i + m] == 1) then 0 else 1);
      }
    }
  }

  method PricedMetric(rx: seq<Sym>, i: nat, s: State, u: bool, start: int, ghost bc: Branches) returns (metric: int)
    requires 4 * i + 4 <= |rx| && Priced(rx, i, bc)
    ensures metric == start + bc[Register(s, u)]
  {
    metric := BranchMetric(rx, i, MemoryOf(s), u, start);
  }

  /** The two branches out of a live state k.  Entry ns of the table holds new_pm[ns],
      tb_state[i, ns] and tb_input[i, ns]. */
  method RelaxBranches(rx: seq<Sym>, i: nat, pm: seq<int>, k: State, best: array<Choice>, ghost bc: Branches)
    requires |pm| == 16 && 4 * i + 4 <= |rx| && Priced(rx, i, bc) && best.Length == 16
    modifies best
    ensures best[..] == RelaxState(pm, bc, old(best[..]), k)
  {
    if pm[k] >= INF {
      return;
    }
    ghost var r := best[..];
    for inp := 0 to 2
      invariant best[..] == if inp == 0 then r
        else if inp == 1 then r[Next(k, false) := Offer(pm, bc, r[Next(k, false)], k, false)]
        else RelaxState(pm, bc, r, k)
    {
      var ns: State := Next(k, inp == 1);
      var metric := PricedMetric(rx, i, k, inp == 1, pm[k], bc);
      if metric < best[ns].metric {
        best[ns] := Choice(metric, k, inp == 1);
      }
    }
  }

  /** One trellis step: relax every branch out of every live state. */
  method AddCompareSelect(rx: seq<Sym>, i: nat, pm: seq<int>, ghost bc: Branches) returns (row: seq<Choice>)
    requires |pm| == 16 && 4 * i + 4 <= |rx| && Priced(rx, i, bc)
    ensures |row| == 16 && forall s: State :: row[s] == Choose(pm, bc, s)
  {
    var best := new Choice[16](_ => NONE);
    for k: int := 0 to 16
      invariant best[..] == Relaxed(pm, bc, k)
    {
      RelaxBranches(rx, i, pm, k, best, bc);
    }
    row := best[..];
    forall s: State ensures row[s] == Choose(pm, bc, s) { RelaxedAt(pm, bc, 16, s); }
  }

  lemma RowIsSurvivors(bcs: seq<Branches>, i: nat, row: seq<Choice>)
    requires i < |bcs| && |row| == 16 && forall s: State :: row[s] == Choose(Metrics(bcs, i), bcs[i], s)
    ensures row == Survivors(bcs, i)
    ensures Metrics(bcs, i + 1) == seq(16, s requires 0 <= s < 16 => row[s].metric)
  {
  }

  /** One iteration of the outer loop: a new table row and the next path metrics. */
  method Advance(rx: seq<Sym>, i: nat, pm: seq<int>, ghost bcs: seq<Branches>)
      returns (row: seq<Choice>, newPm: seq<int>)
    requires i < |bcs| == |rx| / 4 && Priced(rx, i, bcs[i]) && pm == Metrics(bcs, i)
    ensures row == Survivors(bcs, i) && newPm == Metrics(bcs, i + 1)
  {
    row := AddCompareSelect(rx, i, pm, bcs[i]);
    RowIsSurvivors(bcs, i, row);
    newPm := seq(16, s requires 0 <= s < 16 => row[s].metric);
  }

  ghost predicate HoldsSurvivors(bcs: seq<Branches>, table: seq<seq<Choice>>) {
    |table| <= |bcs| && forall r {:trigger table[r]} :: 0 <= r < |table| ==> table[r] == Survivors(bcs, r)
  }

  lemma AddRow(bcs: seq<Branches>, table: seq<seq<Choice>>, row: seq<Choice>)
    requires HoldsSurvivors(bcs, table) && |table| < |bcs| && row == Survivors(bcs, |table|)
    ensures HoldsSurvivors(bcs, table + [row])
  {
  }

  method FillTables(rx: seq<Sym>, ghost bcs: seq<Branches>) returns (table: seq<seq<Choice>>)
    requires |bcs| == |rx| / 4 && forall i :: 0 <= i < |bcs| ==> Priced(rx, i, bcs[i])
    ensures |table| == |bcs| && HoldsSurvivors(bcs, table)
  {
    var pm: seq<int> := seq(16, s => if s == 0 then 0 else INF);
    table := [];
    for i := 0 to |rx| / 4
      invariant pm == Metrics(bcs, i) && |table| == i && HoldsSurvivors(bcs, table)
    {
      var row;
      row, pm := Advance(rx, i, pm, bcs);
      AddRow(bcs, table, row);
      table := table + [row];
    }
  }

  method TraceBack(table: seq<seq<Choice>>, ghost bcs: seq<Branches>) returns (decoded: BitString)
    requires |table| == |bcs| && HoldsSurvivors(bcs, table)
    ensures decoded == Trace(bcs, |bcs|, 0)
  {
    decoded := [];
    var state: State := 0;
    for i := |table| downto 0
      invariant Trace(bcs, |bcs|, 0) == Trace(bcs, i, state) + decoded
    {
      decoded := [table[i][state].input] + decoded;
      state := table[i][state].prev;
    }
  }

  /** The decoder returns the trace of the dynamic programme. */
  method Decode(rx: seq<Sym>) returns (decoded: BitString)
    ensures decoded == Trace(Tables(rx), |rx| / 4, 0)
  {
    ghost var bcs := Tables(rx);
    forall i | 0 <= i < |bcs| ensures Priced(rx, i, bcs[i]) { TableIsPriced(rx, i); }
    var table := FillTables(rx, bcs);
    decoded := TraceBack(table, bcs);
  }

  lemma {:induction false} ZerosEndInZero(n: nat)
    ensures End(Zeros(n)) == 0
  {
    if n > 0 {
      ZerosEndInZero(n - 1);
      assert Zeros(n)[..n - 1] == Zeros(n - 1);
    }
  }

  /** No terminated input whose cost stays below the sentinel is closer to what was
      received than what Decode returns. */
  lemma DecodeIsNoWorse(rx: seq<Sym>, u: BitString)
    requires |u| == |rx| / 4 && End(u) == 0 && Distance(rx, u) < INF
    ensures var d := Trace(Tables(rx), |rx| / 4, 0); End(d) == 0 && Distance(rx, d) <= Distance(rx, u)
  {
    TraceIsOptimal(Tables(rx), |rx| / 4, u);
  }

  /** Maximum likelihood: for every block shorter than the sentinel, what Decode returns
      drives the trellis from state 0 back to state 0, and no other input of that length
      that ends in state 0 is closer to the received sequence. */
  lemma DecodeIsOptimal(rx: seq<Sym>)
    requires |rx| < 1_000_000_000
    ensures var d := Trace(Tables(rx), |rx| / 4, 0);
      End(d) == 0 && forall u :: |u| == |rx| / 4 && End(u) == 0 ==> Distance(rx, d) <= Distance(rx, u)
  {
    var d := Trace(Tables(rx), |rx| / 4, 0);
    ZerosEndInZero(|rx| / 4);
    DistanceBound(rx, Zeros(|rx| / 4));
    DecodeIsNoWorse(rx, Zeros(|rx| / 4));
    forall u | |u| == |rx| / 4 && End(u) == 0 ensures Distance(rx, d) <= Distance(rx, u) {
      DistanceBound(rx, u);
      DecodeIsNoWorse(rx, u);
    }
  }
}
