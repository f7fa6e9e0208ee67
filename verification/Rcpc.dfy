/** The rate-2/3 punctured code: rcpc_r23 of the encoder, depuncture_r23 of the decoder,
    and how far apart its terminated code words lie. */
module Rcpc {
  import opened Bits
  import opened Viterbi

  // ----- The encoder -----

  /** What one input bit sends: g1 and g2 on even steps, g1 alone on odd ones. */
  function Emit(s: Memory, u: bool, i: nat): BitString {
    if i % 2 == 0 then [Out(s, u, 0), Out(s, u, 1)] else [Out(s, u, 0)]
  }

  function CodeLength(n: nat): nat {
    3 * (n / 2) + 2 * (n % 2)
  }

  /** The punctured code word of u, sent from state 0. */
  function CodeWord(u: BitString): (c: BitString)
    ensures |c| == CodeLength(|u|)
  {
    if u == [] then [] else
      var v := u[..|u| - 1];
      CodeWord(v) + Emit(MemoryAfter(v), u[|u| - 1], |v|)
  }

  lemma CodeWordAppend(v: BitString, b: bool)
    ensures MemoryAfter(v + [b]) == Shifted(MemoryAfter(v), b)
    ensures CodeWord(v + [b]) == CodeWord(v) + Emit(MemoryAfter(v), b, |v|)
  {
    assert (v + [b])[..|v|] == v;
  }

  lemma EncodeStep(t: BitString, i: nat)
    requires i < |t|
    ensures MemoryAfter(t[..i + 1]) == Shifted(MemoryAfter(t[..i]), t[i])
    ensures CodeWord(t[..i + 1]) == CodeWord(t[..i]) + Emit(MemoryAfter(t[..i]), t[i], i)
  {
    assert t[..i + 1] == t[..i] + [t[i]];
    CodeWordAppend(t[..i], t[i]);
  }

  method Encode(t3: BitString) returns (out: BitString)
    ensures out == CodeWord(t3)
  {
    out := [];
    var sr := [false, false, false, false];
    var bitPhase := 0;
    for i := 0 to |t3|
      invariant |sr| == 4 && MemoryAfter(t3[..i]) == Memory(sr[0], sr[1], sr[2], sr[3])
      invariant out == CodeWord(t3[..i]) && bitPhase == i % 2
    {
      var din := t3[i];
      EncodeStep(t3, i);
      var g1 := (sr[3] != sr[0]) != din;
      var g2 := ((sr[3] != sr[2]) != sr[1]) != din;
      if bitPhase == 0 {
        out := out + [g1, g2];
      } else {
        out := out + [g1];
      }
      bitPhase := 1 - bitPhase;
      sr := [din, sr[0], sr[1], sr[2]];
    }
    assert t3[..|t3|] == t3;
  }

  // ----- The depuncturer -----

  /** Mother positions 1, 2 and 5 of every eight carry code symbols, the rest are erased. */
  function Depunctured(y: seq<Sym>): (rx: seq<Sym>)
    requires |y| % 3 == 0
    ensures |rx| == |y| / 3 * 8
  {
    seq(|y| / 3 * 8, k requires 0 <= k < |y| / 3 * 8 =>
      if k % 8 == 0 then y[3 * (k / 8)]
      else if k % 8 == 1 then y[3 * (k / 8) + 1]
      else if k % 8 == 4 then y[3 * (k / 8) + 2]
      else 2)
  }

  /** Which code symbol, counted from 0, lands at mother position k. */
  function SymbolIndex(k: nat): nat {
    3 * (k / 8) + (if k % 8 == 4 then 2 else k % 8)
  }

  method Depuncture(y: seq<Sym>) returns (rx: seq<Sym>)
    requires |y| % 3 == 0
    ensures rx == Depunctured(y)
  {
    var motherLen := |y| / 3 * 8;
    var p := [0, 1, 2, 5];
    var out := new Sym[motherLen](_ => 2);
    for j := 1 to |y| + 1
      invariant Filled(y, out[..], j - 1)
    {
      var k := 8 * ((j - 1) / 3) + p[j - 3 * ((j - 1) / 3)];
      PlaceInTable(j - 1);
      FillOne(y, out[..], j - 1, k - 1);
      out[k - 1] := y[j - 1];
    }
    rx := out[..];
  }

  /** The first n symbols have been put in their places. */
  ghost predicate Filled(y: seq<Sym>, out: seq<Sym>, n: nat)
    requires |y| % 3 == 0
  {
    && |out| == |y| / 3 * 8
    && forall k :: 0 <= k < |out| ==> out[k] == (if SymbolIndex(k) < n then Depunctured(y)[k] else 2)
  }

  lemma FillOne(y: seq<Sym>, out: seq<Sym>, n: nat, k: nat)
    requires |y| % 3 == 0 && Filled(y, out, n) && n < |y|
    requires k == 8 * (n / 3) + (if n % 3 == 2 then 4 else n % 3)
    ensures k < |out| && Filled(y, out[k := y[n]], n + 1)
  {
    PlaceOf(n, k);
    forall i | 0 <= i < |out|
      ensures out[k := y[n]][i] == (if SymbolIndex(i) < n + 1 then Depunctured(y)[i] else 2)
    {
      if i != k && SymbolIndex(i) == n { OnePlace(n, k, i); }
    }
  }

  predicate HoldsSymbol(k: nat) {
    k % 8 == 0 || k % 8 == 1 || k % 8 == 4
  }

  lemma PlaceInTable(n: nat)
    ensures var d := n + 1 - 3 * (n / 3);
      1 <= d <= 3 && [0, 1, 2, 5][d] - 1 == (if n % 3 == 2 then 4 else n % 3)
  {
  }

  lemma PlaceOf(n: nat, k: nat)
    requires k == 8 * (n / 3) + (if n % 3 == 2 then 4 else n % 3)
    ensures HoldsSymbol(k) && SymbolIndex(k) == n
  {
  }

  lemma OnePlace(n: nat, k: nat, i: nat)
    requires HoldsSymbol(k) && SymbolIndex(k) == n && SymbolIndex(i) == n && i != k
    ensures !HoldsSymbol(i)
  {
  }

  // ----- Received distance is Viterbi cost -----

  /** Mismatches between a code word and what was received, erasures not counted. */
  function Errors(y: seq<Sym>, c: BitString): nat
    requires |y| == |c|
  {
    if y == [] then 0 else Errors(y[..|y| - 1], c[..|c| - 1]) + Mismatch(c[|c| - 1], y[|y| - 1])
  }

  lemma {:induction false} ErrorsConcat(y: seq<Sym>, z: seq<Sym>, c: BitString, d: BitString)
    requires |y| == |c| && |z| == |d|
    ensures Errors(y + z, c + d) == Errors(y, c) + Errors(z, d)
  {
    if z == [] {
      assert y + z == y && c + d == c;
    } else {
      var n := |z| - 1;
      ErrorsConcat(y, z[..n], c, d[..n]);
      assert (y + z)[..|y| + n] == y + z[..n] && (c + d)[..|c| + n] == c + d[..n];
    }
  }

  lemma ErrorsOfOne(r: Sym, e: bool)
    ensures Errors([r], [e]) == Mismatch(e, r)
  {
    assert [r][..0] == [] && [e][..0] == [];
  }

  lemma ErrorsOfTwo(r: Sym, q: Sym, e: bool, f: bool)
    ensures Errors([r, q], [e, f]) == Mismatch(e, r) + Mismatch(f, q)
  {
    ErrorsOfOne(r, e);
    ErrorsOfOne(q, f);
    ErrorsConcat([r], [q], [e], [f]);
    assert [r] + [q] == [r, q] && [e] + [f] == [e, f];
  }

  /** The received symbols of step i. */
  function Chunk(y: seq<Sym>, i: nat): seq<Sym>
    requires |y| % 3 == 0 && i < |y| / 3 * 2
  {
    if i % 2 == 0 then [y[3 * (i / 2)], y[3 * (i / 2) + 1]] else [y[3 * (i / 2) + 2]]
  }

  lemma DepuncturedAt(y: seq<Sym>, j: nat)
    requires |y| % 3 == 0 && j < |y| / 3
    ensures var rx := Depunctured(y);
      && rx[8 * j] == y[3 * j] && rx[8 * j + 1] == y[3 * j + 1] && rx[8 * j + 2] == 2 && rx[8 * j + 3] == 2
      && rx[8 * j + 4] == y[3 * j + 2] && rx[8 * j + 5] == 2 && rx[8 * j + 6] == 2 && rx[8 * j + 7] == 2
  {
  }

  lemma BranchCostIsErrors(y: seq<Sym>, i: nat, s: Memory, u: bool)
    requires |y| % 3 == 0 && i < |y| / 3 * 2
    ensures BranchCost(Depunctured(y), i, s, u) == Errors(Chunk(y, i), Emit(s, u, i))
  {
    var j := i / 2;
    if i == 2 * j { EvenCost(y, j, s, u); } else { OddCost(y, j, s, u); }
  }

  lemma EvenCost(y: seq<Sym>, j: nat, s: Memory, u: bool)
    requires |y| % 3 == 0 && 2 * j < |y| / 3 * 2
    ensures BranchCost(Depunctured(y), 2 * j, s, u) == Errors(Chunk(y, 2 * j), Emit(s, u, 2 * j))
  {
    DepuncturedAt(y, j);
    EvenStep(y, j);
    CostOfTwo(Depunctured(y), 2 * j, y[3 * j], y[3 * j + 1], s, u);
  }

  lemma OddCost(y: seq<Sym>, j: nat, s: Memory, u: bool)
    requires |y| % 3 == 0 && 2 * j + 1 < |y| / 3 * 2
    ensures BranchCost(Depunctured(y), 2 * j + 1, s, u) == Errors(Chunk(y, 2 * j + 1), Emit(s, u, 2 * j + 1))
  {
    DepuncturedAt(y, j);
    OddStep(y, j);
    CostOfOne(Depunctured(y), 2 * j + 1, y[3 * j + 2], s, u);
  }

  lemma EvenStep(y: seq<Sym>, j: nat)
    requires |y| % 3 == 0 && 2 * j < |y| / 3 * 2
    ensures 3 * j + 1 < |y| && Chunk(y, 2 * j) == [y[3 * j], y[3 * j + 1]]
    ensures forall s, u :: Emit(s, u, 2 * j) == [Out(s, u, 0), Out(s, u, 1)]
  {
  }

  lemma OddStep(y: seq<Sym>, j: nat)
    requires |y| % 3 == 0 && 2 * j + 1 < |y| / 3 * 2
    ensures 3 * j + 2 < |y| && Chunk(y, 2 * j + 1) == [y[3 * j + 2]]
    ensures forall s, u :: Emit(s, u, 2 * j + 1) == [Out(s, u, 0)]
  {
  }

  lemma CostOfTwo(rx: seq<Sym>, i: nat, r: Sym, q: Sym, s: Memory, u: bool)
    requires 4 * i + 4 <= |rx| && rx[4 * i] == r && rx[4 * i + 1] == q && rx[4 * i + 2] == 2 && rx[4 * i + 3] == 2
    ensures BranchCost(rx, i, s, u) == Errors([r, q], [Out(s, u, 0), Out(s, u, 1)])
  {
    ErrorsOfTwo(r, q, Out(s, u, 0), Out(s, u, 1));
  }

  lemma CostOfOne(rx: seq<Sym>, i: nat, r: Sym, s: Memory, u: bool)
    requires 4 * i + 4 <= |rx| && rx[4 * i] == r && rx[4 * i + 1] == 2 && rx[4 * i + 2] == 2 && rx[4 * i + 3] == 2
    ensures BranchCost(rx, i, s, u) == Errors([r], [Out(s, u, 0)])
  {
    ErrorsOfOne(r, Out(s, u, 0));
  }

  lemma PrefixStep(y: seq<Sym>, i: nat)
    requires |y| % 3 == 0 && i < |y| / 3 * 2
    ensures CodeLength(i) <= CodeLength(i + 1) <= |y|
    ensures y[..CodeLength(i + 1)] == y[..CodeLength(i)] + Chunk(y, i)
  {
  }

  /** The cost the Viterbi decoder minimises is the number of received symbols that
      disagree with the code word. */
  lemma {:induction false} DistanceIsErrors(y: seq<Sym>, u: BitString)
    requires |y| % 3 == 0 && |u| <= |y| / 3 * 2
    ensures CodeLength(|u|) <= |y|
    ensures Distance(Depunctured(y), u) == Errors(y[..CodeLength(|u|)], CodeWord(u))
  {
    if u != [] {
      var v, b := u[..|u| - 1], u[|u| - 1];
      assert u == v + [b];
      DistanceIsErrors(y, v);
      DistanceAppend(Depunctured(y), v, b);
      BranchCostIsErrors(y, |v|, MemoryAfter(v), b);
      PrefixStep(y, |v|);
      ErrorsConcat(y[..CodeLength(|v|)], Chunk(y, |v|), CodeWord(v), Emit(MemoryAfter(v), b, |v|));
    }
  }
}
