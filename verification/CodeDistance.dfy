/** The punctured code corrects: two terminated code words differ in at least four
    positions, so every pattern of e errors and f erasures with 2e + f < 4 is undone. */
module CodeDistance {
  import opened Bits
  import opened Trellis
  import opened Viterbi
  import opened Rcpc

  // ----- The code is linear -----

  function XorMemory(m: Memory, n: Memory): Memory {
    Memory(m.b0 != n.b0, m.b1 != n.b1, m.b2 != n.b2, m.b3 != n.b3)
  }

  lemma {:induction false} MemoryAfterXor(u: BitString, v: BitString)
    requires |u| == |v|
    ensures MemoryAfter(Xor(u, v)) == XorMemory(MemoryAfter(u), MemoryAfter(v))
  {
    if u != [] {
      var n := |u| - 1;
      assert Xor(u, v)[..n] == Xor(u[..n], v[..n]);
      MemoryAfterXor(u[..n], v[..n]);
    }
  }

  /** How many code bits a branch sends as ones. */
  function BranchWeight(m: Memory, u: bool, i: nat): nat {
    Bit(Out(m, u, 0)) + if i % 2 == 0 then Bit(Out(m, u, 1)) else 0
  }

  function PathWeight(e: BitString): nat {
    if e == [] then 0 else
      var v := e[..|e| - 1];
      PathWeight(v) + BranchWeight(MemoryAfter(v), e[|e| - 1], |v|)
  }

  /** A code word as received without error. */
  function Sent(c: BitString): seq<Sym> {
    seq(|c|, i requires 0 <= i < |c| => Bit(c[i]))
  }

  /** The number of positions in which two words differ. */
  function Hamming(c: BitString, d: BitString): nat
    requires |c| == |d|
  {
    Errors(Sent(c), d)
  }

  lemma HammingConcat(c: BitString, c': BitString, d: BitString, d': BitString)
    requires |c| == |d| && |c'| == |d'|
    ensures Hamming(c + c', d + d') == Hamming(c, d) + Hamming(c', d')
  {
    assert Sent(c + c') == Sent(c) + Sent(c');
    ErrorsConcat(Sent(c), Sent(c'), d, d');
  }

  lemma HammingOfOne(a: bool, b: bool)
    ensures Hamming([a], [b]) == Bit(a != b)
  {
    assert Sent([a]) == [Bit(a)];
    ErrorsOfOne(Bit(a), b);
  }

  lemma HammingOfTwo(a: bool, a': bool, b: bool, b': bool)
    ensures Hamming([a, a'], [b, b']) == Bit(a != b) + Bit(a' != b')
  {
    HammingOfOne(a, b);
    HammingOfOne(a', b');
    HammingConcat([a], [a'], [b], [b']);
    assert [a] + [a'] == [a, a'] && [b] + [b'] == [b, b'];
  }

  lemma OutIsLinear(m: Memory, n: Memory, a: bool, b: bool, k: nat)
    ensures Out(XorMemory(m, n), a != b, k) == (Out(m, a, k) != Out(n, b, k))
  {
  }

  lemma EmitHamming(m: Memory, n: Memory, a: bool, b: bool, i: nat)
    ensures Hamming(Emit(m, a, i), Emit(n, b, i)) == BranchWeight(XorMemory(m, n), a != b, i)
  {
    OutIsLinear(m, n, a, b, 0);
    OutIsLinear(m, n, a, b, 1);
    HammingOfOne(Out(m, a, 0), Out(n, b, 0));
    HammingOfTwo(Out(m, a, 0), Out(m, a, 1), Out(n, b, 0), Out(n, b, 1));
  }

  lemma PathWeightAppend(e: BitString, b: bool)
    ensures PathWeight(e + [b]) == PathWeight(e) + BranchWeight(MemoryAfter(e), b, |e|)
  {
    assert (e + [b])[..|e|] == e;
  }

  lemma HammingAppend(u: BitString, v: BitString, a: bool, b: bool)
    requires |u| == |v|
    ensures Hamming(CodeWord(u + [a]), CodeWord(v + [b]))
         == Hamming(CodeWord(u), CodeWord(v)) + BranchWeight(XorMemory(MemoryAfter(u), MemoryAfter(v)), a != b, |u|)
  {
    CodeWordAppend(u, a);
    CodeWordAppend(v, b);
    EmitHamming(MemoryAfter(u), MemoryAfter(v), a, b, |u|);
    HammingConcat(CodeWord(u), Emit(MemoryAfter(u), a, |u|), CodeWord(v), Emit(MemoryAfter(v), b, |u|));
  }

  lemma HammingStep(u: BitString, v: BitString, a: bool, b: bool, x: BitString, y: BitString)
    requires |u| == |v| && x == u + [a] && y == v + [b] && Hamming(CodeWord(u), CodeWord(v)) == PathWeight(Xor(u, v))
    ensures Hamming(CodeWord(x), CodeWord(y)) == PathWeight(Xor(x, y))
  {
    HammingAppend(u, v, a, b);
    PathWeightXor(u, v, a, b);
  }

  lemma PathWeightXor(u: BitString, v: BitString, a: bool, b: bool)
    requires |u| == |v|
    ensures PathWeight(Xor(u + [a], v + [b]))
         == PathWeight(Xor(u, v)) + BranchWeight(XorMemory(MemoryAfter(u), MemoryAfter(v)), a != b, |u|)
  {
    MemoryAfterXor(u, v);
    PathWeightAppend(Xor(u, v), a != b);
    assert Xor(u + [a], v + [b]) == Xor(u, v) + [a != b];
  }

  /** The distance of two code words is the weight of the path of their difference. */
  lemma {:induction false} HammingIsPathWeight(u: BitString, v: BitString)
    requires |u| == |v|
    ensures Hamming(CodeWord(u), CodeWord(v)) == PathWeight(Xor(u, v))
    decreases |u|
  {
    if u == [] {
      HammingOfNothing(u, v);
    } else {
      var a, p := FrontLast(u);
      var b, q := FrontLast(v);
      HammingIsPathWeight(a, b);
      HammingStep(a, b, p, q, u, v);
    }
  }

  lemma FrontLast(u: BitString) returns (front: BitString, last: bool)
    requires u != []
    ensures |front| == |u| - 1 && u == front + [last]
  {
    front, last := u[..|u| - 1], u[|u| - 1];
  }

  lemma HammingOfNothing(u: BitString, v: BitString)
    requires u == v == []
    ensures Hamming(CodeWord(u), CodeWord(v)) == PathWeight(Xor(u, v))
  {
    assert CodeWord(u) == [] && Sent([]) == [];
  }

  // ----- A potential bounding every diverging path from below -----

  function Pick(m: Memory, x0: nat, x1: nat, x2: nat, x3: nat): nat {
    if m.b1 then (if m.b0 then x3 else x2) else (if m.b0 then x1 else x0)
  }

  /** A lower bound, capped at 4, on the weight of any path that has left the all-zero
      path and now stands at m with i steps taken. */
  function Potential(m: Memory, i: nat): nat {
    if i % 2 == 0 then
      if m.b3 then (if m.b2 then Pick(m, 4, 3, 3, 2) else Pick(m, 4, 3, 3, 4))
      else (if m.b2 then Pick(m, 2, 3, 3, 2) else Pick(m, 4, 1, 3, 2))
    else
      if m.b3 then (if m.b2 then Pick(m, 3, 3, 3, 3) else Pick(m, 3, 3, 3, 3))
      else (if m.b2 then Pick(m, 4, 4, 4, 2) else Pick(m, 4, 2, 2, 2))
  }

  lemma PotentialStep(m: Memory, u: bool, i: nat)
    ensures Potential(Shifted(m, u), i + 1) <= Potential(m, i) + BranchWeight(m, u, i)
  {
  }

  lemma PotentialDeparture(i: nat)
    ensures var zero := Memory(false, false, false, false);
      Potential(Shifted(zero, true), i + 1) <= BranchWeight(zero, true, i)
  {
  }

  lemma {:induction false} DivergedWeight(e: BitString)
    ensures (forall k :: 0 <= k < |e| ==> !e[k]) ==> MemoryAfter(e) == Memory(false, false, false, false)
    ensures (exists k :: 0 <= k < |e| && e[k]) ==> PathWeight(e) >= Potential(MemoryAfter(e), |e|)
  {
    if e != [] {
      var n := |e| - 1;
      var v := e[..n];
      DivergedWeight(v);
      if exists k :: 0 <= k < n && v[k] {
        PotentialStep(MemoryAfter(v), e[n], n);
      } else {
        assert forall k :: 0 <= k < n ==> !v[k];
        PotentialDeparture(n);
      }
    }
  }

  /** Two different inputs that end in the same state send words at least 4 apart. */
  lemma MinimumDistance(u: BitString, v: BitString)
    requires |u| == |v| && u != v && MemoryAfter(u) == MemoryAfter(v)
    ensures Hamming(CodeWord(u), CodeWord(v)) >= 4
  {
    var e := Xor(u, v);
    MemoryAfterXor(u, v);
    HammingIsPathWeight(u, v);
    assert exists k :: 0 <= k < |e| && e[k] by {
      var k :| 0 <= k < |u| && u[k] != v[k];
      assert e[k];
    }
    DivergedWeight(e);
  }

  // ----- The distance is attained, in every block -----

  /** The lightest detour from the zero state. */
  const DETOUR: BitString := [false, true, false, false, false, false]

  lemma DetourWeight()
    ensures PathWeight(DETOUR) == 4 && MemoryAfter(DETOUR) == Memory(false, false, false, false)
  {
    var d := DETOUR;
    assert d[..6] == d;
    assert d[..6][..5] == d[..5] && d[..5][..4] == d[..4] && d[..4][..3] == d[..3];
    assert d[..3][..2] == d[..2] && d[..2][..1] == d[..1];
    DetourBegins(d);
    assert MemoryAfter(d[..4]) == Memory(false, false, true, false) && PathWeight(d[..4]) == 2;
    assert MemoryAfter(d[..5]) == Memory(false, false, false, true) && PathWeight(d[..5]) == 3;
  }

  lemma DetourBegins(d: BitString)
    requires d == DETOUR
    ensures MemoryAfter(d[..3]) == Memory(false, true, false, false) && PathWeight(d[..3]) == 2
  {
    assert d[..1] == [false] && d[..2][..1] == d[..1] && d[..3][..2] == d[..2];
    assert MemoryAfter(d[..1]) == Memory(false, false, false, false) && PathWeight(d[..1]) == 0;
    assert MemoryAfter(d[..2]) == Memory(true, false, false, false) && PathWeight(d[..2]) == 1;
  }

  lemma {:induction false} ZerosAddNothing(e: BitString, k: nat)
    requires MemoryAfter(e) == Memory(false, false, false, false)
    ensures PathWeight(e + Zeros(k)) == PathWeight(e) && MemoryAfter(e + Zeros(k)) == MemoryAfter(e)
  {
    if k == 0 {
      assert e + Zeros(0) == e;
    } else {
      ZerosAddNothing(e, k - 1);
      assert (e + Zeros(k))[..|e| + k - 1] == e + Zeros(k - 1);
    }
  }

  /** Every input of at least six bits has another that ends in the same state and sends a
      word only 4 away. */
  lemma DistanceIsAttained(u: BitString) returns (v: BitString)
    requires |u| >= 6
    ensures |v| == |u| && v != u && MemoryAfter(v) == MemoryAfter(u) && Hamming(CodeWord(u), CodeWord(v)) == 4
  {
    var e := DETOUR + Zeros(|u| - 6);
    v := Xor(u, e);
    assert Xor(u, v) == e;
    DetourWeight();
    ZerosAddNothing(DETOUR, |u| - 6);
    MemoryAfterXor(u, e);
    HammingIsPathWeight(u, v);
    assert e[1] && v[1] != u[1];
  }

  // ----- Correction -----

  function Erasures(y: seq<Sym>): nat {
    if y == [] then 0 else Erasures(y[..|y| - 1]) + if y[|y| - 1] == 2 then 1 else 0
  }

  lemma {:induction false} Triangle(y: seq<Sym>, c: BitString, d: BitString)
    requires |y| == |c| == |d|
    ensures Hamming(c, d) <= Errors(y, c) + Errors(y, d) + Erasures(y)
  {
    if y != [] {
      var n := |y| - 1;
      Triangle(y[..n], c[..n], d[..n]);
      assert Sent(c)[..n] == Sent(c[..n]);
    }
  }

  /** Every received word within reach of a terminated code word decodes to its input. */
  lemma DecodeCorrects(y: seq<Sym>, t: BitString)
    requires |y| % 3 == 0 && |t| == |y| / 3 * 2 && End(t) == 0
    requires 2 * Errors(y, CodeWord(t)) + Erasures(y) < 4
    ensures Trace(Tables(Depunctured(y)), |t|, 0) == t
  {
    var rx := Depunctured(y);
    assert |rx| / 4 == |t| && CodeLength(|t|) == |y| && y[..|y|] == y;
    DistanceIsErrors(y, t);
    DecodeIsNoWorse(rx, t);
    var d := Trace(Tables(rx), |t|, 0);
    DistanceIsErrors(y, d);
    if d != t {
      SameEndSameMemory(d, t);
      MinimumDistance(d, t);
      Triangle(y, CodeWord(d), CodeWord(t));
    }
  }

  /** c with the positions where d differs erased. */
  function Blurred(c: BitString, d: BitString): (y: seq<Sym>)
    requires |c| == |d|
    ensures |y| == |c|
  {
    seq(|c|, i requires 0 <= i < |c| => if c[i] == d[i] then Bit(c[i]) else 2)
  }

  lemma {:induction false} BlurredHasNoErrors(c: BitString, d: BitString)
    requires |c| == |d|
    ensures Errors(Blurred(c, d), c) == Errors(Blurred(c, d), d) == 0
    ensures Erasures(Blurred(c, d)) == Hamming(c, d)
  {
    if c != [] {
      var n := |c| - 1;
      assert Blurred(c, d)[..n] == Blurred(c[..n], d[..n]) && Sent(c)[..n] == Sent(c[..n]);
      BlurredHasNoErrors(c[..n], d[..n]);
    }
  }

  /** The bound 2e + f < 4 is the limit: for every terminated input of at least six bits some
      pattern of four erasures leaves a word that another terminated input explains as well,
      so that no decoder can tell the two apart. */
  lemma FourErasuresConfuse(t: BitString) returns (v: BitString, y: seq<Sym>)
    requires |t| >= 6 && End(t) == 0
    ensures |v| == |t| && v != t && End(v) == 0 && |y| == CodeLength(|t|)
    ensures Errors(y, CodeWord(t)) == Errors(y, CodeWord(v)) == 0 && Erasures(y) == 4
  {
    v := DistanceIsAttained(t);
    y := Blurred(CodeWord(t), CodeWord(v));
    BlurredHasNoErrors(CodeWord(t), CodeWord(v));
    EndIsMemory(t);
    EndIsMemory(v);
  }

  lemma SameEndSameMemory(u: BitString, v: BitString)
    requires End(u) == End(v)
    ensures MemoryAfter(u) == MemoryAfter(v)
  {
    EndIsMemory(u);
    EndIsMemory(v);
    NumberNext(MemoryAfter(u), false);
    NumberNext(MemoryAfter(v), false);
  }
}
