/** The multiplicative interleaver: interleave_a103 of the encoder and
    deinterleave_perm of the decoder. */
module Interleaver {
  import opened Bits
  import opened Viterbi
  import opened Rcpc
  import opened CodeDistance

  /** Where position i goes: k = 1 + (a * (i + 1)) mod K, counted from 0. */
  function Perm(K: nat, a: nat, i: nat): (j: nat)
    requires K > 0
    ensures j < K
  {
    a * (i + 1) % K
  }

  /** a has the inverse b modulo K. */
  predicate Inverse(K: nat, a: nat, b: nat) {
    K > 0 && a * b % K == 1 % K
  }

  lemma SmallMultiple(d: int, K: int)
    requires K > 0
    ensures -K < d * K < K ==> d == 0
  {
    if d >= 1 {
      assert (d - 1) * K >= 0;
    } else if d <= -1 {
      assert (d + 1) * K <= 0;
    }
  }

  lemma ModUnique(x: int, q: int, r: int, K: nat)
    requires K > 0 && x == q * K + r && 0 <= r < K
    ensures x % K == r
  {
    SmallMultiple(q - x / K, K);
    assert (q - x / K) * K == x % K - r;
  }

  lemma ModShift(x: int, k: int, K: nat)
    requires K > 0
    ensures (x + k * K) % K == x % K
  {
    assert x + k * K == (x / K + k) * K + x % K;
    ModUnique(x + k * K, x / K + k, x % K, K);
  }

  lemma Expand(a: int, b: int, n: int, q: int, p: int, e: int, K: int)
    requires a * b == p * K + e
    ensures b * (a * n - q * K) == e * n + (p * n - b * q) * K
  {
    calc {
      b * (a * n - q * K);
      (a * b) * n - (b * q) * K;
      (p * K + e) * n - (b * q) * K;
      e * n + (p * n - b * q) * K;
    }
  }

  lemma PermInverse(K: nat, a: nat, b: nat, i: nat)
    requires Inverse(K, a, b) && K > 1
    ensures b * Perm(K, a, i) % K == (i + 1) % K
  {
    var n := i + 1;
    var q, p := a * n / K, a * b / K;
    ModUnique(1, 0, 1, K);
    assert a * b == p * K + 1;
    Expand(a, b, n, q, p, 1, K);
    assert Perm(K, a, i) == a * n - q * K;
    assert b * Perm(K, a, i) == n + (p * n - b * q) * K;
    ModShift(n, p * n - b * q, K);
  }

  lemma SuccMod(i: nat, K: nat)
    requires i < K
    ensures (i + 1) % K == if i + 1 == K then 0 else i + 1
  {
    ModUnique(i + 1, if i + 1 == K then 1 else 0, if i + 1 == K then 0 else i + 1, K);
  }

  /** An invertible multiplier never sends two positions to the same place. */
  lemma PermInjective(K: nat, a: nat, b: nat, i: nat, j: nat)
    requires Inverse(K, a, b) && i < K && j < K && Perm(K, a, i) == Perm(K, a, j)
    ensures i == j
  {
    if K > 1 {
      PermInverse(K, a, b, i);
      PermInverse(K, a, b, j);
      SuccMod(i, K);
      SuccMod(j, K);
    }
  }

  /** Where air position j came from. */
  function Source(K: nat, b: nat, j: nat): (i: nat)
    requires K > 0
    ensures i < K
  {
    (b * j + K - 1) % K
  }

  lemma Product(a: int, b: int, j: int, p: int, q: int, K: int)
    requires a * b == p * K + 1
    ensures a * (b * j + K - q * K) == (p * j + a - a * q) * K + j
  {
    calc {
      a * (b * j + K - q * K);
      (a * b) * j + (a - a * q) * K;
      (p * K + 1) * j + (a - a * q) * K;
      (p * j + a - a * q) * K + j;
    }
  }

  /** The interleaver sends the source of a position there, so it reaches every position. */
  lemma PermOfSource(K: nat, a: nat, b: nat, j: nat)
    requires Inverse(K, a, b) && j < K
    ensures Perm(K, a, Source(K, b, j)) == j
  {
    if K > 1 {
      var p, q := a * b / K, (b * j + K - 1) / K;
      ModUnique(1, 0, 1, K);
      assert a * b == p * K + 1;
      Product(a, b, j, p, q, K);
      assert Source(K, b, j) + 1 == b * j + K - q * K;
      ModUnique(a * (Source(K, b, j) + 1), p * j + a - a * q, j, K);
    }
  }

  // ----- Interleaving neither creates nor loses errors -----

  function ErrorSet(y: seq<Sym>, c: BitString): set<nat>
    requires |y| == |c|
  {
    set i: nat | i < |y| && Mismatch(c[i], y[i]) == 1
  }

  function ErasureSet(y: seq<Sym>): set<nat> {
    set i: nat | i < |y| && y[i] == 2
  }

  lemma {:induction false} ErrorsCount(y: seq<Sym>, c: BitString)
    requires |y| == |c|
    ensures Errors(y, c) == |ErrorSet(y, c)|
  {
    if y != [] {
      var n := |y| - 1;
      ErrorsCount(y[..n], c[..n]);
      var before := ErrorSet(y[..n], c[..n]);
      assert ErrorSet(y, c) == if Mismatch(c[n], y[n]) == 1 then before + {n} else before;
    } else {
      assert ErrorSet(y, c) == {};
    }
  }

  lemma {:induction false} ErasuresCount(y: seq<Sym>)
    ensures Erasures(y) == |ErasureSet(y)|
  {
    if y != [] {
      var n := |y| - 1;
      ErasuresCount(y[..n]);
      var before := ErasureSet(y[..n]);
      assert ErasureSet(y) == if y[n] == 2 then before + {n} else before;
    } else {
      assert ErasureSet(y) == {};
    }
  }

  lemma {:induction false} ImageNoSmaller(S: set<nat>, T: set<nat>, K: nat, a: nat, b: nat)
    requires Inverse(K, a, b) && forall i :: i in S ==> i < K && Perm(K, a, i) in T
    ensures |S| <= |T|
  {
    if S != {} {
      var i :| i in S;
      forall j | j in S - {i} ensures Perm(K, a, j) in T - {Perm(K, a, i)} {
        if Perm(K, a, j) == Perm(K, a, i) { PermInjective(K, a, b, i, j); }
      }
      ImageNoSmaller(S - {i}, T - {Perm(K, a, i)}, K, a, b);
    }
  }

  /** z is the code word c as it goes on the air. */
  ghost predicate Carries(K: nat, a: nat, z: BitString, c: BitString) {
    |z| == |c| == K && forall i {:trigger c[i]} :: 0 <= i < K ==> z[Perm(K, a, i)] == c[i]
  }

  /** out[i-1] = in[k-1] with k = 1 + (a * i) mod K. */
  function Deinterleaved(x: seq<Sym>, K: nat, a: nat): (y: seq<Sym>)
    requires K <= |x|
    ensures |y| == K
  {
    seq(K, i requires 0 <= i < K => x[Perm(K, a, i)])
  }

  lemma {:induction false} PreimageNoSmaller(S: set<nat>, T: set<nat>, K: nat, a: nat, b: nat)
    requires Inverse(K, a, b) && forall j :: j in T ==> j < K && Source(K, b, j) in S
    ensures |T| <= |S|
  {
    if T != {} {
      var j :| j in T;
      PermOfSource(K, a, b, j);
      forall k | k in T - {j} ensures Source(K, b, k) in S - {Source(K, b, j)} { PermOfSource(K, a, b, k); }
      PreimageNoSmaller(S - {Source(K, b, j)}, T - {j}, K, a, b);
    }
  }

  /** Deinterleaving moves the errors and erasures and keeps their number. */
  lemma DeinterleavedErrors(x: seq<Sym>, z: BitString, c: BitString, K: nat, a: nat, b: nat)
    requires |x| == K && Inverse(K, a, b) && Carries(K, a, z, c)
    ensures Errors(Deinterleaved(x, K, a), c) == Errors(x, z)
    ensures Erasures(Deinterleaved(x, K, a)) == Erasures(x)
  {
    var y := Deinterleaved(x, K, a);
    ErrorsCount(x, z);
    ErrorsCount(y, c);
    ErasuresCount(x);
    ErasuresCount(y);
    NoNewErrors(x, z, c, K, a, b);
    NoLostErrors(x, z, c, K, a, b);
  }

  lemma NoNewErrors(x: seq<Sym>, z: BitString, c: BitString, K: nat, a: nat, b: nat)
    requires |x| == K && Inverse(K, a, b) && Carries(K, a, z, c)
    ensures |ErrorSet(Deinterleaved(x, K, a), c)| <= |ErrorSet(x, z)|
    ensures |ErasureSet(Deinterleaved(x, K, a))| <= |ErasureSet(x)|
  {
    var y := Deinterleaved(x, K, a);
    forall i | i in ErrorSet(y, c) ensures Perm(K, a, i) in ErrorSet(x, z) { assert c[i] == z[Perm(K, a, i)]; }
    ImageNoSmaller(ErrorSet(y, c), ErrorSet(x, z), K, a, b);
    ImageNoSmaller(ErasureSet(y), ErasureSet(x), K, a, b);
  }

  lemma NoLostErrors(x: seq<Sym>, z: BitString, c: BitString, K: nat, a: nat, b: nat)
    requires |x| == K && Inverse(K, a, b) && Carries(K, a, z, c)
    ensures |ErrorSet(x, z)| <= |ErrorSet(Deinterleaved(x, K, a), c)|
    ensures |ErasureSet(x)| <= |ErasureSet(Deinterleaved(x, K, a))|
  {
    var y := Deinterleaved(x, K, a);
    forall j: nat | j < K ensures y[Source(K, b, j)] == x[j] && c[Source(K, b, j)] == z[j] {
      PermOfSource(K, a, b, j);
    }
    PreimageNoSmaller(ErrorSet(y, c), ErrorSet(x, z), K, a, b);
    PreimageNoSmaller(ErasureSet(y), ErasureSet(x), K, a, b);
  }

  // ----- The loops -----

  method Deinterleave(x: seq<Sym>, K: nat, a: nat) returns (y: seq<Sym>)
    requires K <= |x|
    ensures y == Deinterleaved(x, K, a)
  {
    var out := new Sym[K](_ => 0);
    for i := 1 to K + 1
      invariant forall m :: 0 <= m < i - 1 ==> out[m] == Deinterleaved(x, K, a)[m]
    {
      var k := 1 + a * i % K;
      out[i - 1] := x[k - 1];
    }
    y := out[..];
  }

  /** The SCH/F parameters, and the inverse of 103 modulo 432. */
  const A := 103
  const N := 432
  const A_INVERSE := 151

  method InterleaveA103(rcpc: BitString) returns (z: BitString)
    requires |rcpc| == N
    ensures Carries(N, A, z, rcpc)
  {
    var out := new bool[N](_ => false);
    for k := 1 to N + 1
      invariant forall i :: 0 <= i < k - 1 ==> out[Perm(N, A, i)] == rcpc[i]
    {
      var j := 1 + A * k % N;
      forall i | 0 <= i < k - 1 ensures Perm(N, A, i) != j - 1 {
        if Perm(N, A, i) == j - 1 { PermInjective(N, A, A_INVERSE, i, k - 1); }
      }
      out[j - 1] := rcpc[k - 1];
    }
    z := out[..];
  }

  /** Only one word carries a given code word. */
  lemma CarriesUnique(z: BitString, z': BitString, c: BitString)
    requires Carries(N, A, z, c) && Carries(N, A, z', c)
    ensures z == z'
  {
    forall j | 0 <= j < N ensures z[j] == z'[j] {
      PermOfSource(N, A, A_INVERSE, j);
      assert c[Source(N, A_INVERSE, j)] == z[j];
    }
  }
}
