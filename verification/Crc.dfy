/** Cyclic redundancy checks as linear shift registers.

    A register is a list of w bits whose head is the bit that leaves on the next step:
    the top bit of a left-shifting register, the low bit of a right-shifting one.  Seen
    this way the MSB-first register of the encoder and the reflected register of the
    decoder are one and the same machine, and the theory below holds for every width and
    every generator whose last coefficient is 1. */
module Crc {
  import opened Bits

  ghost predicate Generator(poly: BitString) {
    |poly| > 0 && poly[|poly| - 1]
  }

  /** One step on a zero input bit. */
  function Shift(poly: BitString, c: BitString): (r: BitString)
    requires |c| == |poly| > 0
    ensures |r| == |c|
  {
    var s := c[1..] + [false];
    if c[0] then Xor(s, poly) else s
  }

  function Step(poly: BitString, c: BitString, b: bool): (r: BitString)
    requires |c| == |poly| > 0
    ensures |r| == |c|
  {
    var s := c[1..] + [false];
    if b != c[0] then Xor(s, poly) else s
  }

  function Feed(poly: BitString, c: BitString, m: BitString): (r: BitString)
    requires |c| == |poly| > 0
    ensures |r| == |c|
    decreases |m|
  {
    if m == [] then c else Feed(poly, Step(poly, c, m[0]), m[1..])
  }

  function Shifts(poly: BitString, c: BitString, k: nat): (r: BitString)
    requires |c| == |poly| > 0
    ensures |r| == |c|
    decreases k
  {
    if k == 0 then c else Shifts(poly, Shift(poly, c), k - 1)
  }

  /** The checksum the senders append: the complemented register. */
  function Checksum(poly: BitString, m: BitString): (r: BitString)
    requires |poly| > 0
    ensures |r| == |poly|
  {
    Not(Feed(poly, Ones(|poly|), m))
  }

  /** The receivers' test: does the whole frame leave the fixed residue? */
  predicate Accepts(poly: BitString, frame: BitString)
    requires |poly| > 0
  {
    Feed(poly, Ones(|poly|), frame) == Shifts(poly, Ones(|poly|), |poly|)
  }

  lemma {:induction false} FeedAppend(poly: BitString, c: BitString, a: BitString, b: BitString)
    requires |c| == |poly| > 0
    ensures Feed(poly, c, a + b) == Feed(poly, Feed(poly, c, a), b)
    decreases |a|
  {
    if a == [] {
      assert a + b == b;
    } else {
      assert (a + b)[1..] == a[1..] + b;
      FeedAppend(poly, Step(poly, c, a[0]), a[1..], b);
    }
  }

  /** What one loop iteration over m[i] does to the register. */
  lemma FeedPrefix(poly: BitString, c: BitString, m: BitString, i: nat)
    requires |c| == |poly| > 0 && i < |m|
    ensures Feed(poly, c, m[..i + 1]) == Step(poly, Feed(poly, c, m[..i]), m[i])
  {
    assert m[..i + 1] == m[..i] + [m[i]];
    FeedAppend(poly, c, m[..i], [m[i]]);
    var d := Feed(poly, c, m[..i]);
    assert Feed(poly, d, [m[i]]) == Feed(poly, Step(poly, d, m[i]), []);
  }

  // ----- Linearity and injectivity -----

  lemma StepLinear(poly: BitString, c: BitString, d: BitString, a: bool, b: bool)
    requires |c| == |d| == |poly| > 0
    ensures Step(poly, Xor(c, d), a != b) == Xor(Step(poly, c, a), Step(poly, d, b))
  {
  }

  lemma {:induction false} FeedLinear(poly: BitString, c: BitString, d: BitString, m: BitString, e: BitString)
    requires |c| == |d| == |poly| > 0 && |m| == |e|
    ensures Feed(poly, Xor(c, d), Xor(m, e)) == Xor(Feed(poly, c, m), Feed(poly, d, e))
    decreases |m|
  {
    if m != [] {
      StepLinear(poly, c, d, m[0], e[0]);
      assert Xor(m, e)[1..] == Xor(m[1..], e[1..]);
      FeedLinear(poly, Step(poly, c, m[0]), Step(poly, d, e[0]), m[1..], e[1..]);
    }
  }

  lemma ShiftInjective(poly: BitString, c: BitString, d: BitString)
    requires Generator(poly) && |c| == |d| == |poly|
    requires Shift(poly, c) == Shift(poly, d)
    ensures c == d
  {
    var w := |poly|;
    assert Shift(poly, c)[w - 1] == c[0] && Shift(poly, d)[w - 1] == d[0];
    forall i | 1 <= i < w
      ensures c[i] == d[i]
    {
      assert Shift(poly, c)[i - 1] == Shift(poly, d)[i - 1];
    }
  }

  lemma {:induction false} ShiftsInjective(poly: BitString, c: BitString, d: BitString, k: nat)
    requires Generator(poly) && |c| == |d| == |poly|
    requires Shifts(poly, c, k) == Shifts(poly, d, k)
    ensures c == d
    decreases k
  {
    if k > 0 {
      ShiftsInjective(poly, Shift(poly, c), Shift(poly, d), k - 1);
      ShiftInjective(poly, c, d);
    }
  }

  /** The register with the message t xored into its first bits. */
  function Mixed(c: BitString, t: BitString): (x: BitString)
    requires |t| <= |c|
    ensures |x| == |c|
  {
    Xor(c, t + Zeros(|c| - |t|))
  }

  lemma StepIsShiftOfMixed(poly: BitString, c: BitString, t: BitString)
    requires |c| == |poly| > 0 && 0 < |t| <= |poly|
    ensures Shift(poly, Mixed(c, t)) == Mixed(Step(poly, c, t[0]), t[1..])
  {
    var x, y := Mixed(c, t), Mixed(Step(poly, c, t[0]), t[1..]);
    assert x[0] == (t[0] != c[0]);
    forall i | 0 <= i < |c|
      ensures Shift(poly, x)[i] == y[i]
    {
      if i + 1 < |c| {
        assert x[i + 1] == (c[i + 1] != (t + Zeros(|c| - |t|))[i + 1]);
      }
    }
  }

  /** Feeding at most w bits is xoring them into the register and then shifting. */
  lemma {:induction false} FeedIsXorThenShift(poly: BitString, c: BitString, t: BitString)
    requires |c| == |poly| > 0 && |t| <= |poly|
    ensures Feed(poly, c, t) == Shifts(poly, Mixed(c, t), |t|)
    decreases |t|
  {
    if t == [] {
      assert Mixed(c, t) == c;
    } else {
      FeedIsXorThenShift(poly, Step(poly, c, t[0]), t[1..]);
      StepIsShiftOfMixed(poly, c, t);
    }
  }

  // ----- What the check means -----

  /** A frame is accepted exactly when its last w bits are the checksum of the rest. */
  lemma AcceptsIffChecksum(poly: BitString, m: BitString, t: BitString)
    requires Generator(poly) && |t| == |poly|
    ensures Accepts(poly, m + t) <==> t == Checksum(poly, m)
  {
    var w := |poly|;
    var c := Feed(poly, Ones(w), m);
    FeedAppend(poly, Ones(w), m, t);
    FeedIsXorThenShift(poly, c, t);
    assert Mixed(c, t) == Xor(c, t);
    if Accepts(poly, m + t) {
      ShiftsInjective(poly, Xor(c, t), Ones(w), w);
      forall i | 0 <= i < w ensures t[i] == Not(c)[i] { assert Xor(c, t)[i]; }
    }
    if t == Checksum(poly, m) {
      assert Xor(c, t) == Ones(w);
    }
  }

  ghost predicate ErrorWithin(e: BitString, lo: nat, hi: nat) {
    lo <= hi <= |e| && (forall i :: 0 <= i < |e| && e[i] ==> lo <= i < hi) && (exists i :: 0 <= i < |e| && e[i])
  }

  lemma {:induction false} FeedZeros(poly: BitString, c: BitString, n: nat)
    requires |c| == |poly| > 0
    ensures Feed(poly, c, Zeros(n)) == Shifts(poly, c, n)
    decreases n
  {
    if n > 0 {
      assert Zeros(n)[1..] == Zeros(n - 1);
      FeedZeros(poly, Shift(poly, c), n - 1);
    }
  }

  lemma {:induction false} ShiftsZero(poly: BitString, n: nat)
    requires |poly| > 0
    ensures Shifts(poly, Zeros(|poly|), n) == Zeros(|poly|)
  {
    if n > 0 {
      assert Shift(poly, Zeros(|poly|)) == Zeros(|poly|);
      ShiftsZero(poly, n - 1);
    }
  }

  lemma ShiftsNonzero(poly: BitString, c: BitString, n: nat)
    requires Generator(poly) && |c| == |poly| && c != Zeros(|poly|)
    ensures Shifts(poly, c, n) != Zeros(|poly|)
  {
    if Shifts(poly, c, n) == Zeros(|poly|) {
      ShiftsZero(poly, n);
      ShiftsInjective(poly, c, Zeros(|poly|), n);
    }
  }

  lemma NonzeroBurst(poly: BitString, b: BitString, i: nat)
    requires Generator(poly) && |b| <= |poly| && i < |b| && b[i]
    ensures Feed(poly, Zeros(|poly|), b) != Zeros(|poly|)
  {
    var z := Zeros(|poly|);
    FeedIsXorThenShift(poly, z, b);
    assert Mixed(z, b)[i] != z[i];
    ShiftsNonzero(poly, Mixed(z, b), |b|);
  }

  lemma BurstShape(e: BitString, lo: nat, hi: nat)
    requires ErrorWithin(e, lo, hi)
    ensures e == Zeros(lo) + (e[lo..hi] + Zeros(|e| - hi))
  {
  }

  /** From the zero register, a nonzero burst no longer than the register never dies out. */
  lemma BurstNeverVanishes(poly: BitString, e: BitString, lo: nat, hi: nat)
    requires Generator(poly) && ErrorWithin(e, lo, hi) && hi - lo <= |poly|
    ensures Feed(poly, Zeros(|poly|), e) != Zeros(|poly|)
  {
    var z := Zeros(|poly|);
    var b := e[lo..hi];
    BurstShape(e, lo, hi);
    FeedAppend(poly, z, Zeros(lo), b + Zeros(|e| - hi));
    FeedZeros(poly, z, lo);
    ShiftsZero(poly, lo);
    FeedAppend(poly, z, b, Zeros(|e| - hi));
    var i :| 0 <= i < |e| && e[i];
    NonzeroBurst(poly, b, i - lo);
    FeedZeros(poly, Feed(poly, z, b), |e| - hi);
    ShiftsNonzero(poly, Feed(poly, z, b), |e| - hi);
  }

  lemma XorFixed(c: BitString, d: BitString)
    requires |c| == |d| && Xor(c, d) == c
    ensures d == Zeros(|d|)
  {
    forall i | 0 <= i < |d| ensures !d[i] { assert Xor(c, d)[i] == c[i]; }
  }

  lemma XorZeros(c: BitString)
    ensures Xor(c, Zeros(|c|)) == c
  {
  }

  /** A burst error of at most w bits always changes the register. */
  lemma BurstChangesRegister(poly: BitString, c: BitString, m: BitString, e: BitString, lo: nat, hi: nat)
    requires Generator(poly) && |c| == |poly| && |m| == |e|
    requires ErrorWithin(e, lo, hi) && hi - lo <= |poly|
    ensures Feed(poly, c, Xor(m, e)) != Feed(poly, c, m)
  {
    var z := Zeros(|poly|);
    XorZeros(c);
    FeedLinear(poly, c, z, m, e);
    BurstNeverVanishes(poly, e, lo, hi);
    if Feed(poly, c, Xor(m, e)) == Feed(poly, c, m) {
      XorFixed(Feed(poly, c, m), Feed(poly, z, e));
    }
  }

  /** Every accepted frame hit by a burst of at most w bits is rejected. */
  lemma BurstIsRejected(poly: BitString, frame: BitString, e: BitString, lo: nat, hi: nat)
    requires Generator(poly) && |frame| == |e| && Accepts(poly, frame)
    requires ErrorWithin(e, lo, hi) && hi - lo <= |poly|
    ensures !Accepts(poly, Xor(frame, e))
  {
    BurstChangesRegister(poly, Ones(|poly|), frame, e, lo, hi);
  }
}
