/** Bit strings, the machine words they are read from, and byte buffers.

    Every layer of the stack is MSB first: bit 0 of a string is the first one on the
    air, and bit i of a byte buffer is bit 7 - i % 8 of byte i / 8.  Machine words are
    naturals; the C and Python shift and mask operators are defined bit by bit, and each
    has a lemma saying what it does to the word's MSB-first field of any width. */
module Bits {

  type BitString = seq<bool>
  type Byte = x: int | 0 <= x < 256

  function Zeros(n: nat): BitString {
    seq(n, _ => false)
  }

  function Ones(n: nat): BitString {
    seq(n, _ => true)
  }

  function Not(a: BitString): BitString {
    seq(|a|, i requires 0 <= i < |a| => !a[i])
  }

  function Xor(a: BitString, b: BitString): BitString
    requires |a| == |b|
  {
    seq(|a|, i requires 0 <= i < |a| => a[i] != b[i])
  }

  function Reversed(a: BitString): BitString {
    seq(|a|, i requires 0 <= i < |a| => a[|a| - 1 - i])
  }

  function Bit(b: bool): nat {
    if b then 1 else 0
  }

  // ----- Word operators -----

  function Shr(v: nat, k: nat): nat
    decreases k, v
  {
    if k == 0 then v else Shr(v / 2, k - 1)
  }

  function Shl(v: nat, k: nat): nat
    decreases k, v
  {
    if k == 0 then v else 2 * Shl(v, k - 1)
  }

  function And(x: nat, y: nat): nat {
    if x == 0 || y == 0 then 0 else 2 * And(x / 2, y / 2) + (if x % 2 == 1 && y % 2 == 1 then 1 else 0)
  }

  function Or(x: nat, y: nat): nat
    decreases x + y
  {
    if x == 0 && y == 0 then 0 else 2 * Or(x / 2, y / 2) + (if x % 2 == 1 || y % 2 == 1 then 1 else 0)
  }

  /** The complement of v in an n-bit word. */
  function NotWord(v: nat, n: nat): nat
    decreases n, v
  {
    if n == 0 then 0 else 2 * NotWord(v / 2, n - 1) + (1 - v % 2)
  }

  /** v is representable in n bits, which the code writes (v >> n) == 0. */
  predicate Fits(v: nat, n: nat) {
    Shr(v, n) == 0
  }

  // ----- Fields of words -----

  /** The low n bits of v, most significant first. */
  function ToBits(v: nat, n: nat): (b: BitString)
    ensures |b| == n
    decreases n, v
  {
    if n == 0 then [] else ToBits(v / 2, n - 1) + [v % 2 == 1]
  }

  /** The unsigned value of a most-significant-first field. */
  function FromBits(b: BitString): nat {
    if b == [] then 0 else 2 * FromBits(b[..|b| - 1]) + Bit(b[|b| - 1])
  }

  /** A field of a + b bits is its high part followed by its low part. */
  lemma {:induction false} ToBitsSplit(v: nat, a: nat, b: nat)
    ensures ToBits(v, a + b) == ToBits(Shr(v, b), a) + ToBits(v, b)
    decreases b
  {
    if b > 0 {
      ToBitsSplit(v / 2, a, b - 1);
      assert ToBits(v, a + b) == ToBits(v / 2, a + (b - 1)) + [v % 2 == 1];
    }
  }

  lemma {:induction false} ToFromBits(b: BitString)
    ensures ToBits(FromBits(b), |b|) == b && Fits(FromBits(b), |b|)
  {
    if b != [] {
      ToFromBits(b[..|b| - 1]);
      assert FromBits(b) / 2 == FromBits(b[..|b| - 1]);
    }
  }

  /** Fields of equal width carry equal values exactly when their bits agree. */
  lemma {:induction false} ToBitsInjective(v: nat, w: nat, n: nat)
    requires Fits(v, n) && Fits(w, n) && ToBits(v, n) == ToBits(w, n)
    ensures v == w
    decreases n
  {
    if n > 0 {
      assert ToBits(v, n)[..n - 1] == ToBits(v / 2, n - 1);
      assert ToBits(w, n)[..n - 1] == ToBits(w / 2, n - 1);
      ToBitsInjective(v / 2, w / 2, n - 1);
      assert ToBits(v, n)[n - 1] == ToBits(w, n)[n - 1];
    }
  }

  lemma FromToBits(v: nat, n: nat)
    requires Fits(v, n)
    ensures FromBits(ToBits(v, n)) == v
  {
    ToFromBits(ToBits(v, n));
    ToBitsInjective(FromBits(ToBits(v, n)), v, n);
  }

  lemma {:induction false} ZeroWordBits(n: nat)
    ensures ToBits(0, n) == Zeros(n)
  {
    if n > 0 {
      ZeroWordBits(n - 1);
    }
  }

  lemma {:induction false} AndBits(x: nat, y: nat, n: nat)
    ensures forall i :: 0 <= i < n ==> ToBits(And(x, y), n)[i] == (ToBits(x, n)[i] && ToBits(y, n)[i])
    decreases n
  {
    if n > 0 {
      AndBits(x / 2, y / 2, n - 1);
      assert And(x, y) / 2 == And(x / 2, y / 2);
    }
  }

  lemma {:induction false} OrBits(x: nat, y: nat, n: nat)
    ensures forall i :: 0 <= i < n ==> ToBits(Or(x, y), n)[i] == (ToBits(x, n)[i] || ToBits(y, n)[i])
    decreases n
  {
    if n > 0 {
      OrBits(x / 2, y / 2, n - 1);
      assert Or(x, y) / 2 == Or(x / 2, y / 2);
    }
  }

  lemma {:induction false} NotWordBits(v: nat, n: nat)
    ensures ToBits(NotWord(v, n), n) == Not(ToBits(v, n)) && Fits(NotWord(v, n), n)
    decreases n
  {
    if n > 0 {
      NotWordBits(v / 2, n - 1);
      assert NotWord(v, n) / 2 == NotWord(v / 2, n - 1);
    }
  }

  lemma {:induction false} ShlBits(v: nat, k: nat, n: nat)
    requires k <= n
    ensures ToBits(Shl(v, k), n) == ToBits(v, n - k) + Zeros(k)
    decreases k
  {
    if k > 0 {
      ShlBits(v, k - 1, n - 1);
      assert Zeros(k) == Zeros(k - 1) + [false];
    }
  }

  /** (1 << k) - 1 is a mask of k ones. */
  lemma {:induction false} MaskBits(k: nat, n: nat)
    requires k <= n
    ensures Shl(1, k) >= 1
    ensures ToBits(Shl(1, k) - 1, n) == Zeros(n - k) + Ones(k)
    decreases k
  {
    if k == 0 {
      ZeroWordBits(n);
    } else {
      MaskBits(k - 1, n - 1);
      assert (Shl(1, k) - 1) / 2 == Shl(1, k - 1) - 1;
      assert Ones(k) == Ones(k - 1) + [true];
    }
  }

  // ----- Byte buffers -----

  /** All bits of a byte buffer, in order. */
  function Unpack(s: seq<Byte>): (b: BitString)
    ensures |b| == 8 * |s|
  {
    if s == [] then [] else Unpack(s[..|s| - 1]) + ToBits(s[|s| - 1], 8)
  }
}
