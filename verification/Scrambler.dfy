/** The scrambler: scramble of the encoder and scrambler_seq of the decoder, both a
    32-bit Fibonacci shift register.  A register is its bit string, highest bit first, so
    bit t of the word is element 31 - t and a step drops the last element. */
module Scrambler {
  import opened Bits

  type Word = w: BitString | |w| == 32 witness Zeros(32)

  /** The encoder's list of tapped bits. */
  function Tap(i: nat): (t: nat)
    ensures t < 32
  {
    if i == 0 then 0 else if i == 1 then 6 else if i == 2 then 9 else if i == 3 then 10
    else if i == 4 then 16 else if i == 5 then 20 else if i == 6 then 21 else if i == 7 then 22
    else if i == 8 then 24 else if i == 9 then 25 else if i == 10 then 27 else if i == 11 then 28
    else if i == 12 then 30 else 31
  }

  function TapParity(l: Word, n: nat): bool {
    if n == 0 then false else TapParity(l, n - 1) != l[31 - Tap(n - 1)]
  }

  function Feedback(l: Word): bool {
    TapParity(l, 14)
  }

  /** The register after i steps. */
  function After(l: Word, i: nat): Word {
    if i == 0 then l else var r := After(l, i - 1); [Feedback(r)] + r[..31]
  }

  /** Bit i of the sequence that a register generates. */
  function KeyBit(l: Word, i: nat): bool {
    Feedback(After(l, i))
  }

  function Scrambled(bits: BitString, init: Word): BitString {
    seq(|bits|, i requires 0 <= i < |bits| => bits[i] != KeyBit(init, i))
  }

  /** The decoder replaces an all-zero register. */
  function Seeded(init: Word): Word {
    if init == Zeros(32) then Ones(32) else init
  }

  function Descrambled(bits: BitString, init: Word): BitString {
    seq(|bits|, i requires 0 <= i < |bits| => bits[i] != KeyBit(Seeded(init), i))
  }

  method Scramble(bits: BitString, init: Word) returns (out: BitString)
    ensures out == Scrambled(bits, init)
  {
    var lfsr := init;
    out := [];
    for i := 0 to |bits|
      invariant lfsr == After(init, i) && |out| == i
      invariant forall k :: 0 <= k < i ==> out[k] == (bits[k] != KeyBit(init, k))
    {
      var fb := false;
      for t := 0 to 14
        invariant fb == TapParity(lfsr, t)
      {
        fb := fb != lfsr[31 - Tap(t)];
      }
      out := out + [bits[i] != fb];
      lfsr := [fb] + lfsr[..31];
    }
  }

  /** The fourteen taps as the decoder writes them out. */
  function WrittenOut(l: Word): bool {
    var high := ((((l[31] != l[25]) != l[22]) != l[21]) != l[15]) != l[11];
    (((((((high != l[10]) != l[9]) != l[7]) != l[6]) != l[4]) != l[3]) != l[1]) != l[0]
  }

  lemma FeedbackTaps(l: Word)
    ensures Feedback(l) == WrittenOut(l)
  {
    assert TapParity(l, 1) == l[31];
    assert TapParity(l, 3) == ((TapParity(l, 1) != l[25]) != l[22]);
    assert TapParity(l, 5) == ((TapParity(l, 3) != l[21]) != l[15]);
    assert TapParity(l, 7) == ((TapParity(l, 5) != l[11]) != l[10]);
    assert TapParity(l, 9) == ((TapParity(l, 7) != l[9]) != l[7]);
    assert TapParity(l, 11) == ((TapParity(l, 9) != l[6]) != l[4]);
    assert TapParity(l, 13) == ((TapParity(l, 11) != l[3]) != l[1]);
  }

  method ScramblerSeq(init: Word, length: nat) returns (out: BitString)
    ensures |out| == length && forall k :: 0 <= k < length ==> out[k] == KeyBit(Seeded(init), k)
  {
    var lfsr := init;
    if lfsr == Zeros(32) {
      lfsr := Ones(32);
    }
    out := [];
    for i := 0 to length
      invariant lfsr == After(Seeded(init), i) && |out| == i
      invariant forall k :: 0 <= k < i ==> out[k] == KeyBit(Seeded(init), k)
    {
      FeedbackTaps(lfsr);
      var b := WrittenOut(lfsr);
      out := out + [b];
      lfsr := [b] + lfsr[..31];
    }
  }

  // ----- The recurrence of the key stream -----

  /** The register holds the key bits so far, newest first, and then what is left of the seed. */
  lemma {:induction false} RegisterHoldsKey(init: Word, i: nat, j: nat)
    requires j < 32
    ensures After(init, i)[j] == if j < i then KeyBit(init, i - 1 - j) else init[j - i]
    decreases i
  {
    if i > 0 && j > 0 {
      RegisterHoldsKey(init, i - 1, j - 1);
    }
  }

  /** From bit 32 on, each key bit is the sum of the earlier ones that the connection polynomial
      X^32 + X^26 + X^23 + X^22 + X^16 + X^12 + X^11 + X^10 + X^8 + X^7 + X^5 + X^4 + X^2 + X + 1
      names. */
  lemma KeyRecurrence(init: Word, k: nat)
    requires k >= 32
    ensures KeyBit(init, k)
      == ((((((((((((((KeyBit(init, k - 32) != KeyBit(init, k - 26)) != KeyBit(init, k - 23)) != KeyBit(init, k - 22))
             != KeyBit(init, k - 16)) != KeyBit(init, k - 12)) != KeyBit(init, k - 11)) != KeyBit(init, k - 10))
             != KeyBit(init, k - 8)) != KeyBit(init, k - 7)) != KeyBit(init, k - 5)) != KeyBit(init, k - 4))
             != KeyBit(init, k - 2)) != KeyBit(init, k - 1)))
  {
    FeedbackTaps(After(init, k));
    forall j | 0 <= j < 32 ensures After(init, k)[j] == KeyBit(init, k - 1 - j) { RegisterHoldsKey(init, k, j); }
  }

  lemma {:induction false} ZeroRegisterStaysZero(i: nat)
    ensures After(Zeros(32), i) == Zeros(32) && !KeyBit(Zeros(32), i)
  {
    FeedbackTaps(Zeros(32));
    if i > 0 {
      ZeroRegisterStaysZero(i - 1);
    }
  }

  lemma SecondKeyBitOfOnes()
    ensures KeyBit(Ones(32), 1)
  {
    FeedbackTaps(Ones(32));
    var r := [false] + Ones(32)[..31];
    assert After(Ones(32), 1) == r;
    FeedbackTaps(r);
  }

  lemma FirstKeyBitOfOnes()
    ensures !KeyBit(Ones(32), 0)
  {
    FeedbackTaps(Ones(32));
  }

  /** Descrambling undoes scrambling exactly when the seed is nonzero or the block shorter
      than two bits: the decoder replaces a zero seed and the encoder does not, and the two
      key streams part at their second bit. */
  lemma DescrambleUndoesIffSeeded(bits: BitString, init: Word)
    ensures Descrambled(Scrambled(bits, init), init) == bits <==> init != Zeros(32) || |bits| < 2
  {
    if init == Zeros(32) && |bits| >= 2 {
      ZeroRegisterStaysZero(1);
      SecondKeyBitOfOnes();
      assert Descrambled(Scrambled(bits, init), init)[1] != bits[1];
    } else {
      ZeroRegisterStaysZero(0);
      FirstKeyBitOfOnes();
      assert Descrambled(Scrambled(bits, init), init) == bits;
    }
  }
}
