/** What the shift-and-mask expressions of the bit buffer do to a byte or word. */
module WordFields {
  import opened Bits

  // ----- Widths -----

  function Pow2(n: nat): (p: nat)
    ensures p >= 1
  {
    if n == 0 then 1 else 2 * Pow2(n - 1)
  }

  lemma {:induction false} FitsIsBound(v: nat, n: nat)
    ensures Fits(v, n) <==> v < Pow2(n)
    decreases n
  {
    if n > 0 {
      FitsIsBound(v / 2, n - 1);
    }
  }

  lemma ByteFits(v: nat)
    ensures Fits(v, 8) <==> v < 256
  {
    FitsIsBound(v, 8);
    assert Pow2(8) == 256 by { assert Pow2(4) == 16; }
  }

  lemma {:induction false} FitsMore(v: nat, n: nat)
    requires Fits(v, n)
    ensures Fits(v, n + 1)
    decreases n
  {
    if n > 0 {
      FitsMore(v / 2, n - 1);
    }
  }

  lemma {:induction false} FitsWider(v: nat, n: nat, m: nat)
    requires Fits(v, n) && n <= m
    ensures Fits(v, m)
    decreases m
  {
    if n < m {
      FitsWider(v, n, m - 1);
      FitsMore(v, m - 1);
    }
  }

  lemma {:induction false} OrFits(x: nat, y: nat, n: nat)
    requires Fits(x, n) && Fits(y, n)
    ensures Fits(Or(x, y), n)
    decreases n
  {
    if n > 0 {
      OrFits(x / 2, y / 2, n - 1);
      assert Or(x, y) / 2 == Or(x / 2, y / 2);
    }
  }

  lemma {:induction false} AndFits(x: nat, y: nat, n: nat)
    requires Fits(x, n) || Fits(y, n)
    ensures Fits(And(x, y), n)
    decreases n
  {
    if n > 0 {
      AndFits(x / 2, y / 2, n - 1);
      assert And(x, y) / 2 == And(x / 2, y / 2);
    }
  }

  lemma {:induction false} ShlFits(v: nat, n: nat, k: nat)
    requires Fits(v, n)
    ensures Fits(Shl(v, k), n + k)
    decreases k
  {
    if k > 0 {
      ShlFits(v, n, k - 1);
      assert Shl(v, k) / 2 == Shl(v, k - 1);
    }
  }

  lemma {:induction false} MaskFits(k: nat)
    ensures Shl(1, k) >= 1 && Fits(Shl(1, k) - 1, k)
  {
    if k > 0 {
      MaskFits(k - 1);
      assert (Shl(1, k) - 1) / 2 == Shl(1, k - 1) - 1;
    }
  }

  lemma {:induction false} HighBitsZero(v: nat, t: nat, d: nat)
    requires Fits(v, t)
    ensures ToBits(v, d + t) == Zeros(d) + ToBits(v, t)
    decreases t
  {
    if t > 0 {
      HighBitsZero(v / 2, t - 1, d);
      assert d + t - 1 == d + (t - 1);
    } else {
      ZeroWordBits(d);
    }
  }

  /** A one-bit field. */
  lemma OneBitField(v: nat)
    ensures ToBits(v, 1) == [v % 2 == 1] && (Fits(v, 1) <==> v < 2)
  {
    assert ToBits(v, 1) == ToBits(v / 2, 0) + [v % 2 == 1];
    assert Shr(v, 1) == Shr(v / 2, 0);
  }

  // ----- Reading a field -----

  /** (byte >> shift) & ((1 << take) - 1). */
  function Field(v: nat, shift: nat, take: nat): nat
  {
    And(Shr(v, shift), if Shl(1, take) >= 1 then Shl(1, take) - 1 else 0)
  }

  lemma LowField(v: nat, take: nat)
    ensures var c := Field(v, 0, take); Fits(c, take) && ToBits(c, take) == ToBits(v, take)
  {
    MaskFits(take);
    MaskBits(take, take);
    AndFits(v, Shl(1, take) - 1, take);
    AndBits(v, Shl(1, take) - 1, take);
  }

  /** The bits of a field are a slice of the word's. */
  lemma FieldBits(v: nat, n: nat, shift: nat, take: nat)
    requires shift + take <= n
    ensures var c := Field(v, shift, take);
      Fits(c, take) && ToBits(c, take) == ToBits(v, n)[n - shift - take..n - shift]
  {
    LowField(Shr(v, shift), take);
    ToBitsSplit(v, n - shift, shift);
    ToBitsSplit(Shr(v, shift), n - shift - take, take);
  }

  /** (result << t) | c appends the t bits of c. */
  lemma AppendField(r: nat, d: nat, c: nat, t: nat)
    requires Fits(r, d) && Fits(c, t)
    ensures var v := Or(Shl(r, t), c); Fits(v, d + t) && ToBits(v, d + t) == ToBits(r, d) + ToBits(c, t)
  {
    ShlFits(r, d, t);
    FitsWider(c, t, d + t);
    OrFits(Shl(r, t), c, d + t);
    ShlBits(r, t, d + t);
    HighBitsZero(c, t, d);
    OrBits(Shl(r, t), c, d + t);
  }

  // ----- Writing a field into a byte -----

  /** (b & ~mask) | bits, with mask = ((1 << take) - 1) << shift and bits = c << shift. */
  function WithField(b: Byte, c: nat, shift: nat, take: nat): nat {
    var mask := Shl(if Shl(1, take) >= 1 then Shl(1, take) - 1 else 0, shift);
    Or(And(b, NotWord(mask, 8)), Shl(c, shift))
  }

  lemma ClearedBits(b: Byte, shift: nat, take: nat)
    requires shift + take <= 8
    ensures Shl(1, take) >= 1
    ensures ToBits(And(b, NotWord(Shl(Shl(1, take) - 1, shift), 8)), 8)
         == ToBits(b, 8)[..8 - shift - take] + Zeros(take) + ToBits(b, 8)[8 - shift..]
  {
    MaskWordBits(shift, take);
    var mask := Shl(Shl(1, take) - 1, shift);
    NotWordBits(mask, 8);
    AndBits(b, NotWord(mask, 8), 8);
    MaskedAway(ToBits(b, 8), ToBits(mask, 8), ToBits(NotWord(mask, 8), 8),
               ToBits(And(b, NotWord(mask, 8)), 8), shift, take);
  }

  lemma MaskWordBits(shift: nat, take: nat)
    requires shift + take <= 8
    ensures Shl(1, take) >= 1
    ensures ToBits(Shl(Shl(1, take) - 1, shift), 8) == Zeros(8 - shift - take) + Ones(take) + Zeros(shift)
  {
    MaskBits(take, 8 - shift);
    ShlBits(Shl(1, take) - 1, shift, 8);
  }

  lemma MaskedAway(b: BitString, mask: BitString, kept: BitString, r: BitString, shift: nat, take: nat)
    requires shift + take <= 8 && |b| == |r| == 8 && kept == Not(mask)
    requires mask == Zeros(8 - shift - take) + Ones(take) + Zeros(shift)
    requires forall i :: 0 <= i < 8 ==> r[i] == (b[i] && kept[i])
    ensures r == b[..8 - shift - take] + Zeros(take) + b[8 - shift..]
  {
    var y := b[..8 - shift - take] + Zeros(take) + b[8 - shift..];
    assert forall i :: 0 <= i < 8 ==> kept[i] == !mask[i];
    assert forall i :: 0 <= i < 8 ==> r[i] == y[i];
  }

  lemma PlacedBits(c: nat, shift: nat, take: nat)
    requires shift + take <= 8 && Fits(c, take)
    ensures ToBits(Shl(c, shift), 8) == Zeros(8 - shift - take) + ToBits(c, take) + Zeros(shift)
  {
    ShlBits(c, shift, 8);
    HighBitsZero(c, take, 8 - shift - take);
  }

  /** Clearing the field and or-ing the new bits in replaces exactly the field. */
  lemma WithFieldBits(b: Byte, c: nat, shift: nat, take: nat)
    requires shift + take <= 8 && Fits(c, take)
    ensures WithField(b, c, shift, take) < 256
    ensures ToBits(WithField(b, c, shift, take), 8)
         == ToBits(b, 8)[..8 - shift - take] + ToBits(c, take) + ToBits(b, 8)[8 - shift..]
  {
    WithFieldFits(b, c, shift, take);
    ClearedBits(b, shift, take);
    PlacedBits(c, shift, take);
    OrOver(ToBits(b, 8), ToBits(c, take), And(b, NotWord(Shl(Shl(1, take) - 1, shift), 8)), Shl(c, shift), shift);
  }

  lemma OrOver(b: BitString, x: BitString, cleared: nat, placed: nat, shift: nat)
    requires |b| == 8 && |x| + shift <= 8
    requires ToBits(cleared, 8) == b[..8 - shift - |x|] + Zeros(|x|) + b[8 - shift..]
    requires ToBits(placed, 8) == Zeros(8 - shift - |x|) + x + Zeros(shift)
    ensures ToBits(Or(cleared, placed), 8) == b[..8 - shift - |x|] + x + b[8 - shift..]
  {
    OrBits(cleared, placed, 8);
    FieldOver(b, x, ToBits(cleared, 8), ToBits(placed, 8), ToBits(Or(cleared, placed), 8), shift);
  }

  lemma FieldOver(b: BitString, x: BitString, cleared: BitString, placed: BitString, r: BitString, shift: nat)
    requires |b| == |cleared| == |placed| == |r| == 8 && |x| + shift <= 8
    requires cleared == b[..8 - shift - |x|] + Zeros(|x|) + b[8 - shift..]
    requires placed == Zeros(8 - shift - |x|) + x + Zeros(shift)
    requires forall i :: 0 <= i < 8 ==> r[i] == (cleared[i] || placed[i])
    ensures r == b[..8 - shift - |x|] + x + b[8 - shift..]
  {
  }

  lemma WithFieldFits(b: Byte, c: nat, shift: nat, take: nat)
    requires shift + take <= 8 && Fits(c, take)
    ensures WithField(b, c, shift, take) < 256
  {
    var mask := Shl(if Shl(1, take) >= 1 then Shl(1, take) - 1 else 0, shift);
    ByteFits(b);
    AndFits(b, NotWord(mask, 8), 8);
    ShlFits(c, take, shift);
    FitsWider(Shl(c, shift), take + shift, 8);
    OrFits(And(b, NotWord(mask, 8)), Shl(c, shift), 8);
    ByteFits(WithField(b, c, shift, take));
  }

  // ----- Byte buffers -----

  /** b with the bits x laid over it from position p on. */
  function Spliced(b: BitString, p: nat, x: BitString): (r: BitString)
    requires p + |x| <= |b|
    ensures |r| == |b|
  {
    b[..p] + x + b[p + |x|..]
  }

  lemma SpliceTwice(b: BitString, p: nat, x: BitString, y: BitString)
    requires p + |x| + |y| <= |b|
    ensures Spliced(Spliced(b, p, x), p + |x|, y) == Spliced(b, p, x + y)
  {
  }

  /** Byte k of a buffer supplies bits 8k .. 8k + 7. */
  lemma {:induction false} UnpackByte(s: seq<Byte>, k: nat)
    requires k < |s|
    ensures Unpack(s)[8 * k..8 * k + 8] == ToBits(s[k], 8)
  {
    if k < |s| - 1 {
      UnpackByte(s[..|s| - 1], k);
    }
  }

  /** Replacing one byte splices its bits into the buffer. */
  lemma {:induction false} UnpackUpdate(s: seq<Byte>, k: nat, b: Byte)
    requires k < |s|
    ensures Unpack(s[k := b]) == Spliced(Unpack(s), 8 * k, ToBits(b, 8))
  {
    var front, last := s[..|s| - 1], ToBits(s[|s| - 1], 8);
    if k < |s| - 1 {
      UnpackUpdate(front, k, b);
      assert s[k := b][..|s| - 1] == front[k := b];
      SpliceBefore(Unpack(front), 8 * k, ToBits(b, 8), last);
    } else {
      assert s[k := b][..|s| - 1] == front;
    }
  }

  lemma SpliceBefore(b: BitString, p: nat, x: BitString, rest: BitString)
    requires p + |x| <= |b|
    ensures Spliced(b + rest, p, x) == Spliced(b, p, x) + rest
  {
  }
}
