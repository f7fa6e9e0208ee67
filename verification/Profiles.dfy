/** The packed 32-bit subscriber profile. */
module Profiles {
  import opened Bits
  import opened WordFields

  /** Narrow fields are bytes in the program, so a value may exceed its width. */
  datatype Profile = Profile(maxCallDuration: Byte, hangtime: Byte, priority: Byte, gilaClass: Byte, gilaLifetime: Byte,
                             reserved3: Byte, permitVoice: bool, permitData: bool, permitReg: bool, valid: bool)

  /** The layout, most significant field first. */
  function ProfileBits(p: Profile): (b: BitString)
    ensures |b| == 32
  {
    ToBits(p.maxCallDuration, 8) + ToBits(p.hangtime, 8) + ToBits(p.priority, 4) + ToBits(p.gilaClass, 3)
    + ToBits(p.gilaLifetime, 2) + ToBits(p.reserved3, 3)
    + ToBits(Bit(p.permitVoice), 1) + ToBits(Bit(p.permitData), 1) + ToBits(Bit(p.permitReg), 1)
    + ToBits(Bit(p.valid), 1)
  }

  function Packed(p: Profile): nat {
    FromBits(ProfileBits(p))
  }

  /** v is a 32-bit word whose top bits are pre and whose other bits are still 0. */
  ghost predicate Filled(v: nat, pre: BitString) {
    |pre| <= 32 && Fits(v, 32) && ToBits(v, 32) == pre + Zeros(32 - |pre|)
  }

  /** v |= (x & mask) << shift. */
  function OrField(v: nat, x: nat, take: nat, shift: nat): nat {
    Or(v, Shl(Field(x, 0, take), shift))
  }

  lemma OrFieldFills(v: nat, pre: BitString, x: nat, take: nat)
    requires Filled(v, pre) && |pre| + take <= 32
    ensures Filled(OrField(v, x, take, 32 - |pre| - take), pre + ToBits(x, take))
  {
    var shift := 32 - |pre| - take;
    var c := Field(x, 0, take);
    LowField(x, take);
    ShlFits(c, take, shift);
    FitsWider(Shl(c, shift), take + shift, 32);
    OrFits(v, Shl(c, shift), 32);
    ShlBits(c, shift, 32);
    HighBitsZero(c, take, |pre|);
    OrBits(v, Shl(c, shift), 32);
    Overlay(ToBits(v, 32), ToBits(Shl(c, shift), 32), ToBits(OrField(v, x, take, shift), 32), pre,
            ToBits(x, take), shift);
  }

  lemma Overlay(a: BitString, b: BitString, r: BitString, pre: BitString, x: BitString, shift: nat)
    requires |a| == |b| == |r| == |pre| + |x| + shift && forall i :: 0 <= i < |r| ==> r[i] == (a[i] || b[i])
    requires a == pre + Zeros(|x| + shift) && b == Zeros(|pre|) + x + Zeros(shift)
    ensures r == pre + x + Zeros(shift)
  {
  }

  /** profile_pack. */
  method PackProfile(p: Profile) returns (v: nat)
    ensures v == Packed(p) && Fits(v, 32) && ToBits(v, 32) == ProfileBits(p)
  {
    v := PackHigh(p);
    ghost var pre := HighBits(p);
    OrFieldFills(v, pre, p.reserved3, 3);
    v := OrField(v, p.reserved3, 3, 4);
    pre := pre + ToBits(p.reserved3, 3);
    v := PackFlags(p, v, pre);
    ToFromBits(ProfileBits(p));
    ToBitsInjective(v, Packed(p), 32);
  }

  ghost function HighBits(p: Profile): (b: BitString)
    ensures |b| == 25
  {
    ToBits(p.maxCallDuration, 8) + ToBits(p.hangtime, 8) + ToBits(p.priority, 4) + ToBits(p.gilaClass, 3)
    + ToBits(p.gilaLifetime, 2)
  }

  method PackHigh(p: Profile) returns (v: nat)
    ensures Filled(v, HighBits(p))
  {
    v := 0;
    ZeroWord();
    OrFieldFills(v, [], p.maxCallDuration, 8);
    v := OrField(v, p.maxCallDuration, 8, 24);
    ghost var pre := [] + ToBits(p.maxCallDuration, 8);
    OrFieldFills(v, pre, p.hangtime, 8);
    v := OrField(v, p.hangtime, 8, 16);
    pre := pre + ToBits(p.hangtime, 8);
    OrFieldFills(v, pre, p.priority, 4);
    v := OrField(v, p.priority, 4, 12);
    pre := pre + ToBits(p.priority, 4);
    OrFieldFills(v, pre, p.gilaClass, 3);
    v := OrField(v, p.gilaClass, 3, 9);
    pre := pre + ToBits(p.gilaClass, 3);
    OrFieldFills(v, pre, p.gilaLifetime, 2);
    v := OrField(v, p.gilaLifetime, 2, 7);
    assert pre + ToBits(p.gilaLifetime, 2) == HighBits(p);
  }

  method PackFlags(p: Profile, v0: nat, ghost pre0: BitString) returns (v: nat)
    requires Filled(v0, pre0) && pre0 == HighBits(p) + ToBits(p.reserved3, 3)
    ensures Fits(v, 32) && ToBits(v, 32) == ProfileBits(p)
  {
    v := v0;
    ghost var pre := pre0;
    OrFieldFills(v, pre, Bit(p.permitVoice), 1);
    v := OrField(v, Bit(p.permitVoice), 1, 3);
    pre := pre + ToBits(Bit(p.permitVoice), 1);
    OrFieldFills(v, pre, Bit(p.permitData), 1);
    v := OrField(v, Bit(p.permitData), 1, 2);
    pre := pre + ToBits(Bit(p.permitData), 1);
    OrFieldFills(v, pre, Bit(p.permitReg), 1);
    v := OrField(v, Bit(p.permitReg), 1, 1);
    pre := pre + ToBits(Bit(p.permitReg), 1);
    OrFieldFills(v, pre, Bit(p.valid), 1);
    v := OrField(v, Bit(p.valid), 1, 0);
    pre := pre + ToBits(Bit(p.valid), 1);
    assert pre + Zeros(0) == pre;
  }

  lemma ZeroWord()
    ensures Filled(0, [])
  {
    ZeroWordBits(32);
    FitsIsBound(0, 32);
    assert [] + Zeros(32) == Zeros(32);
  }

  // ----- Unpacking -----

  function ByteField(v: nat, shift: nat, take: nat): (c: Byte)
    requires take <= 8
  {
    LowField(Shr(v, shift), take);
    FitsWider(Field(v, shift, take), take, 8);
    ByteFits(Field(v, shift, take));
    Field(v, shift, take)
  }

  /** profile_unpack. */
  function Unpacked(v: nat): Profile {
    Profile(ByteField(v, 24, 8), ByteField(v, 16, 8), ByteField(v, 12, 4), ByteField(v, 9, 3), ByteField(v, 7, 2),
            ByteField(v, 4, 3), Field(v, 3, 1) != 0, Field(v, 2, 1) != 0, Field(v, 1, 1) != 0, Field(v, 0, 1) != 0)
  }

  /** Every field is within its width. */
  ghost predicate InRange(p: Profile) {
    Fits(p.priority, 4) && Fits(p.gilaClass, 3) && Fits(p.gilaLifetime, 2) && Fits(p.reserved3, 3)
  }

  /** A field of a word whose bits there are those of x. */
  lemma FieldReads(v: nat, shift: nat, take: nat, x: nat)
    requires shift + take <= 32 && ToBits(v, 32)[32 - shift - take..32 - shift] == ToBits(x, take)
    ensures ToBits(Field(v, shift, take), take) == ToBits(x, take) && (Fits(x, take) ==> Field(v, shift, take) == x)
  {
    FieldBits(v, 32, shift, take);
    if Fits(x, take) {
      ToBitsInjective(Field(v, shift, take), x, take);
    }
  }

  lemma FlagReads(v: nat, shift: nat, b: bool)
    requires shift + 1 <= 32 && ToBits(v, 32)[32 - shift - 1..32 - shift] == ToBits(Bit(b), 1)
    ensures (Field(v, shift, 1) != 0) == b
  {
    OneBitField(Bit(b));
    FieldReads(v, shift, 1, Bit(b));
  }

  /** Unpacking a packed profile gives it back exactly when its narrow fields are in range;
      a wider value is silently cut. */
  lemma UnpackUndoesPackIff(p: Profile)
    ensures Unpacked(Packed(p)) == p <==> InRange(p)
  {
    UnpackedInRange(Packed(p));
    if InRange(p) {
      ToFromBits(ProfileBits(p));
      NumbersRead(p, Packed(p));
      FlagsRead(p, Packed(p));
    }
  }

  lemma UnpackedInRange(v: nat)
    ensures InRange(Unpacked(v))
  {
    LowField(Shr(v, 12), 4);
    LowField(Shr(v, 9), 3);
    LowField(Shr(v, 7), 2);
    LowField(Shr(v, 4), 3);
  }

  lemma NumbersRead(p: Profile, v: nat)
    requires ToBits(v, 32) == ProfileBits(p) && InRange(p)
    ensures Field(v, 24, 8) == p.maxCallDuration && Field(v, 16, 8) == p.hangtime && Field(v, 12, 4) == p.priority
    ensures Field(v, 9, 3) == p.gilaClass && Field(v, 7, 2) == p.gilaLifetime && Field(v, 4, 3) == p.reserved3
  {
    Slices(p);
    ByteFits(p.maxCallDuration);
    ByteFits(p.hangtime);
    FieldReads(v, 24, 8, p.maxCallDuration);
    FieldReads(v, 16, 8, p.hangtime);
    FieldReads(v, 12, 4, p.priority);
    FieldReads(v, 9, 3, p.gilaClass);
    FieldReads(v, 7, 2, p.gilaLifetime);
    FieldReads(v, 4, 3, p.reserved3);
  }

  lemma FlagsRead(p: Profile, v: nat)
    requires ToBits(v, 32) == ProfileBits(p)
    ensures (Field(v, 3, 1) != 0) == p.permitVoice && (Field(v, 2, 1) != 0) == p.permitData
    ensures (Field(v, 1, 1) != 0) == p.permitReg && (Field(v, 0, 1) != 0) == p.valid
  {
    FlagSlices(p);
    FlagReads(v, 3, p.permitVoice);
    FlagReads(v, 2, p.permitData);
    FlagReads(v, 1, p.permitReg);
    FlagReads(v, 0, p.valid);
  }

  lemma Slices(p: Profile)
    ensures var b := ProfileBits(p);
      && b[0..8] == ToBits(p.maxCallDuration, 8) && b[8..16] == ToBits(p.hangtime, 8)
      && b[16..20] == ToBits(p.priority, 4)
      && b[20..23] == ToBits(p.gilaClass, 3) && b[23..25] == ToBits(p.gilaLifetime, 2)
      && b[25..28] == ToBits(p.reserved3, 3)
  {
    var a, b, c := ToBits(p.maxCallDuration, 8), ToBits(p.hangtime, 8), ToBits(p.priority, 4);
    var d, e, f := ToBits(p.gilaClass, 3), ToBits(p.gilaLifetime, 2), ToBits(p.reserved3, 3);
    var flags := ToBits(Bit(p.permitVoice), 1) + ToBits(Bit(p.permitData), 1) + ToBits(Bit(p.permitReg), 1)
                 + ToBits(Bit(p.valid), 1);
    FlagsLast(a + b + c + d + e + f, ToBits(Bit(p.permitVoice), 1), ToBits(Bit(p.permitData), 1),
              ToBits(Bit(p.permitReg), 1), ToBits(Bit(p.valid), 1));
    ThreeFields([], a, b, c, d + e + f + flags);
    ThreeFields(a + b + c, d, e, f, flags);
    Regroup(a, b, c, d, e, f, flags);
  }

  lemma FlagsLast(x: BitString, a: BitString, b: BitString, c: BitString, d: BitString)
    ensures x + a + b + c + d == x + (a + b + c + d)
  {
  }

  lemma Regroup(a: BitString, b: BitString, c: BitString, d: BitString, e: BitString, f: BitString, g: BitString)
    ensures a + b + c + d + e + f + g == [] + a + b + c + (d + e + f + g)
  {
    assert [] + a == a;
    FlagsLast(a + b + c, d, e, f, g);
  }

  lemma ThreeFields(pre: BitString, a: BitString, b: BitString, c: BitString, post: BitString)
    ensures var y, n := pre + a + b + c + post, |pre|;
      && y[n..n + |a|] == a && y[n + |a|..n + |a| + |b|] == b && y[n + |a| + |b|..n + |a| + |b| + |c|] == c
  {
    var y, n := pre + a + b + c + post, |pre|;
    forall k | 0 <= k < |a| ensures y[n..n + |a|][k] == a[k] { assert (pre + a)[n + k] == a[k]; }
    forall k | 0 <= k < |b| ensures y[n + |a|..n + |a| + |b|][k] == b[k] { assert (pre + a + b)[n + |a| + k] == b[k]; }
    forall k | 0 <= k < |c| ensures y[n + |a| + |b|..n + |a| + |b| + |c|][k] == c[k] {
      assert (pre + a + b + c)[n + |a| + |b| + k] == c[k];
    }
  }

  lemma FlagSlices(p: Profile)
    ensures var b := ProfileBits(p);
      && b[28..29] == ToBits(Bit(p.permitVoice), 1) && b[29..30] == ToBits(Bit(p.permitData), 1)
      && b[30..31] == ToBits(Bit(p.permitReg), 1) && b[31..32] == ToBits(Bit(p.valid), 1)
  {
    FourFlags(HighBits(p) + ToBits(p.reserved3, 3), ToBits(Bit(p.permitVoice), 1), ToBits(Bit(p.permitData), 1),
              ToBits(Bit(p.permitReg), 1), ToBits(Bit(p.valid), 1));
  }

  lemma FourFlags(x: BitString, a: BitString, b: BitString, c: BitString, d: BitString)
    requires |x| == 28 && |a| == |b| == |c| == |d| == 1
    ensures var y := x + a + b + c + d; y[28..29] == a && y[29..30] == b && y[30..31] == c && y[31..32] == d
  {
    var y := x + a + b + c + d;
    assert y[28] == a[0] && y[29] == b[0] && y[30] == c[0] && y[31] == d[0];
  }

  /** The packed word stays below 2^31 exactly when the call duration is below 128. */
  lemma PackedIsPositiveIff(p: Profile)
    ensures Packed(p) < 0x1_0000_0000
    ensures Packed(p) < 0x8000_0000 <==> p.maxCallDuration < 128
  {
    var v := Packed(p);
    ToFromBits(ProfileBits(p));
    Pow31();
    FitsIsBound(v, 32);
    Slices(p);
    TopBit(v);
    TopBitOfByte(p.maxCallDuration);
    assert ToBits(v, 32)[0] == ToBits(v, 32)[0..8][0];
  }

  lemma Pow31()
    ensures Pow2(31) == 0x8000_0000 && Pow2(32) == 0x1_0000_0000 && Pow2(7) == 128
  {
    assert Pow2(8) == 256 by { assert Pow2(4) == 16; }
    Pow2Add(8, 8);
    Pow2Add(16, 8);
    Pow2Add(24, 7);
  }

  lemma {:induction false} Pow2Add(a: nat, b: nat)
    ensures Pow2(a + b) == Pow2(a) * Pow2(b)
    decreases b
  {
    if b > 0 {
      Pow2Add(a, b - 1);
    }
  }

  lemma TopBit(v: nat)
    requires Fits(v, 32)
    ensures v < 0x8000_0000 <==> !ToBits(v, 32)[0]
  {
    Pow31();
    FitsIsBound(v, 31);
    HighBit(v, 31);
  }

  lemma TopBitOfByte(v: Byte)
    ensures v < 128 <==> !ToBits(v, 8)[0]
  {
    Pow31();
    ByteFits(v);
    FitsIsBound(v, 7);
    HighBit(v, 7);
  }

  /** The first bit of an (n + 1)-bit field is clear exactly when n bits suffice. */
  lemma {:induction false} HighBit(v: nat, n: nat)
    requires Fits(v, n + 1)
    ensures Fits(v, n) <==> !ToBits(v, n + 1)[0]
    decreases n
  {
    if n > 0 {
      HighBit(v / 2, n - 1);
      assert ToBits(v, n + 1)[0] == ToBits(v / 2, n)[0];
    } else {
      OneBitField(v);
    }
  }
}
