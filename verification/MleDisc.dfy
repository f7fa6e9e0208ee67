/** Prepending the 3-bit MLE discriminator to an MM body, and stripping it again. */
module MleDisc {
  import opened Errno
  import opened Bits
  import opened WordFields
  import opened BitBuffer
  import opened BitWriter
  import opened MmAccept

  const DISC_MM: nat := 1

  /** Copies bits src .. src + n of s onto out, whose bits dst .. dst + n are clear; only set
      bits are written. */
  method CopyBits(s: seq<Byte>, src: nat, n: nat, out: array<Byte>, dst: nat)
    requires src + n <= 8 * |s| && dst + n <= 8 * out.Length
    requires Clear(Unpack(out[..]), dst, dst + n)
    modifies out
    ensures Unpack(out[..]) == Spliced(old(Unpack(out[..])), dst, Unpack(s)[src..src + n])
  {
    ghost var before, x := Unpack(out[..]), Unpack(s)[src..src + n];
    LaidNone(before, dst, x);
    for i := 0 to n
      invariant Laid(Unpack(out[..]), before, dst, x, i)
    {
      assert x[i] == Unpack(s)[src + i];
      CopyBit(s, src + i, out, dst, before, x, i);
    }
    LaidAll(Unpack(out[..]), before, dst, x);
  }

  method CopyBit(s: seq<Byte>, src: nat, out: array<Byte>, dst: nat, ghost before: BitString, ghost x: BitString,
                 i: nat)
    requires src < 8 * |s| && dst + i < 8 * out.Length && i < |x| && x[i] == Unpack(s)[src]
    requires Laid(Unpack(out[..]), before, dst, x, i) && Clear(before, dst, dst + |x|)
    modifies out
    ensures Laid(Unpack(out[..]), before, dst, x, i + 1)
  {
    var bit := BitOf(s, src);
    if bit {
      LayMore(before, dst, x, i, 1, Unpack(out[..]));
      OneBitField(1);
      assert x[i..i + 1] == [true];
      SetBit(out, dst + i, 1);
    } else {
      AlreadyClear(before, dst, x, i, Unpack(out[..]));
    }
  }

  ghost predicate Clear(b: BitString, lo: nat, hi: nat) {
    lo <= hi <= |b| && forall i :: lo <= i < hi ==> !b[i]
  }

  lemma AlreadyClear(b: BitString, at: nat, x: BitString, i: nat, now: BitString)
    requires Laid(now, b, at, x, i) && i < |x| && Clear(b, at, at + |x|)
    ensures !x[i] ==> Laid(now, b, at, x, i + 1)
  {
    if !x[i] {
      assert x[..i + 1] == x[..i] + [false];
      assert Spliced(b, at, x[..i + 1]) == Spliced(b, at, x[..i]);
    }
  }

  /** (s[i >> 3] >> (7 - (i & 7))) & 1. */
  method BitOf(s: seq<Byte>, i: nat) returns (bit: bool)
    requires i < 8 * |s|
    ensures bit == Unpack(s)[i]
  {
    var k, off := i / 8, i % 8;
    UnpackByte(s, k);
    FieldBits(s[k], 8, 7 - off, 1);
    var c := Field(s[k], 7 - off, 1);
    assert Unpack(s)[8 * k..8 * k + 8][off] == Unpack(s)[8 * k + off];
    BitIsOne(c, ToBits(s[k], 8), off);
    bit := c == 1;
  }

  lemma BitIsOne(c: nat, b: BitString, off: nat)
    requires off < |b| && Fits(c, 1) && ToBits(c, 1) == b[off..off + 1]
    ensures (c == 1) == b[off]
  {
    OneBitField(c);
    assert b[off..off + 1][0] == b[off];
  }

  /** prepend_mle_disc_mm. */
  method Prepend(mm: seq<Byte>, len: nat, out: array<Byte>, capBits: nat) returns (rc: int, outLen: nat)
    requires len <= 8 * |mm| && capBits <= 8 * out.Length
    modifies out
    ensures rc == if 3 + len > capBits then -ENOSPC else 0
    ensures rc != 0 ==> out[..] == old(out[..])
    ensures rc == 0 ==> outLen == 3 + len && Unpack(out[..])[..outLen] == ToBits(DISC_MM, 3) + Unpack(mm)[..len]
  {
    outLen := 0;
    if 3 + len > capBits {
      return -ENOSPC, 0;
    }
    var used := (capBits + 7) / 8;
    Zero(out, used);
    out[0] := 32;
    FirstByte(out[..], used);
    CopyBits(mm, 0, len, out, 3);
    rc, outLen := 0, 3 + len;
  }

  /** The byte 1 << 5 spells the discriminator 001 and leaves the rest clear. */
  lemma FirstByte(s: seq<Byte>, n: nat)
    requires 1 <= n <= |s| && s[0] == 32 && forall i :: 1 <= i < n ==> s[i] == 0
    ensures Unpack(s)[..3] == ToBits(DISC_MM, 3) && Clear(Unpack(s), 3, 8 * n)
  {
    var z := s[0 := 0];
    ZeroBits(z, n);
    UnpackUpdate(z, 0, 32);
    assert z[0 := 32] == s;
    Byte32();
    FirstOf(Unpack(z), ToBits(32, 8), 8 * n);
  }

  lemma Byte32()
    ensures ToBits(32, 8) == ToBits(DISC_MM, 3) + Zeros(5)
  {
    ToBitsSplit(32, 3, 5);
    ShiftFive(32);
    LowFive(32);
  }

  lemma FirstOf(b: BitString, x: BitString, n: nat)
    requires |x| == 8 <= n <= |b| && Clear(b, 0, n) && x == x[..3] + Zeros(5)
    ensures Spliced(b, 0, x)[..3] == x[..3] && Clear(Spliced(b, 0, x), 3, n)
  {
    forall i | 3 <= i < n ensures !Spliced(b, 0, x)[i] {
      if i < 8 { assert x[i] == (x[..3] + Zeros(5))[i]; }
    }
  }

  lemma ShiftFive(v: nat)
    ensures Shr(v, 5) == v / 32
  {
    assert Shr(v, 5) == Shr(v / 2, 4) && Shr(v / 2, 4) == Shr(v / 4, 3) && Shr(v / 4, 3) == Shr(v / 8, 2);
    assert Shr(v / 8, 2) == Shr(v / 16, 1) && Shr(v / 16, 1) == Shr(v / 32, 0);
  }

  lemma LowFive(v: nat)
    requires v % 32 == 0
    ensures ToBits(v, 5) == Zeros(5)
  {
    assert ToBits(v, 5) == ToBits(v / 2, 4) + [v % 2 == 1];
    assert ToBits(v / 2, 4) == ToBits(v / 4, 3) + [v / 2 % 2 == 1];
    assert ToBits(v / 4, 3) == ToBits(v / 8, 2) + [v / 4 % 2 == 1];
    assert ToBits(v / 8, 2) == ToBits(v / 16, 1) + [v / 8 % 2 == 1];
    assert ToBits(v / 16, 1) == ToBits(v / 32, 0) + [v / 16 % 2 == 1];
  }

  /** strip_mle_pd on a body of len bits.  The discriminator is given out as soon as its bits
      are there, also when the rest then does not fit. */
  method Strip(body: seq<Byte>, len: nat, out: array<Byte>, capBits: nat) returns (rc: int, disc: nat, outLen: nat)
    requires len <= 8 * |body| && capBits <= 8 * out.Length
    modifies out
    ensures rc == if len < 3 then -EPROTO else if len - 3 > capBits then -ENOSPC else 0
    ensures rc != 0 ==> out[..] == old(out[..])
    ensures len >= 3 ==> ToBits(disc, 3) == Unpack(body)[..3] && Fits(disc, 3)
    ensures rc == 0 ==> outLen == len - 3 && Unpack(out[..])[..outLen] == Unpack(body)[3..len]
  {
    disc, outLen := 0, 0;
    if len < 3 {
      return -EPROTO, 0, 0;
    }
    UnpackByte(body, 0);
    FieldBits(body[0], 8, 5, 3);
    SliceOfSlice(Unpack(body), 0, 8, 0, 3);
    disc := Field(body[0], 5, 3);
    var rest := len - 3;
    if rest > capBits {
      return -ENOSPC, disc, 0;
    }
    var used := (capBits + 7) / 8;
    Zero(out, used);
    ZeroBits(out[..], used);
    CopyBits(body, 3, rest, out, 0);
    rc, outLen := 0, rest;
  }

  /** Stripping what was prepended gives the MM discriminator and the same body. */
  method StripUndoesPrepend(mm: seq<Byte>, len: nat, wire: array<Byte>, capBits: nat, out: array<Byte>, outCap: nat)
    returns (disc: nat, outLen: nat)
    requires len <= 8 * |mm| && 3 + len <= capBits <= 8 * wire.Length && len <= outCap <= 8 * out.Length && wire != out
    modifies wire, out
    ensures disc == DISC_MM && outLen == len && Unpack(out[..])[..len] == Unpack(mm)[..len]
  {
    var rc, n := Prepend(mm, len, wire, capBits);
    ghost var x, y := Unpack(wire[..]), Unpack(mm)[..len];
    rc, disc, outLen := Strip(wire[..], n, out, outCap);
    Halves(x, ToBits(DISC_MM, 3), y);
    SmallDisc();
    ToBitsInjective(disc, DISC_MM, 3);
  }

  lemma Halves(x: BitString, d: BitString, y: BitString)
    requires |d| == 3 && |x| >= 3 + |y| && x[..3 + |y|] == d + y
    ensures x[..3] == d && x[3..3 + |y|] == y
  {
    assert x[..3] == x[..3 + |y|][..3];
    assert x[3..3 + |y|] == x[..3 + |y|][3..];
  }

  lemma SmallDisc()
    ensures Fits(DISC_MM, 3)
  {
    FitsIsBound(DISC_MM, 3);
    assert Pow2(3) == 8;
  }

  /** The MM discriminator on the air. */
  lemma DiscBits()
    ensures ToBits(DISC_MM, 3) == [false, false, true]
  {
    assert ToBits(1, 3) == ToBits(0, 2) + [true] && ToBits(0, 2) == ToBits(0, 1) + [false];
    ZeroWordBits(1);
  }
}
