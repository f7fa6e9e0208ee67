/** The residues the receivers compare with, computed from the generators.

    A list register is unfolded into a record of named bits, on which a fixed number of
    steps can be evaluated; each step of the record is tied back to the list's step. */
module CrcResidues {
  import opened Bits
  import opened Crc

  // Words of the code, highest bit first.
  const CRC_DLL_POLY: BitString := [
    true, false, false, false, false, true, false, false, // 84
    false, false, false, false, true, false, false, false] // 08
  const CRC_DLL_GOOD: BitString := [
    true, true, true, true, false, false, false, false, // F0
    true, false, true, true, true, false, false, false] // B8
  const CRC32_POLY: BitString := [
    true, true, true, false, true, true, false, true, // ED
    true, false, true, true, true, false, false, false, // B8
    true, false, false, false, false, false, true, true, // 83
    false, false, true, false, false, false, false, false] // 20
  const CRC32_GOOD: BitString := [
    true, true, false, true, true, true, true, false, // DE
    true, false, true, true, true, false, true, true, // BB
    false, false, true, false, false, false, false, false, // 20
    true, true, true, false, false, false, true, true] // E3

  /** s is the register c after one step on a zero input bit. */
  ghost predicate Shifted(p: BitString, c: BitString, s: BitString)
    requires |s| == |c| == |p| > 0
  {
    forall i :: 0 <= i < |c| ==> s[i] == ((i < |c| - 1 && c[i + 1]) != (c[0] && p[i]))
  }

  lemma ShiftAt(p: BitString, c: BitString)
    requires |c| == |p| > 0
    ensures Shifted(p, c, Shift(p, c))
  {
  }

  // ----- The 16-bit register -----

  datatype Reg16 = Reg16(
    b0: bool, b1: bool, b2: bool, b3: bool, b4: bool, b5: bool, b6: bool, b7: bool,
    b8: bool, b9: bool, b10: bool, b11: bool, b12: bool, b13: bool, b14: bool, b15: bool)

  function ToReg16(c: BitString): Reg16
    requires |c| == 16
  {
    Reg16(c[0], c[1], c[2], c[3], c[4], c[5], c[6], c[7],
          c[8], c[9], c[10], c[11], c[12], c[13], c[14], c[15])
  }

  predicate Taps16(p: BitString) {
    && |p| == 16
    && p[3] && p[10] && p[15]
    && !p[0] && !p[1] && !p[2] && !p[4] && !p[5] && !p[6] && !p[7] && !p[8] && !p[9]
    && !p[11] && !p[12] && !p[13] && !p[14]
  }

  function Next16(r: Reg16): Reg16 {
    var f := r.b0;
    Reg16(r.b1, r.b2, r.b3, r.b4 != f, r.b5, r.b6, r.b7, r.b8,
          r.b9, r.b10, r.b11 != f, r.b12, r.b13, r.b14, r.b15, f)
  }

  function Nexts16(r: Reg16, k: nat): Reg16
    decreases k
  {
    if k == 0 then r else Nexts16(Next16(r), k - 1)
  }

  lemma Next16IsShifted(p: BitString, c: BitString, s: BitString)
    requires Taps16(p) && |c| == |s| == 16 && Shifted(p, c, s)
    ensures ToReg16(s) == Next16(ToReg16(c))
  {
  }

  lemma Next16IsShift(p: BitString, c: BitString, r: Reg16) returns (d: BitString, s: Reg16)
    requires Taps16(p) && |c| == 16 && r == ToReg16(c)
    ensures d == Shift(p, c) && s == ToReg16(d) == Next16(r)
  {
    d := Shift(p, c);
    s := ToReg16(d);
    ShiftAt(p, c);
    Next16IsShifted(p, c, d);
  }

  lemma {:induction false} Nexts16AreShifts(p: BitString, c: BitString, r: Reg16, k: nat)
    requires Taps16(p) && |c| == 16 && r == ToReg16(c)
    ensures ToReg16(Shifts(p, c, k)) == Nexts16(r, k)
    decreases k
  {
    if k > 0 {
      var d, s := Next16IsShift(p, c, r);
      Nexts16AreShifts(p, d, s, k - 1);
    }
  }

  lemma Four16(r: Reg16, k: nat, s: Reg16)
    requires k >= 4 && Next16(Next16(Next16(Next16(r)))) == s
    ensures Nexts16(r, k) == Nexts16(s, k - 4)
  {
    var r1 := Next16(r);
    var r2 := Next16(r1);
    var r3 := Next16(r2);
    assert Nexts16(r, k) == Nexts16(r1, k - 1) == Nexts16(r2, k - 2);
    assert Nexts16(r2, k - 2) == Nexts16(r3, k - 3) == Nexts16(s, k - 4);
  }

  const START16 := Reg16(
    true, true, true, true, true, true, true, true, true, true, true, true, true, true, true, true)
  const RESIDUE16 := Reg16(
    false, false, false, true, true, true, false, true, false, false, false, false, true, true, true, true)

  const RUN16_1 := Reg16(
      false, false, false, false, true, true, true, false, false, false, false, true, true, true, true, true)

  const RUN16_2 := Reg16(
      true, true, true, false, false, false, false, true, true, true, true, true, false, false, false, false)

  const RUN16_3 := Reg16(
      true, true, true, true, true, true, true, false, true, true, false, false, true, true, true, false)

  lemma Run16Part1()
    ensures Nexts16(START16, 16) == Nexts16(RUN16_1, 12)
  {
    Four16(START16, 16, RUN16_1);
  }

  lemma Run16Part2()
    ensures Nexts16(RUN16_1, 12) == Nexts16(RUN16_2, 8)
  {
    Four16(RUN16_1, 12, RUN16_2);
  }

  lemma Run16Part3()
    ensures Nexts16(RUN16_2, 8) == Nexts16(RUN16_3, 4)
  {
    Four16(RUN16_2, 8, RUN16_3);
  }

  lemma Run16Part4()
    ensures Nexts16(RUN16_3, 4) == Nexts16(RESIDUE16, 0)
  {
    Four16(RUN16_3, 4, RESIDUE16);
  }

  lemma Run16()
    ensures Nexts16(START16, 16) == Nexts16(RESIDUE16, 0)
  {
    Run16Part1();
    Run16Part2();
    Run16Part3();
    Run16Part4();
  }

  lemma SameReg16(c: BitString, d: BitString, i: nat)
    requires |c| == |d| == 16 && ToReg16(c) == ToReg16(d) && i < 16
    ensures c[i] == d[i]
  {
    if i == 0 {} else if i == 1 {} else if i == 2 {} else if i == 3 {} else
    if i == 4 {} else if i == 5 {} else if i == 6 {} else if i == 7 {} else
    if i == 8 {} else if i == 9 {} else if i == 10 {} else if i == 11 {} else
    if i == 12 {} else if i == 13 {} else if i == 14 {} else if i == 15 {}
  }

  lemma PolyTaps16()
    ensures Taps16(Reversed(CRC_DLL_POLY))
  {
  }

  lemma Constants16()
    ensures ToReg16(Ones(16)) == START16 && ToReg16(Reversed(CRC_DLL_GOOD)) == RESIDUE16
  {
  }

  lemma SameList16(c: BitString, d: BitString)
    requires |c| == |d| == 16 && ToReg16(c) == ToReg16(d)
    ensures c == d
  {
    forall i | 0 <= i < 16 ensures c[i] == d[i] { SameReg16(c, d, i); }
  }

  lemma ResidueFrom16(p: BitString, c: BitString, d: BitString, r: Reg16, s: Reg16)
    requires Taps16(p) && |c| == |d| == 16 && r == ToReg16(c) && s == ToReg16(d) && Nexts16(r, 16) == s
    ensures Shifts(p, c, 16) == d
  {
    Nexts16AreShifts(p, c, r, 16);
    SameList16(Shifts(p, c, 16), d);
  }

  /** 16 steps of the generator from all ones leave the constant the receivers expect. */
  lemma Residue16()
    ensures Shifts(Reversed(CRC_DLL_POLY), Ones(16), 16) == Reversed(CRC_DLL_GOOD)
    ensures Generator(Reversed(CRC_DLL_POLY))
  {
    PolyTaps16();
    Constants16();
    Run16();
    ResidueFrom16(Reversed(CRC_DLL_POLY), Ones(16), Reversed(CRC_DLL_GOOD), START16, RESIDUE16);
  }

  // ----- The 32-bit register -----

  datatype Reg32 = Reg32(lo: Reg16, hi: Reg16)

  function ToReg32(c: BitString): Reg32
    requires |c| == 32
  {
    Reg32(
      Reg16(c[0], c[1], c[2], c[3], c[4], c[5], c[6], c[7],
            c[8], c[9], c[10], c[11], c[12], c[13], c[14], c[15]),
      Reg16(c[16], c[17], c[18], c[19], c[20], c[21], c[22], c[23],
            c[24], c[25], c[26], c[27], c[28], c[29], c[30], c[31]))
  }

  predicate Taps32(p: BitString) {
    && |p| == 32
    && p[5] && p[8] && p[9] && p[15] && p[19] && p[20] && p[21] && p[23] && p[24] && p[26] && p[27]
    && p[29] && p[30] && p[31]
    && !p[0] && !p[1] && !p[2] && !p[3] && !p[4] && !p[6] && !p[7] && !p[10] && !p[11]
    && !p[12] && !p[13] && !p[14] && !p[16] && !p[17] && !p[18] && !p[22] && !p[25] && !p[28]
  }

  function Next32(r: Reg32): Reg32 {
    var f := r.lo.b0;
    Reg32(
      Reg16(r.lo.b1, r.lo.b2, r.lo.b3, r.lo.b4, r.lo.b5, r.lo.b6 != f, r.lo.b7, r.lo.b8,
            r.lo.b9 != f, r.lo.b10 != f, r.lo.b11, r.lo.b12, r.lo.b13, r.lo.b14, r.lo.b15, r.hi.b0 != f),
      Reg16(r.hi.b1, r.hi.b2, r.hi.b3, r.hi.b4 != f, r.hi.b5 != f, r.hi.b6 != f, r.hi.b7, r.hi.b8 != f,
            r.hi.b9 != f, r.hi.b10, r.hi.b11 != f, r.hi.b12 != f, r.hi.b13, r.hi.b14 != f, r.hi.b15 != f, f))
  }

  function Nexts32(r: Reg32, k: nat): Reg32
    decreases k
  {
    if k == 0 then r else Nexts32(Next32(r), k - 1)
  }

  lemma Next32IsShifted(p: BitString, c: BitString, s: BitString)
    requires Taps32(p) && |c| == |s| == 32 && Shifted(p, c, s)
    ensures ToReg32(s) == Next32(ToReg32(c))
  {
  }

  lemma Next32IsShift(p: BitString, c: BitString, r: Reg32) returns (d: BitString, s: Reg32)
    requires Taps32(p) && |c| == 32 && r == ToReg32(c)
    ensures d == Shift(p, c) && s == ToReg32(d) == Next32(r)
  {
    d := Shift(p, c);
    s := ToReg32(d);
    ShiftAt(p, c);
    Next32IsShifted(p, c, d);
  }

  lemma {:induction false} Nexts32AreShifts(p: BitString, c: BitString, r: Reg32, k: nat)
    requires Taps32(p) && |c| == 32 && r == ToReg32(c)
    ensures ToReg32(Shifts(p, c, k)) == Nexts32(r, k)
    decreases k
  {
    if k > 0 {
      var d, s := Next32IsShift(p, c, r);
      Nexts32AreShifts(p, d, s, k - 1);
    }
  }

  lemma Four32(r: Reg32, k: nat, s: Reg32)
    requires k >= 4 && Next32(Next32(Next32(Next32(r)))) == s
    ensures Nexts32(r, k) == Nexts32(s, k - 4)
  {
    var r1 := Next32(r);
    var r2 := Next32(r1);
    var r3 := Next32(r2);
    assert Nexts32(r, k) == Nexts32(r1, k - 1) == Nexts32(r2, k - 2);
    assert Nexts32(r2, k - 2) == Nexts32(r3, k - 3) == Nexts32(s, k - 4);
  }

  const START32 := Reg32(
      Reg16(true, true, true, true, true, true, true, true, true, true, true, true, true, true, true, true),
      Reg16(true, true, true, true, true, true, true, true, true, true, true, true, true, true, true, true))
  const MIDDLE32 := Reg32(
      Reg16(false, false, false, false, false, false, false, false, true, false, true, true, false, true, true, true),
      Reg16(false, true, true, false, false, true, false, false, false, true, true, true, true, true, false, true))
  const RESIDUE32 := Reg32(
      Reg16(true, true, false, false, false, true, true, true, false, false, false, false, false, true, false, false),
      Reg16(true, true, false, true, true, true, false, true, false, true, true, true, true, false, true, true))

  const RUN32A_1 := Reg32(
      Reg16(true, true, false, false, false, true, true, true, true, false, true, true, false, false, false, false),
      Reg16(false, true, false, false, false, false, true, false, false, true, false, false, true, true, false, true))

  const RUN32A_2 := Reg32(
      Reg16(false, true, false, false, true, true, true, false, false, false, false, false, true, false, false, false),
      Reg16(true, false, true, true, true, true, true, true, true, false, true, true, false, true, false, false))

  const RUN32A_3 := Reg32(
      Reg16(true, true, true, true, false, false, true, true, true, false, false, false, true, true, true, true),
      Reg16(true, false, false, false, true, true, false, true, true, false, false, true, true, true, false, false))

  lemma Run32APart1()
    ensures Nexts32(START32, 32) == Nexts32(RUN32A_1, 28)
  {
    Four32(START32, 32, RUN32A_1);
  }

  lemma Run32APart2()
    ensures Nexts32(RUN32A_1, 28) == Nexts32(RUN32A_2, 24)
  {
    Four32(RUN32A_1, 28, RUN32A_2);
  }

  lemma Run32APart3()
    ensures Nexts32(RUN32A_2, 24) == Nexts32(RUN32A_3, 20)
  {
    Four32(RUN32A_2, 24, RUN32A_3);
  }

  lemma Run32APart4()
    ensures Nexts32(RUN32A_3, 20) == Nexts32(MIDDLE32, 16)
  {
    Four32(RUN32A_3, 20, MIDDLE32);
  }

  lemma Run32A()
    ensures Nexts32(START32, 32) == Nexts32(MIDDLE32, 16)
  {
    Run32APart1();
    Run32APart2();
    Run32APart3();
    Run32APart4();
  }

  const RUN32B_1 := Reg32(
      Reg16(false, false, false, false, true, false, true, true, false, true, true, true, false, true, true, false),
      Reg16(false, true, false, false, false, true, true, true, true, true, false, true, false, false, false, false))

  const RUN32B_2 := Reg32(
      Reg16(true, false, true, true, false, true, true, true, false, true, true, false, false, true, false, false),
      Reg16(false, true, true, true, true, true, false, true, false, false, false, false, false, false, false, false))

  const RUN32B_3 := Reg32(
      Reg16(false, true, false, true, true, true, false, true, false, false, false, false, true, true, false, false),
      Reg16(false, false, false, true, true, false, true, true, false, true, true, false, false, false, false, true))

  lemma Run32BPart1()
    ensures Nexts32(MIDDLE32, 16) == Nexts32(RUN32B_1, 12)
  {
    Four32(MIDDLE32, 16, RUN32B_1);
  }

  lemma Run32BPart2()
    ensures Nexts32(RUN32B_1, 12) == Nexts32(RUN32B_2, 8)
  {
    Four32(RUN32B_1, 12, RUN32B_2);
  }

  lemma Run32BPart3()
    ensures Nexts32(RUN32B_2, 8) == Nexts32(RUN32B_3, 4)
  {
    Four32(RUN32B_2, 8, RUN32B_3);
  }

  lemma Run32BPart4()
    ensures Nexts32(RUN32B_3, 4) == Nexts32(RESIDUE32, 0)
  {
    Four32(RUN32B_3, 4, RESIDUE32);
  }

  lemma Run32B()
    ensures Nexts32(MIDDLE32, 16) == Nexts32(RESIDUE32, 0)
  {
    Run32BPart1();
    Run32BPart2();
    Run32BPart3();
    Run32BPart4();
  }

  lemma SameReg32Low(c: BitString, d: BitString, i: nat)
    requires |c| == |d| == 32 && ToReg32(c) == ToReg32(d) && i < 16
    ensures c[i] == d[i]
  {
    if i == 0 {} else if i == 1 {} else if i == 2 {} else if i == 3 {} else
    if i == 4 {} else if i == 5 {} else if i == 6 {} else if i == 7 {} else
    if i == 8 {} else if i == 9 {} else if i == 10 {} else if i == 11 {} else
    if i == 12 {} else if i == 13 {} else if i == 14 {} else if i == 15 {}
  }

  lemma SameReg32High(c: BitString, d: BitString, i: nat)
    requires |c| == |d| == 32 && ToReg32(c) == ToReg32(d) && 16 <= i < 32
    ensures c[i] == d[i]
  {
    if i == 16 {} else if i == 17 {} else if i == 18 {} else if i == 19 {} else
    if i == 20 {} else if i == 21 {} else if i == 22 {} else if i == 23 {} else
    if i == 24 {} else if i == 25 {} else if i == 26 {} else if i == 27 {} else
    if i == 28 {} else if i == 29 {} else if i == 30 {} else if i == 31 {}
  }

  lemma PolyTaps32()
    ensures Taps32(Reversed(CRC32_POLY))
  {
  }

  lemma Constants32()
    ensures ToReg32(Ones(32)) == START32 && ToReg32(Reversed(CRC32_GOOD)) == RESIDUE32
  {
  }

  lemma SameList32(c: BitString, d: BitString)
    requires |c| == |d| == 32 && ToReg32(c) == ToReg32(d)
    ensures c == d
  {
    forall i | 0 <= i < 32 ensures c[i] == d[i] {
      if i < 16 { SameReg32Low(c, d, i); } else { SameReg32High(c, d, i); }
    }
  }

  lemma ResidueFrom32(p: BitString, c: BitString, d: BitString, r: Reg32, s: Reg32)
    requires Taps32(p) && |c| == |d| == 32 && r == ToReg32(c) && s == ToReg32(d) && Nexts32(r, 32) == s
    ensures Shifts(p, c, 32) == d
  {
    Nexts32AreShifts(p, c, r, 32);
    SameList32(Shifts(p, c, 32), d);
  }

  lemma Run32() returns (r: Reg32, s: Reg32)
    ensures r == START32 && s == RESIDUE32 && Nexts32(r, 32) == s
  {
    r, s := START32, RESIDUE32;
    Run32A();
    Run32B();
  }

  lemma Ends32(r: Reg32, s: Reg32)
    requires r == START32 && s == RESIDUE32
    ensures r == ToReg32(Ones(32)) && s == ToReg32(Reversed(CRC32_GOOD))
  {
    Constants32();
  }

  lemma Run32Between() returns (r: Reg32, s: Reg32)
    ensures r == ToReg32(Ones(32)) && s == ToReg32(Reversed(CRC32_GOOD)) && Nexts32(r, 32) == s
  {
    r, s := Run32();
    Ends32(r, s);
  }

  /** 32 steps of the generator from all ones leave the constant the receivers expect. */
  lemma Residue32()
    ensures Shifts(Reversed(CRC32_POLY), Ones(32), 32) == Reversed(CRC32_GOOD)
    ensures Generator(Reversed(CRC32_POLY))
  {
    PolyTaps32();
    var r, s := Run32Between();
    ResidueFrom32(Reversed(CRC32_POLY), Ones(32), Reversed(CRC32_GOOD), r, s);
  }
}
