/** What bit errors in an LLC frame the receiver's checksum test finds.  The checksum is sent
    high bit first, which is the reverse of the order the register shifts in, so the frame as
    sent is no codeword of the cyclic code and bursts across its boundary can pass. */
module LlcErrors {
  import opened Bits
  import opened Crc
  import opened CrcRegisters
  import opened LlcPdu
  import opened LlcPduLaws

  // ----- Every error -----

  /** What an error e on the covered bits does to their checksum, as a word. */
  function Syndrome(e: BitString): (s: BitString)
    ensures |s| == 32
  {
    Reversed(Feed(Poly32(), Zeros(32), e))
  }

  lemma NotOfXor(a: BitString, b: BitString)
    requires |a| == |b|
    ensures Not(Xor(a, b)) == Xor(Not(a), b)
  {
  }

  /** The checksum is affine in the bits it covers. */
  lemma FcsOfError(m: BitString, e: BitString)
    requires |m| == |e|
    ensures Fcs(Xor(m, e)) == Xor(Fcs(m), Syndrome(e))
  {
    var r, g := Feed(Poly32(), Ones(32), m), Feed(Poly32(), Zeros(32), e);
    XorZeros(Ones(32));
    FeedLinear(Poly32(), Ones(32), Zeros(32), m, e);
    NotOfXor(r, g);
    ReversedXor(Not(r), g);
  }

  lemma XorCancels(w: BitString, f: BitString, g: BitString)
    requires |w| == |f| == |g|
    ensures Xor(w, f) == Xor(w, g) <==> f == g
  {
    if Xor(w, f) == Xor(w, g) {
      forall i | 0 <= i < |f| ensures f[i] == g[i] { assert Xor(w, f)[i] == Xor(w, g)[i]; }
    }
  }

  /** The frame of p as received with the errors e on its covered bits and f on its checksum. */
  function Hit(p: Pdu, e: BitString, f: BitString): BitString
    requires WellFormed(p) && Encodable(p) && |e| == |Covered(p)| && |f| == 32
  {
    Xor(Covered(p), e) + Xor(Fcs(Covered(p)), f)
  }

  /** Every error that leaves the type alone is decoded, and passes the checksum test exactly
      when the error on the checksum is the syndrome of the error before it. */
  lemma ErrorPassesIff(p: Pdu, want: Pdu, e: BitString, f: BitString, rest: BitString)
    requires WellFormed(p) && Encodable(p) && HasFcs(p.pduType) && WellFormed(want) && want.bodyLen == p.bodyLen
    requires |e| == |Covered(p)| && |f| == 32 && forall i :: 0 <= i < 4 && i < |e| ==> !e[i]
    ensures var d := DecodeBits(Hit(p, e, f) + rest, want);
      d.rc == 0 && d.pdu.pduType == p.pduType && (d.pdu.fcsValid <==> f == Syndrome(e))
  {
    var c, w := Xor(Covered(p), e), Xor(Fcs(Covered(p)), f);
    CoveredShape(p);
    assert c[..4] == Covered(p)[..4];
    Parse(want, p.pduType, c, w, rest);
    FcsOfError(Covered(p), e);
    XorCancels(Fcs(Covered(p)), f, Syndrome(e));
  }

  // ----- Bursts on one side of the boundary are found -----

  lemma ReversedNonzero(r: BitString)
    requires r != Zeros(|r|)
    ensures Reversed(r) != Zeros(|r|)
  {
    var i :| 0 <= i < |r| && r[i];
    assert Reversed(r)[|r| - 1 - i];
  }

  lemma SyndromeOfNothing(n: nat)
    ensures Syndrome(Zeros(n)) == Zeros(32)
  {
    FeedZeros(Poly32(), Zeros(32), n);
    ShiftsZero(Poly32(), n);
    assert Reversed(Zeros(32)) == Zeros(32);
  }

  lemma SyndromeOfBurst(e: BitString, lo: nat, hi: nat)
    requires ErrorWithin(e, lo, hi) && hi - lo <= 32
    ensures Syndrome(e) != Zeros(32)
  {
    Generator32();
    BurstNeverVanishes(Poly32(), e, lo, hi);
    ReversedNonzero(Feed(Poly32(), Zeros(32), e));
  }

  /** An error confined to lo .. hi of e + f is one of e when hi does not pass the boundary,
      and one of f when lo does not lie before it. */
  lemma BurstInFront(e: BitString, f: BitString, lo: nat, hi: nat)
    requires ErrorWithin(e + f, lo, hi) && hi <= |e|
    ensures ErrorWithin(e, lo, hi) && f == Zeros(|f|)
  {
    forall i | 0 <= i < |f| ensures !f[i] { assert (e + f)[|e| + i] == f[i]; }
    var i :| 0 <= i < |e + f| && (e + f)[i];
    assert e[i];
    forall i | 0 <= i < |e| && e[i] ensures lo <= i < hi { assert (e + f)[i]; }
  }

  lemma BurstBehind(e: BitString, f: BitString, lo: nat, hi: nat)
    requires ErrorWithin(e + f, lo, hi) && |e| <= lo
    ensures e == Zeros(|e|) && f != Zeros(|f|)
  {
    forall i | 0 <= i < |e| ensures !e[i] { assert (e + f)[i] == e[i]; }
    var i :| 0 <= i < |e + f| && (e + f)[i];
    assert f[i - |e|];
  }

  /** Any error confined to 32 consecutive bits after the type, all on one side of the boundary
      between covered bits and checksum, is decoded with fcs_valid false. */
  lemma BurstIsDetected(p: Pdu, want: Pdu, e: BitString, f: BitString, lo: nat, hi: nat, rest: BitString)
    requires WellFormed(p) && Encodable(p) && HasFcs(p.pduType) && WellFormed(want) && want.bodyLen == p.bodyLen
    requires |e| == |Covered(p)| && |f| == 32 && ErrorWithin(e + f, lo, hi) && 4 <= lo && hi - lo <= 32
    requires hi <= |e| || |e| <= lo
    ensures var d := DecodeBits(Hit(p, e, f) + rest, want);
      d.rc == 0 && d.pdu.pduType == p.pduType && !d.pdu.fcsValid
  {
    forall i | 0 <= i < 4 && i < |e| ensures !e[i] { assert (e + f)[i] == e[i]; }
    ErrorPassesIff(p, want, e, f, rest);
    if hi <= |e| {
      BurstInFront(e, f, lo, hi);
      SyndromeOfBurst(e, lo, hi);
    } else {
      BurstBehind(e, f, lo, hi);
      SyndromeOfNothing(|e|);
    }
  }

  // ----- Bursts across the boundary can pass -----

  /** A single error on the last covered bit has the generator as its syndrome. */
  lemma SyndromeOfLast(n: nat)
    ensures Syndrome(Zeros(n) + [true]) == Reversed(Poly32())
  {
    var z := Zeros(32);
    FeedAppend(Poly32(), z, Zeros(n), [true]);
    FeedZeros(Poly32(), z, n);
    ShiftsZero(Poly32(), n);
    StepFromZero();
    assert Feed(Poly32(), z, [true]) == Feed(Poly32(), Step(Poly32(), z, true), []);
  }

  lemma StepFromZero()
    ensures Step(Poly32(), Zeros(32), true) == Poly32()
  {
    XorFromZero(Poly32());
  }

  lemma XorFromZero(p: BitString)
    requires |p| == 32
    ensures Xor(Zeros(32)[1..] + [false], p) == p
  {
  }

  lemma BoundaryBurst(e: BitString, f: BitString)
    requires e != [] && e == Zeros(|e| - 1) + [true] && f == Reversed(Poly32())
    ensures ErrorWithin(e + f, |e| - 1, |e| + 27)
  {
    var n := |e|;
    assert (e + f)[n - 1];
    forall i | n + 27 <= i < n + 32 ensures !(e + f)[i] {
      LowTaps(31 - (i - n));
      assert (e + f)[i] == f[i - n];
    }
  }

  /** In every frame with a checksum and anything after the type, one burst of 28 bits passes:
      flip the last covered bit and xor the reversed generator onto the checksum. */
  lemma BoundaryBurstPasses(p: Pdu, want: Pdu, rest: BitString)
    requires WellFormed(p) && Encodable(p) && HasFcs(p.pduType) && WellFormed(want) && want.bodyLen == p.bodyLen
    requires |Covered(p)| > 4
    ensures var n := |Covered(p)|; var e, f := Zeros(n - 1) + [true], Reversed(Poly32());
      && ErrorWithin(e + f, n - 1, n + 27)
      && (var d := DecodeBits(Hit(p, e, f) + rest, want); d.rc == 0 && d.pdu.fcsValid)
  {
    var n := |Covered(p)|;
    var e, f := Zeros(n - 1) + [true], Reversed(Poly32());
    BoundaryBurst(e, f);
    SyndromeOfLast(n - 1);
    ErrorPassesIff(p, want, e, f, rest);
  }
}
