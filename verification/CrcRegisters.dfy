/** The bit-serial CRC loops of the stack, each proved against the list register of
    module Crc.  A machine word is its bit string, highest bit first; shifting it left or
    right moves the string, and the two directions are written as the code writes them. */
module CrcRegisters {
  import opened Bits
  import opened Crc
  import opened CrcResidues

  const CCITT_POLY: BitString := [
    false, false, false, true, false, false, false, false, // 10
    false, false, true, false, false, false, false, true] // 21

  /** The CRC-16 generator. */
  function Poly16(): (p: BitString)
    ensures |p| == 16
  {
    CCITT_POLY
  }

  /** The LLC CRC-32 generator. */
  function Poly32(): (p: BitString)
    ensures |p| == 32
  {
    Reversed(CRC32_POLY)
  }

  /** The encoder's 0x1021 and the decoder's reflected 0x8408 are one generator. */
  lemma Generator16()
    ensures Poly16() == Reversed(CRC_DLL_POLY) && Generator(Poly16())
  {
  }

  /** crc = (crc << 1) ^ (poly if feedback), kept to the word's width. */
  function LeftStep(poly: BitString, crc: BitString, b: bool): BitString
    requires |crc| == |poly| > 0
  {
    var feedback := b != crc[0];
    Xor(crc[1..] + [false], if feedback then poly else Zeros(|poly|))
  }

  /** crc >>= 1; if (feedback) crc ^= poly. */
  function RightStep(poly: BitString, crc: BitString, b: bool): BitString
    requires |crc| == |poly| > 0
  {
    var feedback := b != crc[|crc| - 1];
    var shifted := [false] + crc[..|crc| - 1];
    if feedback then Xor(shifted, poly) else shifted
  }

  lemma LeftStepIsStep(poly: BitString, crc: BitString, b: bool)
    requires |crc| == |poly| > 0
    ensures LeftStep(poly, crc, b) == Step(poly, crc, b)
  {
  }

  lemma RightStepIsStep(poly: BitString, crc: BitString, b: bool)
    requires |crc| == |poly| > 0
    ensures |RightStep(poly, crc, b)| == |crc|
    ensures Reversed(RightStep(poly, crc, b)) == Step(Reversed(poly), Reversed(crc), b)
  {
    var n := |crc|;
    var shifted := [false] + crc[..n - 1];
    var s := Reversed(crc)[1..] + [false];
    assert Reversed(crc)[0] == crc[n - 1];
    assert Reversed(shifted) == s by {
      forall i | 0 <= i < n ensures Reversed(shifted)[i] == s[i] {}
    }
    ReversedXor(shifted, poly);
  }

  lemma ReversedXor(a: BitString, b: BitString)
    requires |a| == |b|
    ensures Reversed(Xor(a, b)) == Xor(Reversed(a), Reversed(b))
  {
  }

  lemma ReversedTwice(a: BitString)
    ensures Reversed(Reversed(a)) == a
  {
  }

  /** crc16_ccitt of the encoder: the 16 checksum bits in sending order. */
  method Crc16Ccitt(bits: BitString) returns (r: BitString)
    ensures r == Checksum(Poly16(), bits)
  {
    var crc := Ones(16);
    for i := 0 to |bits|
      invariant crc == Feed(Poly16(), Ones(16), bits[..i])
    {
      FeedPrefix(Poly16(), Ones(16), bits, i);
      LeftStepIsStep(CCITT_POLY, crc, bits[i]);
      crc := LeftStep(CCITT_POLY, crc, bits[i]);
    }
    assert bits[..|bits|] == bits;
    r := Not(crc);
  }

  /** The reflected loop shared by both checks and by llc_crc32. */
  method ReflectedCrc(poly: BitString, bits: BitString) returns (crc: BitString)
    requires |poly| > 0
    ensures |crc| == |poly| && Reversed(crc) == Feed(Reversed(poly), Ones(|poly|), bits)
  {
    crc := Ones(|poly|);
    for i := 0 to |bits|
      invariant |crc| == |poly| && Reversed(crc) == Feed(Reversed(poly), Ones(|poly|), bits[..i])
    {
      FeedPrefix(Reversed(poly), Ones(|poly|), bits, i);
      RightStepIsStep(poly, crc, bits[i]);
      crc := RightStep(poly, crc, bits[i]);
    }
    assert bits[..|bits|] == bits;
  }

  /** crc16_check_dll of the decoder. */
  method Crc16CheckDll(bits: BitString) returns (ok: bool)
    ensures ok <==> Accepts(Poly16(), bits)
  {
    Generator16();
    Residue16();
    var crc := ReflectedCrc(CRC_DLL_POLY, bits);
    ReversedTwice(crc);
    ReversedTwice(CRC_DLL_GOOD);
    ok := crc == CRC_DLL_GOOD;
  }

  /** crc32_check_llc of the decoder. */
  method Crc32CheckLlc(bits: BitString) returns (ok: bool)
    ensures ok <==> Accepts(Poly32(), bits)
  {
    Residue32();
    var crc := ReflectedCrc(CRC32_POLY, bits);
    ReversedTwice(crc);
    ReversedTwice(CRC32_GOOD);
    ok := crc == CRC32_GOOD;
  }

  /** The receiver accepts m + t exactly when t is the encoder's checksum of m. */
  lemma Crc16AcceptsIffChecksum(m: BitString, t: BitString)
    requires |t| == 16
    ensures Accepts(Poly16(), m + t) <==> t == Checksum(Poly16(), m)
  {
    Generator16();
    AcceptsIffChecksum(Poly16(), m, t);
  }

  /** No codeword survives a nonzero error confined to 16 consecutive bits. */
  lemma Crc16RejectsBursts(m: BitString, e: BitString, lo: nat, hi: nat)
    requires |e| == |m| + 16 && ErrorWithin(e, lo, hi) && hi - lo <= 16
    ensures !Accepts(Poly16(), Xor(m + Checksum(Poly16(), m), e))
  {
    Generator16();
    Crc16AcceptsIffChecksum(m, Checksum(Poly16(), m));
    BurstIsRejected(Poly16(), m + Checksum(Poly16(), m), e, lo, hi);
  }
}
