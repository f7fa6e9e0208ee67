/** What the codec guarantees: decoding undoes encoding and encoding decoding, and when the
    residue test of the decoder script accepts a frame. */
module LlcPduLaws {
  import opened Bits
  import opened Errno
  import opened WordFields
  import opened Crc
  import opened CrcRegisters
  import opened LlcPdu

  lemma UnpackPush(s: seq<Byte>, v: Byte)
    ensures Unpack(s + [v]) == Unpack(s) + ToBits(v, 8)
  {
    assert (s + [v])[..|s|] == s;
  }

  lemma JoinTwice(a: BitString, b: BitString, c: BitString)
    ensures (a + b) + c == a + (b + c)
  {
  }

  lemma {:induction false} UnpackAppend(s: seq<Byte>, t: seq<Byte>)
    ensures Unpack(s + t) == Unpack(s) + Unpack(t)
    decreases |t|
  {
    if t == [] {
      assert s + t == s;
    } else {
      var front, last := t[..|t| - 1], t[|t| - 1];
      UnpackAppend(s, front);
      assert s + t == (s + front) + [last] && t == front + [last];
      UnpackPush(s + front, last);
      UnpackPush(front, last);
      JoinTwice(Unpack(s), Unpack(front), ToBits(last, 8));
    }
  }

  lemma FilledBodyBits(body: seq<Byte>, x: BitString)
    requires |x| <= 8 * |body|
    ensures Unpack(FilledBody(body, x))[..|x|] == x
  {
    var full := BytesFor(|x|);
    var y := x + Zeros(8 * full - |x|);
    UnpackPack(y, full);
    UnpackAppend(Pack(y, full), body[full..]);
    assert (y + Unpack(body[full..]))[..|x|] == x;
  }

  // ----- The layout of every type -----

  /** The control bits of each basic type: both numbers, the send number, none, the received
      number.  The same types four higher have a checksum behind; type 8 is its bare number. */
  function Layout(p: Pdu): BitString
    requires WellFormed(p) && Encodable(p)
  {
    var t, nr, ns := ToBits(p.pduType, 4), ToBits(p.nr, 1), ToBits(p.ns, 1);
    match p.pduType % 4
    case 1 => t + ns + BodyBits(p)
    case 2 => t + BodyBits(p)
    case 3 => t + nr + BodyBits(p)
    case _ => if p.pduType == 8 then t else t + nr + ns + BodyBits(p)
  }

  lemma NoFlags(t: BitString, x: BitString)
    ensures t + [] == t && t + [] + x == t + x && t + [] + [] == t
  {
  }

  lemma CoveredLayout(p: Pdu)
    requires WellFormed(p) && Encodable(p)
    ensures Covered(p) == Layout(p)
  {
    var t, nr, ns := ToBits(p.pduType, 4), ToBits(p.nr, 1), ToBits(p.ns, 1);
    NoFlags(t, ns);
    NoFlags(t + nr, ns);
    if p.pduType == 8 {
      assert BodyBits(p) == [];
    }
  }

  /** What is sent for a PDU of each type. */
  lemma LayoutOf(p: Pdu)
    requires WellFormed(p) && Encodable(p)
    ensures PduBits(p) == Layout(p) + if 4 <= p.pduType < 8 then Reversed(Checksum(Poly32(), Layout(p))) else []
  {
    CoveredLayout(p);
  }

  // ----- Parsing -----

  lemma Parts(c: BitString, w: BitString, rest: BitString, h: nat)
    requires h <= |c|
    ensures (c + w + rest)[h..|c|] == c[h..]
    ensures (c + w + rest)[..|c|] == c
    ensures (c + w + rest)[|c|..|c| + |w|] == w
  {
  }

  /** c is a covered part for type t: the type field, its control bits and n body bits. */
  ghost predicate CoveredFor(c: BitString, t: nat, n: nat) {
    ValidType(t) && t != AL_SETUP && n <= 8 * BODY_MAX_BYTES && |c| == HeaderLen(t) + n && c[..4] == ToBits(t, 4)
  }

  lemma TypeField(t: nat)
    requires ValidType(t)
    ensures FromBits(ToBits(t, 4)) == t
  {
    assert Fits(t, 4) by {
      assert Shr(t, 4) == Shr(t / 2, 3) && Shr(t / 2, 3) == Shr(t / 4, 2) && Shr(t / 4, 2) == Shr(t / 8, 1);
      assert Shr(t / 8, 1) == Shr(t / 16, 0);
    }
    FromToBits(t, 4);
  }

  /** What the decoder reports for a covered part c, whatever checksum word w follows. */
  ghost predicate ParsedAs(d: Decoded, t: nat, c: BitString, w: BitString, n: nat) {
    && d.rc == 0 && d.used == |c| + |w| && WellFormed(d.pdu) && |c| >= HeaderLen(t)
    && d.pdu.pduType == t && d.pdu.bodyLen == n
    && d.pdu.nr == (if HasNr(t) then Bit(c[4]) else 0)
    && d.pdu.ns == (if HasNs(t) then Bit(c[HeaderLen(t) - 1]) else 0)
    && n <= 8 * BODY_MAX_BYTES && Unpack(d.pdu.body)[..n] == c[HeaderLen(t)..]
    && d.pdu.fcs == FromBits(w)
    && (d.pdu.fcsValid <==> HasFcs(t) && w == Fcs(c))
  }

  lemma ParseBody(b: BitString, p: Pdu, c: BitString, w: BitString, rest: BitString)
    requires WellFormed(p) && CoveredFor(c, p.pduType, p.bodyLen) && b == c + w + rest
    requires |w| == (if HasFcs(p.pduType) then 32 else 0)
    requires p.nr == (if HasNr(p.pduType) then Bit(c[4]) else 0)
    requires p.ns == (if HasNs(p.pduType) then Bit(c[HeaderLen(p.pduType) - 1]) else 0)
    requires p.fcs == 0 && !p.fcsValid
    ensures ParsedAs(DecodeBody(b, p, HeaderLen(p.pduType)), p.pduType, c, w, p.bodyLen)
  {
    var h := HeaderLen(p.pduType);
    Parts(c, w, rest, h);
    FilledBodyBits(p.body, c[h..]);
    var q := p.(body := FilledBody(p.body, c[h..]));
    BodyThenFcs(b, p, h, |c|);
    ParseFcs(b, q, c, w);
  }

  lemma ParseFcs(b: BitString, p: Pdu, c: BitString, w: BitString)
    requires |c| + |w| <= |b| && b[..|c|] == c && b[|c|..|c| + |w|] == w
    requires |w| == (if HasFcs(p.pduType) then 32 else 0) && p.fcs == 0 && !p.fcsValid
    ensures var d := DecodeFcs(b, p, |c|);
      && d.rc == 0 && d.used == |c| + |w|
      && d.pdu == p.(fcs := FromBits(w), fcsValid := HasFcs(p.pduType) && w == Fcs(c))
  {
  }

  lemma ParseControl(b: BitString, p: Pdu, c: BitString, w: BitString, rest: BitString)
    requires WellFormed(p) && CoveredFor(c, p.pduType, p.bodyLen) && b == c + w + rest
    requires |w| == (if HasFcs(p.pduType) then 32 else 0)
    requires p.nr == 0 && p.ns == 0 && p.fcs == 0 && !p.fcsValid
    ensures ParsedAs(DecodeControl(b, p), p.pduType, c, w, p.bodyLen)
  {
    var t, h := p.pduType, HeaderLen(p.pduType);
    var nr := if HasNr(t) then Bit(c[4]) else 0;
    var ns := if HasNs(t) then Bit(c[h - 1]) else 0;
    assert HasNr(t) ==> b[4] == c[4];
    assert HasNs(t) ==> b[h - 1] == c[h - 1];
    ParseBody(b, p.(nr := nr, ns := ns), c, w, rest);
  }

  lemma Parse(want: Pdu, t: nat, c: BitString, w: BitString, rest: BitString)
    requires WellFormed(want) && CoveredFor(c, t, want.bodyLen)
    requires |w| == (if HasFcs(t) then 32 else 0)
    ensures ParsedAs(DecodeBits(c + w + rest, want), t, c, w, want.bodyLen)
  {
    var b := c + w + rest;
    assert b[..4] == c[..4];
    TypeField(t);
    ParseControl(b, want.(pduType := t, nr := 0, ns := 0, fcs := 0, fcsValid := false), c, w, rest);
  }

  // ----- Round trip -----

  lemma CoveredShape(p: Pdu)
    requires WellFormed(p) && Encodable(p) && p.pduType != AL_SETUP
    ensures CoveredFor(Covered(p), p.pduType, p.bodyLen)
    ensures HasNr(p.pduType) ==> Bit(Covered(p)[4]) == p.nr % 2
    ensures HasNs(p.pduType) ==> Bit(Covered(p)[HeaderLen(p.pduType) - 1]) == p.ns % 2
    ensures Covered(p)[HeaderLen(p.pduType)..] == BodyBits(p)
  {
    OneBitField(p.nr);
    OneBitField(p.ns);
  }

  /** The receiver reads back the sender's type, control bits and body, consumes exactly
      the frame, and finds the checksum valid whenever the type carries one. */
  lemma DecodeUndoesEncode(p: Pdu, want: Pdu, rest: BitString)
    requires WellFormed(p) && Encodable(p) && WellFormed(want) && want.bodyLen == p.bodyLen
    ensures var d := DecodeBits(PduBits(p) + rest, want);
      && d.rc == 0 && d.used == |PduBits(p)|
      && d.pdu.pduType == p.pduType && d.pdu.bodyLen == p.bodyLen && WellFormed(d.pdu)
      && d.pdu.nr == (if HasNr(p.pduType) then p.nr % 2 else 0)
      && d.pdu.ns == (if HasNs(p.pduType) then p.ns % 2 else 0)
      && Unpack(d.pdu.body)[..p.bodyLen] == BodyBits(p)
      && (d.pdu.fcsValid <==> HasFcs(p.pduType))
  {
    if p.pduType == AL_SETUP {
      TypeField(AL_SETUP);
      assert (PduBits(p) + rest)[..4] == ToBits(AL_SETUP, 4);
    } else {
      CoveredShape(p);
      var w := if HasFcs(p.pduType) then Fcs(Covered(p)) else [];
      Parse(want, p.pduType, Covered(p), w, rest);
    }
  }

  // ----- The other round trip -----

  function FrameLen(t: nat, n: nat): nat {
    if t == AL_SETUP then 4 else HeaderLen(t) + n + (if HasFcs(t) then 32 else 0)
  }

  /** Decoding succeeds exactly when the caller's length is admissible, the type is known and
      all its bits are there. */
  lemma DecodeSucceedsIff(b: BitString, want: Pdu)
    requires WellFormed(want)
    ensures DecodeBits(b, want).rc == 0 <==>
      want.bodyLen <= 8 * BODY_MAX_BYTES && |b| >= 4 && ValidType(FromBits(b[..4]))
      && |b| >= FrameLen(FromBits(b[..4]), want.bodyLen)
  {
  }

  /** Where a failing decode leaves the cursor, and what it says: before the type field if the
      caller's length or the type's bits are at fault, otherwise before the first part that is not
      there in full; an unknown type is reported as such. */
  lemma FailureIs(b: BitString, want: Pdu)
    requires WellFormed(want) && DecodeBits(b, want).rc != 0
    ensures var d, n := DecodeBits(b, want), want.bodyLen;
      if n > 256 then d == Decoded(-EINVAL, want, 0)
      else if |b| < 4 then d == Decoded(-EPROTO, want, 0)
      else
        var t := FromBits(b[..4]);
        if t > 8 then d == Decoded(-EPROTO, want.(pduType := 255), 4)
        else
          var h := if t % 4 == 0 then 6 else if t % 4 == 2 then 4 else 5;
          d.rc == -EPROTO && d.pdu.pduType == t
          && d.used == if |b| < h then 4 else if |b| < h + n then h else h + n
  {
  }

  lemma HeaderRebuilt(c: BitString, t: nat, nr: nat, ns: nat)
    requires |c| >= HeaderLen(t) && c[..4] == ToBits(t, 4)
    requires nr == (if HasNr(t) then Bit(c[4]) else 0) && ns == (if HasNs(t) then Bit(c[HeaderLen(t) - 1]) else 0)
    ensures HeaderBits(t, nr, ns) == c[..HeaderLen(t)]
  {
    OneBitField(nr);
    OneBitField(ns);
  }

  lemma CoveredRebuilt(d: Decoded, t: nat, c: BitString, w: BitString, n: nat)
    requires CoveredFor(c, t, n) && ParsedAs(d, t, c, w, n)
    ensures Encodable(d.pdu) && Covered(d.pdu) == c
  {
    HeaderRebuilt(c, t, d.pdu.nr, d.pdu.ns);
    assert c == c[..HeaderLen(t)] + c[HeaderLen(t)..];
  }

  lemma FrameParts(b: BitString, t: nat, n: nat) returns (c: BitString, w: BitString, rest: BitString)
    requires ValidType(t) && t != AL_SETUP && n <= 8 * BODY_MAX_BYTES && |b| >= FrameLen(t, n) && b[..4] == ToBits(t, 4)
    ensures b == c + w + rest && CoveredFor(c, t, n) && |w| == if HasFcs(t) then 32 else 0
    ensures c + w == b[..FrameLen(t, n)]
  {
    var m, k := HeaderLen(t) + n, FrameLen(t, n);
    c, w, rest := b[..m], b[m..k], b[k..];
    SplitTwice(b, m, k);
    assert c[..4] == b[..4];
  }

  lemma SplitTwice(b: BitString, m: nat, k: nat)
    requires m <= k <= |b|
    ensures b == b[..m] + b[m..k] + b[k..] && b[..m] + b[m..k] == b[..k]
  {
  }

  /** Encoding what was decoded, when its checksum is valid or it has none, gives back exactly
      the bits consumed: no two accepted frames decode to the same PDU. */
  lemma EncodeUndoesDecode(b: BitString, want: Pdu)
    requires WellFormed(want) && DecodeBits(b, want).rc == 0
    requires var p := DecodeBits(b, want).pdu; HasFcs(p.pduType) ==> p.fcsValid
    ensures var d := DecodeBits(b, want);
      WellFormed(d.pdu) && Encodable(d.pdu) && d.used <= |b| && PduBits(d.pdu) == b[..d.used]
  {
    DecodeSucceedsIff(b, want);
    var t := FromBits(b[..4]);
    ToFromBits(b[..4]);
    if t != AL_SETUP {
      var c, w, rest := FrameParts(b, t, want.bodyLen);
      Parse(want, t, c, w, rest);
      CoveredRebuilt(DecodeBits(b, want), t, c, w, want.bodyLen);
    } else {
      WrapperRebuilt(b, want);
    }
  }

  lemma WrapperRebuilt(b: BitString, want: Pdu)
    requires WellFormed(want) && DecodeBits(b, want).rc == 0 && |b| >= 4 && b[..4] == ToBits(AL_SETUP, 4)
    ensures var d := DecodeBits(b, want);
      WellFormed(d.pdu) && Encodable(d.pdu) && d.used == 4 && PduBits(d.pdu) == b[..4]
  {
    TypeField(AL_SETUP);
  }

  // ----- The residue test -----

  lemma Generator32()
    ensures Generator(Poly32())
  {
  }

  /** crc32_check_llc accepts m + t exactly when t is the checksum word sent low bit first. */
  lemma Crc32AcceptsIffChecksum(m: BitString, t: BitString)
    requires |t| == 32
    ensures Accepts(Poly32(), m + t) <==> t == Reversed(Fcs(m))
  {
    Generator32();
    AcceptsIffChecksum(Poly32(), m, t);
    ReversedTwice(Checksum(Poly32(), m));
  }

  /** So a frame from the encoder passes it exactly when its checksum is a palindrome. */
  lemma ResidueTestIffPalindrome(p: Pdu)
    requires WellFormed(p) && Encodable(p) && HasFcs(p.pduType)
    ensures Accepts(Poly32(), PduBits(p)) <==> Reversed(Fcs(Covered(p))) == Fcs(Covered(p))
  {
    Crc32AcceptsIffChecksum(Covered(p), Fcs(Covered(p)));
  }

  lemma LowTaps(i: nat)
    requires i < 5
    ensures !Poly32()[i]
  {
  }

  lemma StepAt(poly: BitString, c: BitString, b: bool, i: nat)
    requires |c| == |poly| && i + 1 < |c| && !poly[i]
    ensures Step(poly, c, b)[i] == c[i + 1]
  {
  }

  /** The low five taps of the generator are off, so a register bit moves down unchanged. */
  lemma {:induction false} LowBitsMove(poly: BitString, c: BitString, m: BitString, j: nat)
    requires |c| == |poly| == 32 && j + |m| <= 5 && forall i :: 0 <= i < 5 ==> !poly[i]
    ensures Feed(poly, c, m)[j] == c[j + |m|]
    decreases |m|
  {
    if m != [] {
      LowBitsMove(poly, Step(poly, c, m[0]), m[1..], j);
      StepAt(poly, c, m[0], j + |m| - 1);
    }
  }

  /** The claim that the residue test holds for frames as sent fails on the shortest
      acknowledgement with a checksum. */
  lemma ShortAckFailsResidueTest(p: Pdu)
    requires WellFormed(p) && p.pduType == BL_ACK + 4 && p.nr == 1 && p.bodyLen == 0
    ensures !Accepts(Poly32(), PduBits(p))
  {
    var m, t := Covered(p), ToBits(7, 4);
    OneBitField(1);
    assert m == t + [true];
    assert m[..4] == t && m[..5] == m;
    FeedPrefix(Poly32(), Ones(32), m, 4);
    forall i | 0 <= i < 5 ensures !Poly32()[i] { LowTaps(i); }
    LowBitsMove(Poly32(), Ones(32), t, 0);
    LowBitsMove(Poly32(), Ones(32), m, 0);
    var r := Feed(Poly32(), Ones(32), m);
    assert r[0] && !r[31];
    assert Fcs(m)[31] == !r[0] && Fcs(m)[0] == !r[31];
    ResidueTestIffPalindrome(p);
  }
}
