/** One stop-and-wait endpoint: what sending, receiving and acknowledging do to it, and
    what the handler makes of the bits it is given. */
module LlcEndpoint {
  import opened Errno
  import opened Bits
  import opened WordFields
  import opened Crc
  import opened CrcRegisters
  import opened LlcPdu
  import opened LlcPduLaws

  /** Modulo-2 sequence numbers. */
  type Modulo2 = v: int | 0 <= v < 2

  function Flip(v: Modulo2): Modulo2 {
    1 - v
  }

  datatype Endpoint = Endpoint(id: int, inUse: bool, nsSend: Modulo2, nrExpected: Modulo2, awaitingAck: bool,
                               retxCount: nat, lastSent: Pdu)

  const TMA_SDU_MAX_BITS: nat := 512

  /** A zeroed PDU struct. */
  function Blank(): Pdu {
    Pdu(0, 0, 0, 0, seq(BODY_MAX_BYTES, _ => 0), 0, false)
  }

  function Fresh(id: int): Endpoint {
    Endpoint(id, true, 0, 0, false, 0, Blank())
  }

  // ----- Sending -----

  /** The PDU built by llc_send_bl_data: the bytes holding the body, then zeros. */
  function DataPdu(ns: Modulo2, body: seq<Byte>, len: nat): (p: Pdu)
    requires len <= 8 * BODY_MAX_BYTES && len <= 8 * |body|
    ensures WellFormed(p) && Encodable(p)
  {
    var n := BytesFor(len);
    Pdu(BL_DATA, 0, ns, len, body[..n] + seq(BODY_MAX_BYTES - n, _ => 0), 0, false)
  }

  function AckPdu(nr: Modulo2): (p: Pdu)
    ensures WellFormed(p) && Encodable(p)
  {
    Blank().(pduType := BL_ACK, nr := nr)
  }

  function AfterSend(ep: Endpoint, p: Pdu): Endpoint {
    ep.(lastSent := p, awaitingAck := true, retxCount := 0, nsSend := Flip(ep.nsSend))
  }

  // ----- Receiving -----

  predicate IsData(p: Pdu) {
    HasNs(p.pduType)
  }

  predicate IsAck(p: Pdu) {
    p.pduType == BL_ACK || p.pduType == BL_ACK + 4
  }

  predicate InSequence(ep: Endpoint, p: Pdu) {
    IsData(p) && p.ns == ep.nrExpected
  }

  /** In-sequence data and everything stateless go up. */
  predicate GoesUp(ep: Endpoint, p: Pdu) {
    InSequence(ep, p) || (!IsData(p) && !IsAck(p))
  }

  function AfterReceive(ep: Endpoint, p: Pdu): Endpoint {
    if IsData(p) then
      if p.ns == ep.nrExpected then ep.(nrExpected := Flip(ep.nrExpected)) else ep
    else if IsAck(p) && ep.awaitingAck && p.nr == ep.nsSend then ep.(awaitingAck := false, retxCount := 0)
    else ep
  }

  /** What the handler makes of an SDU before it looks at the endpoint. */
  datatype Verdict = Malformed(rc: int, unknownType: bool) | BadChecksum | Good(pdu: Pdu)

  function Overhead(t: nat): nat {
    HeaderLen(t) + if HasFcs(t) then 32 else 0
  }

  /** The length left for the body; type 8 has none. */
  function BodyLenOf(t: nat, len: nat): nat
    requires Overhead(t) <= len
  {
    if t == AL_SETUP then 0 else len - Overhead(t)
  }

  function Classify(sdu: BitString): Verdict {
    if |sdu| == 0 || |sdu| > TMA_SDU_MAX_BITS then Malformed(-EINVAL, false)
    else if |sdu| < 4 then Malformed(-EPROTO, false)
    else
      var t := FromBits(sdu[..4]);
      if !ValidType(t) then Malformed(-EPROTO, true)
      else if |sdu| < Overhead(t) || BodyLenOf(t, |sdu|) > 8 * BODY_MAX_BYTES then Malformed(-EPROTO, false)
      else
        var d := DecodeBits(sdu, Blank().(bodyLen := BodyLenOf(t, |sdu|)));
        if d.rc != 0 then Malformed(d.rc, false)
        else if HasFcs(d.pdu.pduType) && !d.pdu.fcsValid then BadChecksum
        else Good(d.pdu)
  }

  // ----- The two frames of the link, as bits -----

  function DataBits(ns: Modulo2, x: BitString): BitString {
    ToBits(BL_DATA, 4) + ToBits(ns, 1) + x
  }

  function AckBits(nr: Modulo2): BitString {
    ToBits(BL_ACK, 4) + ToBits(nr, 1)
  }

  lemma UnpackPrefix(s: seq<Byte>, n: nat, len: nat)
    requires n <= |s| && len <= 8 * n
    ensures Unpack(s)[..len] == Unpack(s[..n])[..len]
  {
    UnpackAppend(s[..n], s[n..]);
    assert s == s[..n] + s[n..];
    PrefixOf(Unpack(s[..n]), Unpack(s[n..]), len);
  }

  lemma PrefixOf(a: BitString, b: BitString, len: nat)
    requires len <= |a|
    ensures (a + b)[..len] == a[..len]
  {
  }

  lemma DataPduBits(ns: Modulo2, body: seq<Byte>, len: nat)
    requires len <= 8 * BODY_MAX_BYTES && len <= 8 * |body|
    ensures PduBits(DataPdu(ns, body, len)) == DataBits(ns, Unpack(body)[..len])
  {
    var n := BytesFor(len);
    var p := DataPdu(ns, body, len);
    UnpackPrefix(p.body, n, len);
    UnpackPrefix(body, n, len);
    assert p.body[..n] == body[..n];
    BasicBits(p);
  }

  lemma BasicBits(p: Pdu)
    requires WellFormed(p) && Encodable(p) && p.pduType == BL_DATA && p.ns < 2
    ensures PduBits(p) == DataBits(p.ns, BodyBits(p))
  {
  }

  lemma AckPduBits(nr: Modulo2)
    ensures PduBits(AckPdu(nr)) == AckBits(nr)
  {
  }

  lemma GoodParse(t: nat, c: BitString, n: nat)
    requires t < 4 && CoveredFor(c, t, n)
    ensures Classify(c).Good? && ParsedAs(Decoded(0, Classify(c).pdu, |c|), t, c, [], n)
  {
    TypeField(t);
    var want := Blank().(bodyLen := n);
    Parse(want, t, c, [], []);
    assert c + [] + [] == c;
    assert Overhead(t) + n == |c|;
  }

  /** The receiving handler recovers a data frame's sequence bit and body. */
  lemma DataIsUnderstood(ns: Modulo2, x: BitString)
    requires |x| <= 8 * BODY_MAX_BYTES
    ensures var v := Classify(DataBits(ns, x));
      v.Good? && IsData(v.pdu) && v.pdu.ns == ns && WellFormed(v.pdu) && v.pdu.bodyLen == |x| <= 8 * BODY_MAX_BYTES
      && Unpack(v.pdu.body)[..|x|] == x
  {
    var c := DataBits(ns, x);
    OneBitField(ns);
    assert c[..4] == ToBits(BL_DATA, 4) && c[5..] == x && c[4] == (ns == 1);
    GoodParse(BL_DATA, c, |x|);
  }

  lemma AckIsUnderstood(nr: Modulo2)
    ensures var v := Classify(AckBits(nr)); v.Good? && IsAck(v.pdu) && !IsData(v.pdu) && v.pdu.nr == nr
  {
    var c := AckBits(nr);
    OneBitField(nr);
    assert c[..4] == ToBits(BL_ACK, 4) && c[4] == (nr == 1);
    GoodParse(BL_ACK, c, 0);
  }

  // ----- What the checks before a PDU let through -----

  /** Header and checksum bits of each type, 0 to 8. */
  const OVERHEADS: seq<nat> := [6, 5, 4, 5, 38, 37, 36, 37, 4]

  lemma OverheadsAre(t: nat)
    requires ValidType(t)
    ensures Overhead(t) == OVERHEADS[t]
  {
  }

  /** Everything the encoder makes is let through, and is understood. */
  lemma ClassifyUndoesEncode(p: Pdu)
    requires WellFormed(p) && Encodable(p)
    ensures var v := Classify(PduBits(p));
      && v.Good? && v.pdu.pduType == p.pduType && v.pdu.bodyLen == p.bodyLen && WellFormed(v.pdu)
      && v.pdu.nr == (if HasNr(p.pduType) then p.nr % 2 else 0)
      && v.pdu.ns == (if HasNs(p.pduType) then p.ns % 2 else 0)
      && Unpack(v.pdu.body)[..p.bodyLen] == BodyBits(p)
  {
    var b := PduBits(p);
    OverheadsAre(p.pduType);
    EncodedLength(p);
    assert b + [] == b;
    DecodeUndoesEncode(p, Blank().(bodyLen := p.bodyLen), []);
    GoodWhenDecoded(b, p.pduType, p.bodyLen, DecodeBits(b, Blank().(bodyLen := p.bodyLen)));
  }

  lemma GoodWhenDecoded(b: BitString, t: nat, n: nat, d: Decoded)
    requires ValidType(t) && |b| == OVERHEADS[t] + n && FromBits(b[..4]) == t && n <= 8 * BODY_MAX_BYTES
    requires d == DecodeBits(b, Blank().(bodyLen := n)) && d.rc == 0 && d.pdu.pduType == t
    requires (HasFcs(t) ==> d.pdu.fcsValid) && (t == AL_SETUP ==> n == 0) && |b| <= 512
    ensures Classify(b) == Good(d.pdu)
  {
    OverheadsAre(t);
    assert BodyLenOf(t, |b|) == n;
  }

  lemma EncodedLength(p: Pdu)
    requires WellFormed(p) && Encodable(p)
    ensures |PduBits(p)| == Overhead(p.pduType) + p.bodyLen
    ensures FromBits(PduBits(p)[..4]) == p.pduType
  {
    TypeField(p.pduType);
    assert PduBits(p)[..4] == ToBits(p.pduType, 4);
  }

  /** The length a body would have, if the SDU can be a PDU of its type at all. */
  function RoomFor(sdu: BitString): int
    requires |sdu| >= 4
  {
    var t := FromBits(sdu[..4]);
    if t > 8 then -1 else if t == 8 then 0 else |sdu| - OVERHEADS[t]
  }

  /** Which SDUs are refused, and how: an empty or oversized one, an unknown type, a length that
      does not go with the type; the rest only for a checksum that is not that of what it covers. */
  lemma ClassifyRefuses(sdu: BitString)
    ensures Classify(sdu) == Malformed(-EINVAL, false) <==> |sdu| == 0 || |sdu| > 512
    ensures 1 <= |sdu| < 4 ==> Classify(sdu) == Malformed(-EPROTO, false)
    ensures 4 <= |sdu| <= 512 ==>
      && (Classify(sdu) == Malformed(-EPROTO, true) <==> FromBits(sdu[..4]) > 8)
      && (Classify(sdu) == Malformed(-EPROTO, false) <==>
            FromBits(sdu[..4]) <= 8 && (RoomFor(sdu) < 0 || RoomFor(sdu) > 256))
      && (Classify(sdu) == BadChecksum <==>
            4 <= FromBits(sdu[..4]) < 8 && 0 <= RoomFor(sdu) <= 256
            && sdu[|sdu| - 32..] != Reversed(Checksum(Poly32(), sdu[..|sdu| - 32])))
  {
    if 4 <= |sdu| <= 512 && ValidType(FromBits(sdu[..4])) {
      OverheadsAre(FromBits(sdu[..4]));
      if 0 <= RoomFor(sdu) <= 256 {
        LetThrough(sdu);
      }
    }
  }

  lemma LetThrough(sdu: BitString)
    requires 4 <= |sdu| <= 512 && ValidType(FromBits(sdu[..4])) && 0 <= RoomFor(sdu) <= 256
    ensures Classify(sdu).Good? || Classify(sdu).BadChecksum?
    ensures Classify(sdu).BadChecksum? <==>
      HasFcs(FromBits(sdu[..4])) && sdu[|sdu| - 32..] != Fcs(sdu[..|sdu| - 32])
  {
    var t := FromBits(sdu[..4]);
    OverheadsAre(t);
    ToFromBits(sdu[..4]);
    if t != AL_SETUP {
      var n := |sdu| - OVERHEADS[t];
      var c, w, rest := FrameParts(sdu, t, n);
      WholeFrame(sdu, c, w, rest);
      PartsDecide(sdu, t, n, c, w);
    }
  }

  lemma WholeFrame(sdu: BitString, c: BitString, w: BitString, rest: BitString)
    requires sdu == c + w + rest && |c| + |w| == |sdu|
    ensures sdu == c + w && sdu[..|sdu| - |w|] == c && sdu[|sdu| - |w|..] == w
  {
  }

  lemma PartsDecide(sdu: BitString, t: nat, n: nat, c: BitString, w: BitString)
    requires CoveredFor(c, t, n) && |w| == (if HasFcs(t) then 32 else 0) && sdu == c + w && |sdu| <= 512
    requires FromBits(sdu[..4]) == t && |sdu| == Overhead(t) + n
    ensures if HasFcs(t) && w != Fcs(c) then Classify(sdu).BadChecksum? else Classify(sdu).Good?
  {
    Parse(Blank().(bodyLen := n), t, c, w, []);
    assert c + w + [] == sdu;
  }
}
