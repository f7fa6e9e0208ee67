/** The LLC PDU codec: pdu_type, NR, NS, body and an optional CRC-32, written and read
    through the bit cursor, and the bit strings they stand for. */
module LlcPdu {
  import opened Errno
  import opened Bits
  import opened WordFields
  import opened BitBuffer
  import opened Crc
  import opened CrcResidues
  import opened CrcRegisters

  // ----- PDU types -----

  const BL_ADATA: nat := 0
  const BL_DATA: nat := 1
  const BL_ACK: nat := 3
  const AL_SETUP: nat := 8
  const UNKNOWN: nat := 255
  const BODY_MAX_BYTES: nat := 32

  predicate ValidType(t: nat) {
    t <= AL_SETUP
  }

  /** The types BL_ADATA + 4 .. BL_ACK + 4 carry a checksum. */
  predicate HasFcs(t: nat) {
    4 <= t < 8
  }

  predicate HasNr(t: nat) {
    t == BL_ADATA || t == BL_ADATA + 4 || t == BL_ACK || t == BL_ACK + 4
  }

  predicate HasNs(t: nat) {
    t == BL_ADATA || t == BL_ADATA + 4 || t == BL_DATA || t == BL_DATA + 4
  }

  datatype Pdu = Pdu(pduType: nat, nr: nat, ns: nat, bodyLen: nat, body: seq<Byte>, fcs: nat, fcsValid: bool)

  /** The struct's fixed array. */
  predicate WellFormed(p: Pdu) {
    |p.body| == BODY_MAX_BYTES
  }

  /** What llc_pdu_encode accepts. */
  predicate Encodable(p: Pdu) {
    ValidType(p.pduType) && p.bodyLen <= 8 * BODY_MAX_BYTES && (p.pduType == AL_SETUP ==> p.bodyLen == 0)
  }

  // ----- The bits of a PDU -----

  function Flag(present: bool, v: nat): BitString {
    if present then ToBits(v, 1) else []
  }

  function HeaderBits(t: nat, nr: nat, ns: nat): BitString {
    ToBits(t, 4) + Flag(HasNr(t), nr) + Flag(HasNs(t), ns)
  }

  function BodyBits(p: Pdu): (b: BitString)
    requires WellFormed(p) && Encodable(p)
    ensures |b| == p.bodyLen
  {
    Unpack(p.body)[..p.bodyLen]
  }

  /** The bits the checksum covers. */
  function Covered(p: Pdu): BitString
    requires WellFormed(p) && Encodable(p)
  {
    HeaderBits(p.pduType, p.nr, p.ns) + BodyBits(p)
  }

  /** The checksum word, highest bit first, which is the order it is written in. */
  function Fcs(m: BitString): (w: BitString)
    ensures |w| == 32
  {
    Reversed(Checksum(Poly32(), m))
  }

  function PduBits(p: Pdu): BitString
    requires WellFormed(p) && Encodable(p)
  {
    Covered(p) + if HasFcs(p.pduType) then Fcs(Covered(p)) else []
  }

  // ----- Writing -----

  /** crc32_over_bb_window, one bit of the buffer at a time. */
  method WindowCrc(bb: BitBuffer, lo: nat, hi: nat, ghost m: BitString) returns (word: BitString)
    requires lo <= hi <= 8 * bb.buffer.Length && m == bb.Contents()[lo..hi]
    ensures word == Fcs(m)
  {
    var crc := Ones(32);
    assert Reversed(crc) == Ones(32);
    for i := lo to hi
      invariant |crc| == 32 && Reversed(crc) == Feed(Poly32(), Ones(32), m[..i - lo])
    {
      var bit := BitAt(bb, i);
      assert m[i - lo] == bit;
      CrcStep(crc, m, i - lo);
      crc := RightStep(CRC32_POLY, crc, bit);
    }
    assert m[..hi - lo] == m;
    word := Not(crc);
    NotReversed(crc);
  }

  /** (buffer[i >> 3] >> (7 - (i & 7))) & 1. */
  method BitAt(bb: BitBuffer, i: nat) returns (bit: bool)
    requires i < 8 * bb.buffer.Length
    ensures bit == bb.Contents()[i]
  {
    var c := bb.ReadFragment(i / 8, i % 8, 1);
    OneBit(bb.Contents(), i, c);
    bit := c == 1;
  }

  lemma CrcStep(crc: BitString, m: BitString, i: nat)
    requires |crc| == 32 && i < |m| && Reversed(crc) == Feed(Poly32(), Ones(32), m[..i])
    ensures var c := RightStep(CRC32_POLY, crc, m[i]); |c| == 32 && Reversed(c) == Feed(Poly32(), Ones(32), m[..i + 1])
  {
    FeedPrefix(Poly32(), Ones(32), m, i);
    RightStepIsStep(CRC32_POLY, crc, m[i]);
  }

  /** llc_crc32 over a packed buffer is the same loop from bit 0. */
  method LlcCrc32(data: array<Byte>, lenBits: nat) returns (word: BitString)
    requires lenBits <= 8 * data.Length
    ensures word == Fcs(Unpack(data[..])[..lenBits])
  {
    var bb := new BitBuffer(data, lenBits);
    word := WindowCrc(bb, 0, lenBits, Unpack(data[..])[..lenBits]);
  }

  lemma OneBit(b: BitString, i: nat, c: nat)
    requires i < |b| && Reads(c, b, i, i + 1)
    ensures (c == 1) == b[i]
  {
    OneBitField(c);
    assert b[i..i + 1] == [b[i]];
  }

  lemma NotReversed(a: BitString)
    ensures Not(a) == Reversed(Not(Reversed(a)))
  {
  }

  /** One optional control bit. */
  method PutFlag(out: BitBuffer, present: bool, v: nat)
    requires out.Valid() && (present ==> out.HasRoom(1))
    modifies out, out.buffer
    ensures out.Valid() && out.View() == After(old(out.View()), Flag(present, v))
  {
    if present {
      LowField(v, 1);
      out.PutBits(Field(v, 0, 1), 1);
    } else {
      AfterNothing(out.View());
    }
  }

  method PutHeader(out: BitBuffer, p: Pdu)
    requires out.Valid() && out.HasRoom(|HeaderBits(p.pduType, p.nr, p.ns)|)
    modifies out, out.buffer
    ensures out.Valid() && out.View() == After(old(out.View()), HeaderBits(p.pduType, p.nr, p.ns))
  {
    ghost var c, t := out.View(), ToBits(p.pduType, 4);
    ghost var nr, ns := Flag(HasNr(p.pduType), p.nr), Flag(HasNs(p.pduType), p.ns);
    LowField(p.pduType, 4);
    out.PutBits(Field(p.pduType, 0, 4), 4);
    PutFlag(out, HasNr(p.pduType), p.nr);
    AfterTwice(c, t, nr);
    PutFlag(out, HasNs(p.pduType), p.ns);
    AfterTwice(c, t + nr, ns);
  }

  /** Continues a write of x by its bits at .. at + n. */
  method PutMore(out: BitBuffer, v: nat, n: nat, ghost c: Cursor, ghost x: BitString, ghost at: nat)
    requires out.Valid() && 1 <= n <= 32 && out.HasRoom(n) && at + n <= |x| && c.pos + at + n <= |c.bits|
    requires Fits(v, n) && ToBits(v, n) == x[at..at + n] && out.View() == After(c, x[..at])
    modifies out, out.buffer
    ensures out.Valid() && out.View() == After(c, x[..at + n])
  {
    PrefixGrows(x, at, n);
    AfterTwice(c, x[..at], x[at..at + n]);
    out.PutBits(v, n);
  }

  /** The whole bytes of put_body. */
  method PutBytes(out: BitBuffer, body: seq<Byte>, n: nat)
    requires out.Valid() && n <= |body| && out.HasRoom(8 * n)
    modifies out, out.buffer
    ensures out.Valid() && out.View() == After(old(out.View()), Unpack(body)[..8 * n])
  {
    ghost var c, x := out.View(), Unpack(body);
    AfterNothing(c);
    for k := 0 to n
      invariant out.Valid() && out.View() == After(c, x[..8 * k])
    {
      UnpackByte(body, k);
      ByteFits(body[k]);
      PutMore(out, body[k], 8, c, x, 8 * k);
    }
  }

  /** put_body. */
  method PutBody(out: BitBuffer, body: seq<Byte>, len: nat)
    requires out.Valid() && out.HasRoom(len) && len <= 8 * |body|
    modifies out, out.buffer
    ensures out.Valid() && out.View() == After(old(out.View()), Unpack(body)[..len])
  {
    var k, remaining := len / 8, len % 8;
    PutSplitBody(out, body, k, remaining);
    assert len == 8 * k + remaining;
  }

  method PutSplitBody(out: BitBuffer, body: seq<Byte>, k: nat, remaining: nat)
    requires out.Valid() && out.HasRoom(8 * k + remaining) && 8 * k + remaining <= 8 * |body| && remaining < 8
    modifies out, out.buffer
    ensures out.Valid() && out.View() == After(old(out.View()), Unpack(body)[..8 * k + remaining])
  {
    ghost var c, x := out.View(), Unpack(body);
    PutBytes(out, body, k);
    if remaining > 0 {
      PutTail(out, body, k, remaining, c, x);
    } else {
      assert 8 * k + remaining == 8 * k;
    }
  }

  method PutTail(out: BitBuffer, body: seq<Byte>, k: nat, remaining: nat, ghost c: Cursor, ghost x: BitString)
    requires out.Valid() && out.HasRoom(remaining) && k < |body| && 1 <= remaining < 8 && x == Unpack(body)
    requires c.pos + 8 * k + remaining <= |c.bits| && out.View() == After(c, x[..8 * k])
    modifies out, out.buffer
    ensures out.Valid() && out.View() == After(c, x[..8 * k + remaining])
  {
    FieldBits(body[k], 8, 8 - remaining, remaining);
    UnpackByte(body, k);
    SliceOfSlice(x, 8 * k, 8 * k + 8, 0, remaining);
    PutMore(out, Field(body[k], 8 - remaining, remaining), remaining, c, x, 8 * k);
  }

  lemma PrefixGrows(b: BitString, at: nat, n: nat)
    requires at + n <= |b|
    ensures b[..at + n] == b[..at] + b[at..at + n]
  {
  }

  method PutFcs(out: BitBuffer, lo: nat)
    requires out.Valid() && out.HasRoom(32) && lo <= out.pos
    modifies out, out.buffer
    ensures out.Valid() && out.View() == After(old(out.View()), Fcs(old(out.Contents())[lo..old(out.pos)]))
  {
    var fcs := WindowCrc(out, lo, out.pos, out.Contents()[lo..out.pos]);
    ToFromBits(fcs);
    out.PutBits(FromBits(fcs), 32);
  }

  /** llc_pdu_encode: the number of bits written, or -EINVAL with the buffer untouched. */
  method Encode(out: BitBuffer, p: Pdu) returns (n: int)
    requires out.Valid() && WellFormed(p)
    requires Encodable(p) ==> out.HasRoom(|PduBits(p)|)
    modifies out, out.buffer
    ensures out.Valid()
    ensures !Encodable(p) ==> n == -EINVAL && out.View() == old(out.View())
    ensures Encodable(p) ==> n == |PduBits(p)| && out.View() == After(old(out.View()), PduBits(p))
  {
    if !ValidType(p.pduType) || p.bodyLen > 8 * BODY_MAX_BYTES || (p.pduType == AL_SETUP && p.bodyLen != 0) {
      return -EINVAL;
    }
    var start := out.pos;
    PutCovered(out, p);
    if HasFcs(p.pduType) {
      ghost var c := old(out.View());
      AfterHolds(c, Covered(p));
      PutFcs(out, start);
      AfterTwice(c, Covered(p), Fcs(Covered(p)));
    } else {
      assert PduBits(p) == Covered(p);
    }
    n := out.pos - start;
  }

  method PutCovered(out: BitBuffer, p: Pdu)
    requires out.Valid() && WellFormed(p) && Encodable(p) && out.HasRoom(|Covered(p)|)
    modifies out, out.buffer
    ensures out.Valid() && out.View() == After(old(out.View()), Covered(p))
  {
    ghost var c := out.View();
    PutHeader(out, p);
    if p.bodyLen > 0 {
      PutBody(out, p.body, p.bodyLen);
    } else {
      AfterNothing(out.View());
    }
    AfterTwice(c, HeaderBits(p.pduType, p.nr, p.ns), BodyBits(p));
  }

  lemma AfterNothing(c: Cursor)
    requires c.pos <= c.end <= |c.bits|
    ensures After(c, []) == c
  {
  }

  // ----- Reading: what a bit string decodes to -----

  function PackByte(b: BitString): Byte
    requires |b| == 8
  {
    ToFromBits(b);
    ByteFits(FromBits(b));
    FromBits(b)
  }

  function Pack(b: BitString, n: nat): (s: seq<Byte>)
    requires |b| == 8 * n
    ensures |s| == n
  {
    if n == 0 then [] else Pack(b[..8 * (n - 1)], n - 1) + [PackByte(b[8 * (n - 1)..])]
  }

  lemma {:induction false} UnpackPack(b: BitString, n: nat)
    requires |b| == 8 * n
    ensures Unpack(Pack(b, n)) == b
    decreases n
  {
    if n > 0 {
      var s := Pack(b, n);
      UnpackPack(b[..8 * (n - 1)], n - 1);
      assert s[..n - 1] == Pack(b[..8 * (n - 1)], n - 1);
      ToFromBits(b[8 * (n - 1)..]);
    }
  }

  /** The number of bytes that hold n bits. */
  function BytesFor(n: nat): (k: nat)
    ensures n <= 8 * k < n + 8
  {
    (n + 7) / 8
  }

  /** The body array after x is read into it: x, zero bits up to the next byte, and the
      array's old bytes after that. */
  function FilledBody(body: seq<Byte>, x: BitString): (r: seq<Byte>)
    requires |x| <= 8 * |body|
    ensures |r| == |body|
  {
    var full := BytesFor(|x|);
    Pack(x + Zeros(8 * full - |x|), full) + body[full..]
  }

  datatype Decoded = Decoded(rc: int, pdu: Pdu, used: nat)

  function DecodeFcs(b: BitString, p: Pdu, at: nat): Decoded
    requires at <= |b|
  {
    if !HasFcs(p.pduType) then Decoded(0, p, at)
    else if |b| < at + 32 then Decoded(-EPROTO, p, at)
    else Decoded(0, p.(fcs := FromBits(b[at..at + 32]), fcsValid := b[at..at + 32] == Fcs(b[..at])), at + 32)
  }

  function DecodeBody(b: BitString, p: Pdu, at: nat): Decoded
    requires at <= |b| && WellFormed(p) && p.bodyLen <= 8 * BODY_MAX_BYTES
  {
    var end := at + p.bodyLen;
    if |b| < end then Decoded(-EPROTO, p, at)
    else DecodeFcs(b, p.(body := FilledBody(p.body, b[at..end])), end)
  }

  lemma BodyThenFcs(b: BitString, p: Pdu, at: nat, end: nat)
    requires WellFormed(p) && p.bodyLen <= 8 * BODY_MAX_BYTES && end == at + p.bodyLen <= |b|
    ensures DecodeBody(b, p, at) == DecodeFcs(b, p.(body := FilledBody(p.body, b[at..end])), end)
  {
  }

  function HeaderLen(t: nat): nat {
    4 + Bit(HasNr(t)) + Bit(HasNs(t))
  }

  function DecodeControl(b: BitString, p: Pdu): Decoded
    requires 4 <= |b| && WellFormed(p) && p.bodyLen <= 8 * BODY_MAX_BYTES
  {
    var h := HeaderLen(p.pduType);
    if |b| < h then Decoded(-EPROTO, p, 4)
    else
      var nr := if HasNr(p.pduType) then Bit(b[4]) else 0;
      var ns := if HasNs(p.pduType) then Bit(b[h - 1]) else 0;
      DecodeBody(b, p.(nr := nr, ns := ns), h)
  }

  /** llc_pdu_decode on the bits ahead of the cursor; want.bodyLen is the caller's. */
  function DecodeBits(b: BitString, want: Pdu): Decoded
    requires WellFormed(want)
  {
    if want.bodyLen > 8 * BODY_MAX_BYTES then Decoded(-EINVAL, want, 0)
    else if |b| < 4 then Decoded(-EPROTO, want, 0)
    else
      var t := FromBits(b[..4]);
      if !ValidType(t) then Decoded(-EPROTO, want.(pduType := UNKNOWN), 4)
      else
        var p := want.(pduType := t, nr := 0, ns := 0, fcs := 0, fcsValid := false);
        if t == AL_SETUP then Decoded(0, p.(bodyLen := 0), 4) else DecodeControl(b, p)
  }
}
