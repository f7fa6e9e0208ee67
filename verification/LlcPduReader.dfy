/** llc_pdu_decode through the bit cursor, proved against LlcPdu.DecodeBits. */
module LlcPduReader {
  import opened Errno
  import opened Bits
  import opened WordFields
  import opened BitBuffer
  import opened LlcPdu

  /** get_body. */
  method GetBody(bb: BitBuffer, body: seq<Byte>, len: nat) returns (r: seq<Byte>)
    requires bb.Valid() && len <= |bb.Ahead()| && len <= 8 * |body|
    modifies bb`pos
    ensures bb.Valid() && bb.pos == old(bb.pos) + len && bb.Ahead() == old(bb.Ahead())[len..]
    ensures r == FilledBody(body, old(bb.Ahead())[..len])
  {
    var k, remaining := len / 8, len % 8;
    r := GetSplitBody(bb, body, k, remaining);
    FilledIs(body, old(bb.Ahead())[..len], k, remaining, r);
  }

  /** r holds the first k bytes of x, and body beyond the first full bytes. */
  ghost predicate Holds(r: seq<Byte>, body: seq<Byte>, full: nat, x: BitString, k: nat) {
    && |r| == |body| && k <= full <= |r| && 8 * k <= |x|
    && r[..k] == Pack(x[..8 * k], k) && r[full..] == body[full..]
  }

  lemma HoldsMore(r: seq<Byte>, body: seq<Byte>, full: nat, x: BitString, k: nat, v: Byte)
    requires Holds(r, body, full, x, k) && k < full && 8 * k + 8 <= |x| && ToBits(v, 8) == x[8 * k..8 * k + 8]
    ensures Holds(r[k := v], body, full, x, k + 1)
  {
    var y := x[..8 * (k + 1)];
    assert y[..8 * k] == x[..8 * k];
    assert y[8 * k..] == x[8 * k..8 * k + 8];
    ByteFits(v);
    FromToBits(v, 8);
    assert Pack(y, k + 1) == Pack(y[..8 * k], k) + [PackByte(y[8 * k..])];
    assert r[k := v][..k + 1] == r[..k] + [v];
  }

  lemma FilledIs(body: seq<Byte>, x: BitString, k: nat, n: nat, r: seq<Byte>)
    requires |x| == 8 * k + n && n < 8 && |x| <= 8 * |body| && (n > 0 ==> k < |body|)
    requires Holds(r, body, if n > 0 then k + 1 else k, if n > 0 then x + Zeros(8 - n) else x,
                   if n > 0 then k + 1 else k)
    ensures r == FilledBody(body, x)
  {
    var full := BytesFor(|x|);
    assert full == if n > 0 then k + 1 else k;
    var y := x + Zeros(8 * full - |x|);
    assert y[..8 * full] == y;
    assert n == 0 ==> y == x;
    assert r == r[..full] + r[full..];
  }

  method GetSplitBody(bb: BitBuffer, body: seq<Byte>, k: nat, n: nat) returns (r: seq<Byte>)
    requires bb.Valid() && n < 8 && 8 * k + n <= |bb.Ahead()| && 8 * k + n <= 8 * |body|
    modifies bb`pos
    ensures bb.Valid() && bb.pos == old(bb.pos) + 8 * k + n && bb.Ahead() == old(bb.Ahead())[8 * k + n..]
    ensures var x := old(bb.Ahead())[..8 * k + n];
      Holds(r, body, if n > 0 then k + 1 else k, if n > 0 then x + Zeros(8 - n) else x, if n > 0 then k + 1 else k)
  {
    ghost var a := bb.Ahead();
    var full := if n > 0 then k + 1 else k;
    r := GetBytes(bb, body, full, k, if n > 0 then a[..8 * k + n] + Zeros(8 - n) else a[..8 * k]);
    if n > 0 {
      r := GetTail(bb, r, body, full, k, n, a[8 * k..], a[..8 * k + n] + Zeros(8 - n));
      assert a[8 * k..][n..] == a[8 * k + n..];
    } else {
      assert 8 * k + n == 8 * k;
    }
  }

  method GetBytes(bb: BitBuffer, body: seq<Byte>, full: nat, n: nat, ghost x: BitString) returns (r: seq<Byte>)
    requires bb.Valid() && n <= full <= |body|
    requires 8 * n <= |bb.Ahead()| && 8 * n <= |x| && x[..8 * n] == bb.Ahead()[..8 * n]
    modifies bb`pos
    ensures bb.Valid() && bb.pos == old(bb.pos) + 8 * n && bb.Ahead() == old(bb.Ahead())[8 * n..]
    ensures Holds(r, body, full, x, n)
  {
    ghost var a := bb.Ahead();
    r := seq(full, _ => 0) + body[full..];
    for k := 0 to n
      invariant bb.Valid() && bb.pos == old(bb.pos) + 8 * k && bb.Ahead() == a[8 * k..]
      invariant Holds(r, body, full, x, k)
    {
      var v := bb.GetBits(8);
      ByteFits(v);
      NextEight(a, x, k, n);
      HoldsMore(r, body, full, x, k, v);
      r := r[k := v];
    }
  }

  lemma NextEight(a: BitString, x: BitString, k: nat, n: nat)
    requires k < n && 8 * n <= |a| && 8 * n <= |x| && x[..8 * n] == a[..8 * n]
    ensures a[8 * k..][..8] == x[8 * k..8 * k + 8]
    ensures a[8 * k..][8..] == a[8 * (k + 1)..]
  {
    SliceOfSlice(x, 0, 8 * n, 8 * k, 8);
    SliceOfSlice(a, 0, 8 * n, 8 * k, 8);
  }

  method GetTail(bb: BitBuffer, r0: seq<Byte>, body: seq<Byte>, full: nat, k: nat, n: nat, ghost a: BitString,
                 ghost x: BitString)
    returns (r: seq<Byte>)
    requires bb.Valid() && 1 <= n < 8 && bb.Ahead() == a && n <= |a| && k < full
    requires Holds(r0, body, full, x, k) && |x| == 8 * k + 8 && x[8 * k..] == a[..n] + Zeros(8 - n)
    modifies bb`pos
    ensures bb.Valid() && bb.pos == old(bb.pos) + n && bb.Ahead() == a[n..]
    ensures Holds(r, body, full, x, k + 1)
  {
    var v := bb.GetBits(n);
    LowField(v, n);
    TailByte(Field(v, 0, n), n);
    HoldsMore(r0, body, full, x, k, Shl(Field(v, 0, n), 8 - n));
    r := r0[k := Shl(Field(v, 0, n), 8 - n)];
  }

  lemma TailByte(c: nat, n: nat)
    requires n <= 8 && Fits(c, n)
    ensures Shl(c, 8 - n) < 256 && ToBits(Shl(c, 8 - n), 8) == ToBits(c, n) + Zeros(8 - n)
  {
    ShlFits(c, n, 8 - n);
    ByteFits(Shl(c, 8 - n));
    ShlBits(c, 8 - n, 8);
  }

  /** bb_get_bits(1) as a control bit. */
  method GetFlag(bb: BitBuffer, present: bool) returns (v: nat)
    requires bb.Valid() && (present ==> 1 <= |bb.Ahead()|)
    modifies bb`pos
    ensures bb.Valid() && bb.pos == old(bb.pos) + Bit(present) && bb.Ahead() == old(bb.Ahead())[Bit(present)..]
    ensures v == if present then Bit(old(bb.Ahead())[0]) else 0
  {
    v := 0;
    if present {
      v := bb.GetBits(1);
      OneBitField(v);
    }
  }

  /** What a decoding method returned, and where it left the cursor, is d. */
  ghost predicate Gives(rc: int, out: Pdu, start: nat, pos: nat, d: Decoded) {
    rc == d.rc && out == d.pdu && pos == start + d.used
  }

  method GetFcs(bb: BitBuffer, start: nat, p: Pdu, ghost b: BitString, ghost at: nat) returns (rc: int, out: Pdu)
    requires bb.Valid() && bb.pos == start + at && b == bb.Contents()[start..bb.end]
    modifies bb`pos
    ensures bb.Valid() && Gives(rc, out, start, bb.pos, DecodeFcs(b, p, at))
  {
    rc, out := 0, p;
    if HasFcs(p.pduType) {
      if bb.end - bb.pos < 32 {
        return -EPROTO, p;
      }
      out := CheckFcs(bb, start, p, b, at);
    }
  }

  method CheckFcs(bb: BitBuffer, start: nat, p: Pdu, ghost b: BitString, ghost at: nat) returns (out: Pdu)
    requires bb.Valid() && bb.pos == start + at && b == bb.Contents()[start..bb.end]
    requires HasFcs(p.pduType) && bb.pos + 32 <= bb.end
    modifies bb`pos
    ensures bb.Valid() && bb.pos == old(bb.pos) + 32 && DecodeFcs(b, p, at) == Decoded(0, out, at + 32)
  {
    var want := FrontCrc(bb, start, b, at);
    var got := GetWord(bb, start, b, at);
    FcsCompared(b, p, at, want, got);
    out := p.(fcs := got, fcsValid := got == FromBits(want));
  }

  method FrontCrc(bb: BitBuffer, start: nat, ghost b: BitString, ghost at: nat) returns (word: BitString)
    requires bb.Valid() && bb.pos == start + at && b == bb.Contents()[start..bb.end]
    ensures word == Fcs(b[..at])
  {
    FrontIs(bb.Contents(), start, bb.end, at);
    word := WindowCrc(bb, start, bb.pos, b[..at]);
  }

  method GetWord(bb: BitBuffer, start: nat, ghost b: BitString, ghost at: nat) returns (v: nat)
    requires bb.Valid() && bb.pos == start + at && b == bb.Contents()[start..bb.end] && bb.pos + 32 <= bb.end
    modifies bb`pos
    ensures bb.Valid() && bb.pos == old(bb.pos) + 32 && Fits(v, 32) && ToBits(v, 32) == b[at..at + 32]
  {
    AheadIs(bb.Contents(), start, bb.end, at, 32);
    v := bb.GetBits(32);
  }

  lemma FrontIs(s: BitString, start: nat, end: nat, at: nat)
    requires start + at <= end <= |s|
    ensures s[start..end][..at] == s[start..start + at]
  {
  }

  lemma FcsCompared(b: BitString, p: Pdu, at: nat, want: BitString, got: nat)
    requires at + 32 <= |b| && HasFcs(p.pduType) && want == Fcs(b[..at])
    requires Fits(got, 32) && ToBits(got, 32) == b[at..at + 32]
    ensures DecodeFcs(b, p, at) == Decoded(0, p.(fcs := got, fcsValid := got == FromBits(want)), at + 32)
  {
    FromToBits(got, 32);
    ToFromBits(want);
  }

  method GetPayload(bb: BitBuffer, start: nat, p: Pdu, ghost b: BitString, ghost at: nat) returns (rc: int, out: Pdu)
    requires bb.Valid() && bb.pos == start + at && b == bb.Contents()[start..bb.end]
    requires WellFormed(p) && p.bodyLen <= 8 * BODY_MAX_BYTES
    modifies bb`pos
    ensures bb.Valid() && Gives(rc, out, start, bb.pos, DecodeBody(b, p, at))
  {
    if p.bodyLen > 0 && bb.end - bb.pos < p.bodyLen {
      BodyTooLong(b, p, at);
      return -EPROTO, p;
    }
    var q := FillBody(bb, start, p, b, at);
    rc, out := GetFcs(bb, start, q, b, at + p.bodyLen);
  }

  lemma BodyTooLong(b: BitString, p: Pdu, at: nat)
    requires WellFormed(p) && p.bodyLen <= 8 * BODY_MAX_BYTES && at <= |b| < at + p.bodyLen
    ensures DecodeBody(b, p, at) == Decoded(-EPROTO, p, at)
  {
  }

  lemma FilledThenFcs(b: BitString, p: Pdu, at: nat, end: nat, q: Pdu)
    requires WellFormed(p) && p.bodyLen <= 8 * BODY_MAX_BYTES && end == at + p.bodyLen <= |b|
    requires q == p.(body := FilledBody(p.body, b[at..end]))
    ensures DecodeBody(b, p, at) == DecodeFcs(b, q, end)
  {
    BodyThenFcs(b, p, at, end);
  }

  method FillBody(bb: BitBuffer, start: nat, p: Pdu, ghost b: BitString, ghost at: nat) returns (q: Pdu)
    requires bb.Valid() && bb.pos == start + at && b == bb.Contents()[start..bb.end]
    requires WellFormed(p) && p.bodyLen <= 8 * BODY_MAX_BYTES && bb.pos + p.bodyLen <= bb.end
    modifies bb`pos
    ensures bb.Valid() && bb.pos == old(bb.pos) + p.bodyLen
    ensures DecodeBody(b, p, at) == DecodeFcs(b, q, at + p.bodyLen)
  {
    var body := TakeBody(bb, start, p.body, p.bodyLen, b, at);
    q := p.(body := body);
    FilledThenFcs(b, p, at, at + p.bodyLen, q);
  }

  method TakeBody(bb: BitBuffer, start: nat, body: seq<Byte>, len: nat, ghost b: BitString, ghost at: nat)
    returns (r: seq<Byte>)
    requires bb.Valid() && bb.pos == start + at && b == bb.Contents()[start..bb.end]
    requires len <= 8 * |body| && bb.pos + len <= bb.end
    modifies bb`pos
    ensures bb.Valid() && bb.pos == old(bb.pos) + len && r == FilledBody(body, b[at..at + len])
  {
    if len > 0 {
      AheadIs(bb.Contents(), start, bb.end, at, len);
      r := GetBody(bb, body, len);
    } else {
      FilledNothing(body, b[at..at]);
      r := body;
    }
  }

  lemma FilledNothing(body: seq<Byte>, x: BitString)
    requires x == []
    ensures FilledBody(body, x) == body
  {
  }

  lemma AheadIs(s: BitString, start: nat, end: nat, at: nat, n: nat)
    requires start + at + n <= end <= |s|
    ensures s[start + at..end][..n] == s[start..end][at..at + n]
  {
    SliceOfSlice(s, start, end, at, n);
    SliceOfSlice(s, start + at, end, 0, n);
  }

  method GetControl(bb: BitBuffer, start: nat, p: Pdu, ghost b: BitString) returns (rc: int, out: Pdu)
    requires bb.Valid() && bb.pos == start + 4 && b == bb.Contents()[start..bb.end]
    requires WellFormed(p) && p.bodyLen <= 8 * BODY_MAX_BYTES
    modifies bb`pos
    ensures bb.Valid() && Gives(rc, out, start, bb.pos, DecodeControl(b, p))
  {
    var need := Bit(HasNr(p.pduType)) + Bit(HasNs(p.pduType));
    if bb.end - bb.pos < need {
      return -EPROTO, p;
    }
    var nr, ns := GetFlags(bb, start, p.pduType, b);
    rc, out := GetPayload(bb, start, p.(nr := nr, ns := ns), b, HeaderLen(p.pduType));
  }

  method GetFlags(bb: BitBuffer, start: nat, t: nat, ghost b: BitString) returns (nr: nat, ns: nat)
    requires bb.Valid() && bb.pos == start + 4 && b == bb.Contents()[start..bb.end] && HeaderLen(t) <= |b|
    modifies bb`pos
    ensures bb.Valid() && bb.pos == start + HeaderLen(t)
    ensures nr == (if HasNr(t) then Bit(b[4]) else 0) && ns == (if HasNs(t) then Bit(b[HeaderLen(t) - 1]) else 0)
  {
    nr := GetFlag(bb, HasNr(t));
    ns := GetFlag(bb, HasNs(t));
  }

  /** llc_pdu_decode. */
  method Decode(bb: BitBuffer, want: Pdu) returns (rc: int, out: Pdu)
    requires bb.Valid() && WellFormed(want)
    modifies bb`pos
    ensures bb.Valid() && bb.pos >= old(bb.pos)
    ensures Decoded(rc, out, bb.pos - old(bb.pos)) == DecodeBits(old(bb.Ahead()), want)
  {
    if want.bodyLen > 8 * BODY_MAX_BYTES {
      return -EINVAL, want;
    }
    ghost var b := bb.Ahead();
    var start := bb.pos;
    if bb.end - bb.pos < 4 {
      return -EPROTO, want;
    }
    var t := bb.GetBits(4);
    FromToBits(t, 4);
    if !ValidType(t) {
      return -EPROTO, want.(pduType := UNKNOWN);
    }
    out := want.(pduType := t, nr := 0, ns := 0, fcs := 0, fcsValid := false);
    if t == AL_SETUP {
      return 0, out.(bodyLen := 0);
    }
    rc, out := GetControl(bb, start, out, b);
  }
}
