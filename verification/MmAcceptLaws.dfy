/** Reading the accept back: the decoder script's parser recovers the fields, and every
    length field delimits exactly the bits of its element. */
module MmAcceptLaws {
  import opened Wrappers
  import opened Bits
  import opened WordFields
  import opened MmAccept

  // ----- parse_mm_pdu, type 5 -----

  /** A p-bit and, when it is set and the bits are there, a field of the given width. */
  datatype Optional = Optional(present: Option<nat>, value: Option<nat>, pos: nat)

  function Extract(b: BitString, pos: nat, n: nat): nat
    requires pos + n <= |b|
  {
    FromBits(b[pos..pos + n])
  }

  function ReadOptional(b: BitString, pos: nat, width: nat): Optional {
    if pos + 1 > |b| then Optional(None, None, pos)
    else
      var p := Extract(b, pos, 1);
      if p == 1 && pos + 1 + width <= |b| then Optional(Some(p), Some(Extract(b, pos + 1, width)), pos + 1 + width)
      else Optional(Some(p), None, pos + 1)
  }

  /** The dictionary the parser fills; a key it does not set is None. */
  datatype Parsed = Parsed(acceptType: Option<nat>, optionalFields: Option<nat>, ssi: Optional, extension: Optional,
                           subscriberClass: Optional, energySaving: Optional, scch: Optional, more: Option<nat>,
                           fieldId: Option<nat>, payloadLen: Option<nat>)

  const ABSENT := Optional(None, None, 0)

  function ParseOptions(b: BitString, r: Parsed, pos: nat): Parsed {
    var ssi := ReadOptional(b, pos, 24);
    var ext := ReadOptional(b, ssi.pos, 24);
    var cls := ReadOptional(b, ext.pos, 16);
    var esi := ReadOptional(b, cls.pos, 14);
    var scch := ReadOptional(b, esi.pos, 6);
    ParseMore(b, r.(ssi := ssi, extension := ext, subscriberClass := cls, energySaving := esi, scch := scch), scch.pos)
  }

  /** The m-bit and, when it is set, the identifier and length of the first element. */
  function ParseMore(b: BitString, r: Parsed, pos: nat): Parsed {
    if pos + 1 > |b| then r
    else
      var more := Extract(b, pos, 1);
      if more == 1 && pos + 16 <= |b| then
        r.(more := Some(more), fieldId := Some(Extract(b, pos + 1, 4)), payloadLen := Some(Extract(b, pos + 5, 11)))
      else r.(more := Some(more))
  }

  function ParseAccept(b: BitString, pos: nat): Parsed {
    var r := Parsed(None, None, ABSENT, ABSENT, ABSENT, ABSENT, ABSENT, None, None, None);
    if pos + 3 > |b| then r
    else if pos + 4 > |b| then r.(acceptType := Some(Extract(b, pos, 3)))
    else
      var o := Extract(b, pos + 3, 1);
      var r' := r.(acceptType := Some(Extract(b, pos, 3)), optionalFields := Some(o));
      if o == 1 then ParseOptions(b, r', pos + 4) else r'
  }

  lemma OneBitIs(v: bool)
    ensures BitIf(v) == [v]
  {
    OneBitField(Bit(v));
  }

  lemma FlagField(v: bool)
    ensures FromBits(BitIf(v)) == Bit(v)
  {
    OneBitIs(v);
    assert FromBits([v]) == 2 * FromBits([v][..0]) + Bit(v);
  }

  /** b read from pos on is x followed by y. */
  ghost predicate At(b: BitString, pos: nat, x: BitString, y: BitString) {
    pos + |x| + |y| == |b| && b[pos..] == x + y
  }

  lemma Reads(b: BitString, pos: nat, x: BitString, y: BitString)
    requires At(b, pos, x, y)
    ensures Extract(b, pos, |x|) == FromBits(x) && b[pos + |x|..] == y
  {
    assert b[pos..pos + |x|] == b[pos..][..|x|] == x;
    assert b[pos + |x|..] == b[pos..][|x|..] == y;
  }

  lemma ReadsAbsent(b: BitString, pos: nat, width: nat, y: BitString)
    requires At(b, pos, BitIf(false), y)
    ensures ReadOptional(b, pos, width) == Optional(Some(0), None, pos + 1) && b[pos + 1..] == y
  {
    Reads(b, pos, BitIf(false), y);
    FlagField(false);
  }

  lemma ReadsPresent(b: BitString, pos: nat, x: BitString, y: BitString)
    requires At(b, pos, BitIf(true), x + y)
    ensures ReadOptional(b, pos, |x|) == Optional(Some(1), Some(FromBits(x)), pos + 1 + |x|) && b[pos + 1 + |x|..] == y
  {
    Reads(b, pos, BitIf(true), x + y);
    FlagField(true);
    Reads(b, pos + 1, x, y);
  }

  // ----- What the parser reads of any accept -----

  /** The optional fields of an accept by their bits, with the identifier and length of the first element. */
  datatype Fields = Fields(ssi: Option<BitString>, extension: Option<BitString>, subscriberClass: Option<BitString>,
                           energySaving: Option<BitString>, scch: Option<BitString>,
                           element: Option<(BitString, BitString)>)

  predicate Wide(v: Option<BitString>, width: nat) {
    v.Some? ==> |v.value| == width
  }

  predicate Sized(f: Fields) {
    && Wide(f.ssi, 24) && Wide(f.extension, 24) && Wide(f.subscriberClass, 16) && Wide(f.energySaving, 14)
    && Wide(f.scch, 6) && (f.element.Some? ==> |f.element.value.0| == 4 && |f.element.value.1| == 11)
  }

  /** An optional field, followed by y. */
  function FieldThen(v: Option<BitString>, y: BitString): BitString {
    if v.Some? then BitIf(true) + (v.value + y) else BitIf(false) + y
  }

  function ElementThen(v: Option<(BitString, BitString)>, y: BitString): BitString {
    if v.Some? then BitIf(true) + (v.value.0 + (v.value.1 + y)) else BitIf(false) + y
  }

  function FieldsThen(f: Fields, y: BitString): BitString {
    FieldThen(f.ssi, FieldThen(f.extension, FieldThen(f.subscriberClass,
      FieldThen(f.energySaving, FieldThen(f.scch, ElementThen(f.element, y))))))
  }

  predicate Holds(o: Optional, v: Option<BitString>) {
    && o.present == Some(Bit(v.Some?))
    && o.value == (if v.Some? then Some(FromBits(v.value)) else None)
  }

  ghost predicate FieldsRead(r: Parsed, f: Fields) {
    && Holds(r.ssi, f.ssi) && Holds(r.extension, f.extension) && Holds(r.subscriberClass, f.subscriberClass)
    && Holds(r.energySaving, f.energySaving) && Holds(r.scch, f.scch) && r.more == Some(Bit(f.element.Some?))
    && r.fieldId == (if f.element.Some? then Some(FromBits(f.element.value.0)) else None)
    && r.payloadLen == (if f.element.Some? then Some(FromBits(f.element.value.1)) else None)
  }

  lemma ReadsField(b: BitString, pos: nat, v: Option<BitString>, width: nat, y: BitString)
    requires pos <= |b| && b[pos..] == FieldThen(v, y) && Wide(v, width)
    ensures var o := ReadOptional(b, pos, width);
      Holds(o, v) && pos <= o.pos <= |b| && b[o.pos..] == y
  {
    if v.Some? {
      ReadsPresent(b, pos, v.value, y);
    } else {
      ReadsAbsent(b, pos, width, y);
    }
  }

  lemma ReadsElement(b: BitString, pos: nat, v: Option<(BitString, BitString)>, y: BitString, r0: Parsed)
    requires pos <= |b| && b[pos..] == ElementThen(v, y) && r0.fieldId == r0.payloadLen == None
    requires v.Some? ==> |v.value.0| == 4 && |v.value.1| == 11
    ensures ParseMore(b, r0, pos)
         == r0.(more := Some(Bit(v.Some?)), fieldId := if v.Some? then Some(FromBits(v.value.0)) else None,
                payloadLen := if v.Some? then Some(FromBits(v.value.1)) else None)
  {
    FlagField(v.Some?);
    if v.Some? {
      Reads(b, pos, BitIf(true), v.value.0 + (v.value.1 + y));
      Reads(b, pos + 1, v.value.0, v.value.1 + y);
      Reads(b, pos + 5, v.value.1, y);
    } else {
      Reads(b, pos, BitIf(false), y);
    }
  }

  lemma ReadsFields(b: BitString, pos: nat, f: Fields, y: BitString, r: Parsed)
    requires pos <= |b| && b[pos..] == FieldsThen(f, y) && Sized(f) && r.fieldId == r.payloadLen == None
    ensures FieldsRead(ParseOptions(b, r, pos), f)
    ensures var s := ParseOptions(b, r, pos); s.acceptType == r.acceptType && s.optionalFields == r.optionalFields
  {
    var z := ElementThen(f.element, y);
    var z1 := FieldThen(f.scch, z);
    var z2 := FieldThen(f.energySaving, z1);
    var z3 := FieldThen(f.subscriberClass, z2);
    ReadsField(b, pos, f.ssi, 24, FieldThen(f.extension, z3));
    var ssi := ReadOptional(b, pos, 24);
    ReadsField(b, ssi.pos, f.extension, 24, z3);
    var ext := ReadOptional(b, ssi.pos, 24);
    ReadsField(b, ext.pos, f.subscriberClass, 16, z2);
    var cls := ReadOptional(b, ext.pos, 16);
    ReadsField(b, cls.pos, f.energySaving, 14, z1);
    var esi := ReadOptional(b, cls.pos, 14);
    ReadsField(b, esi.pos, f.scch, 6, z);
    var scch := ReadOptional(b, esi.pos, 6);
    var r1 := r.(ssi := ssi, extension := ext, subscriberClass := cls, energySaving := esi, scch := scch);
    ReadsElement(b, scch.pos, f.element, y, r1);
  }

  /** Every accept with any of the optional fields is read field by field, whatever follows; of one
      without them nothing more is read than that. */
  lemma ParserReads(b: BitString, pos: nat, ty: BitString, fields: Option<Fields>, y: BitString)
    requires |ty| == 3 && (fields.Some? ==> Sized(fields.value)) && pos <= |b|
    requires b[pos..] == ty + (BitIf(fields.Some?) + if fields.Some? then FieldsThen(fields.value, y) else y)
    ensures var r := ParseAccept(b, pos);
      && r.acceptType == Some(FromBits(ty)) && r.optionalFields == Some(Bit(fields.Some?))
      && (if fields.Some? then FieldsRead(r, fields.value) else r == Bare(Some(FromBits(ty)), Some(0)))
  {
    var o, z := fields.Some?, if fields.Some? then FieldsThen(fields.value, y) else y;
    ReadsHead(b, pos, ty, o, z);
    if o {
      ReadsFields(b, pos + 4, fields.value, y, Bare(Some(FromBits(ty)), Some(1)));
    }
  }

  lemma ReadsHead(b: BitString, pos: nat, ty: BitString, o: bool, z: BitString)
    requires |ty| == 3 && pos <= |b| && b[pos..] == ty + (BitIf(o) + z)
    ensures pos + 4 <= |b| && b[pos + 4..] == z
    ensures var r := Bare(Some(FromBits(ty)), Some(Bit(o)));
      ParseAccept(b, pos) == if o then ParseOptions(b, r, pos + 4) else r
  {
    OneBitIs(o);
    Reads(b, pos, ty, BitIf(o) + z);
    Reads(b, pos + 3, BitIf(o), z);
    FlagField(o);
  }

  function Bare(acceptType: Option<nat>, optionalFields: Option<nat>): Parsed {
    Parsed(acceptType, optionalFields, ABSENT, ABSENT, ABSENT, ABSENT, ABSENT, None, None, None)
  }

  /** What ends before the type or the flag is complete. */
  lemma CutShort(b: BitString, pos: nat)
    requires pos <= |b| < pos + 4
    ensures ParseAccept(b, pos) == Bare(if |b| == pos + 3 then Some(FromBits(b[pos..])) else None, None)
  {
    assert b[pos..|b|] == b[pos..];
  }

  // ----- The numbers on the air -----

  lemma FourBits(v: nat)
    ensures ToBits(v, 4) == [v / 8 % 2 == 1, v / 4 % 2 == 1, v / 2 % 2 == 1, v % 2 == 1]
  {
    assert ToBits(v, 4) == ToBits(v / 2, 3) + [v % 2 == 1];
    assert ToBits(v / 2, 3) == ToBits(v / 4, 2) + [v / 2 % 2 == 1];
    assert ToBits(v / 4, 2) == ToBits(v / 8, 1) + [v / 4 % 2 == 1];
    assert ToBits(v / 8, 1) == ToBits(v / 16, 0) + [v / 8 % 2 == 1];
  }

  /** The accept begins with PDU type 5; the group element is number 5 and its list number 7, each
      after a set m-bit and before an 11-bit length. */
  lemma NumbersOnAir(p: Params, payload: BitString)
    ensures AcceptBits(p)[..4] == [false, true, false, true]
    ensures Element(ELEM_GILA, payload)[..5] == [true, false, true, false, true]
    ensures Element(ELEM_GID, payload)[..5] == [true, false, true, true, true]
    ensures |Element(ELEM_GILA, payload)| == |Element(ELEM_GID, payload)| == 16 + |payload|
  {
    NumberBits();
    ElementStart(ELEM_GILA, payload);
    ElementStart(ELEM_GID, payload);
    AcceptStart(p);
  }

  lemma NumberBits()
    ensures ToBits(ACCEPT_TYPE, 4) == [false, true, false, true]
    ensures BitIf(true) + ToBits(ELEM_GILA, 4) == [true, false, true, false, true]
    ensures BitIf(true) + ToBits(ELEM_GID, 4) == [true, false, true, true, true]
  {
    OneBitIs(true);
    FourBits(ACCEPT_TYPE);
    FourBits(ELEM_GILA);
    FourBits(ELEM_GID);
  }

  lemma ElementStart(id: nat, payload: BitString)
    ensures Element(id, payload)[..5] == BitIf(true) + ToBits(id, 4)
  {
  }

  lemma AcceptStart(p: Params)
    ensures AcceptBits(p)[..4] == ToBits(ACCEPT_TYPE, 4)
  {
  }

  // ----- Elements -----

  datatype Parsing = Parsing(id: nat, payload: BitString, rest: BitString)

  /** Reads one element by its length field. */
  function ReadElement(b: BitString): Option<Parsing> {
    if |b| < 16 || !b[0] then None
    else
      var len := Extract(b, 5, 11);
      if |b| < 16 + len then None else Some(Parsing(Extract(b, 1, 4), b[16..16 + len], b[16 + len..]))
  }

  lemma SmallFits(v: nat, n: nat)
    requires v < Pow2(n)
    ensures FromBits(ToBits(v, n)) == v
  {
    FitsIsBound(v, n);
    FromToBits(v, n);
  }

  lemma Powers()
    ensures Pow2(3) == 8 && Pow2(4) == 16 && Pow2(6) == 64 && Pow2(11) == 2048
  {
    assert Pow2(7) == 128 && Pow2(9) == 512;
  }

  /** The length field says where the element ends. */
  lemma ElementIsDelimited(id: nat, payload: BitString, rest: BitString)
    requires id < 16 && |payload| < 2048
    ensures ReadElement(Element(id, payload) + rest) == Some(Parsing(id, payload, rest))
  {
    var b := Element(id, payload) + rest;
    Powers();
    SmallFits(id, 4);
    SmallFits(|payload|, 11);
    OneBitIs(true);
    assert b[1..5] == ToBits(id, 4);
    assert b[5..16] == ToBits(|payload|, 11);
    assert b[16..16 + |payload|] == payload && b[16 + |payload|..] == rest;
  }

  lemma PayloadsAreShort(p: Params)
    requires |p.gids| <= GID_MAX
    ensures |GidListPayload(p.gids)| < 2048 && |GilaPayload(p)| < 2048
  {
    GidsLength(p.gids);
  }

  /** Both nested lengths of the group element are right: the outer one spans the payload,
      and inside it, after the three flag bits, the inner one spans the list, leaving the
      trailing m-bit. */
  lemma NestedLengths(p: Params, rest: BitString)
    requires |p.gids| <= GID_MAX
    ensures ReadElement(Element(ELEM_GILA, GilaPayload(p)) + rest) == Some(Parsing(ELEM_GILA, GilaPayload(p), rest))
    ensures p.gids != [] ==>
      ReadElement(GilaPayload(p)[3..]) == Some(Parsing(ELEM_GID, GidListPayload(p.gids), BitIf(false)))
  {
    PayloadsAreShort(p);
    ElementIsDelimited(ELEM_GILA, GilaPayload(p), rest);
    if p.gids != [] {
      ElementIsDelimited(ELEM_GID, GidListPayload(p.gids), BitIf(false));
      assert GilaPayload(p)[3..] == Element(ELEM_GID, GidListPayload(p.gids)) + BitIf(false);
    }
  }

  // ----- The round trip -----

  /** The value of the low n bits of v. */
  function Low(v: nat, n: nat): nat
    decreases n, v
  {
    if n == 0 then 0 else 2 * Low(v / 2, n - 1) + v % 2
  }

  lemma {:induction false} FieldIsLow(v: nat, n: nat)
    ensures FromBits(ToBits(v, n)) == Low(v, n)
    decreases n
  {
    if n > 0 {
      FieldIsLow(v / 2, n - 1);
      assert ToBits(v, n)[..n - 1] == ToBits(v / 2, n - 1);
    }
  }

  lemma ThreeBitField(v: nat)
    ensures FromBits(ToBits(v, 3)) == v % 8
  {
    FieldIsLow(v, 3);
    LowThree(v);
  }

  lemma LowThree(v: nat)
    ensures Low(v, 3) == v % 8
  {
    var h, q := v / 2, v / 4;
    assert Low(v, 3) == 2 * Low(h, 2) + v % 2;
    assert Low(h, 2) == 2 * Low(q, 1) + h % 2;
    assert Low(q, 1) == 2 * Low(q / 2, 0) + q % 2;
  }

  /** What follows the three absent fields. */
  function AfterThree(p: Params): BitString {
    BitIf(p.esiPresent) + (if p.esiPresent then EsiBits(p) else []) + (BitIf(false) + AfterScch(p))
  }

  function AfterScch(p: Params): BitString {
    (if p.gilaPresent then Element(ELEM_GILA, GilaPayload(p)) else []) + BitIf(false)
  }

  lemma OptionsSplit(p: Params, rest: BitString)
    ensures Options(p) + rest == BitIf(false) + (BitIf(false) + (BitIf(false) + (AfterThree(p) + rest)))
  {
    var z := BitIf(false);
    var e := BitIf(p.esiPresent) + (if p.esiPresent then EsiBits(p) else []);
    var g := if p.gilaPresent then Element(ELEM_GILA, GilaPayload(p)) else [];
    assert AfterThree(p) == e + (z + (g + z));
    OptionsChain(p, z, e, g);
    Split8(z, z, z, e, z, g, z, rest);
  }

  lemma OptionsChain(p: Params, z: BitString, e: BitString, g: BitString)
    requires z == BitIf(false) && e == BitIf(p.esiPresent) + (if p.esiPresent then EsiBits(p) else [])
    requires g == if p.gilaPresent then Element(ELEM_GILA, GilaPayload(p)) else []
    ensures Options(p) == z + z + z + e + z + g + z
  {
    var x := if p.esiPresent then EsiBits(p) else [];
    Regroup2(z + z + z, BitIf(p.esiPresent), x);
  }

  lemma Split8(a: BitString, b: BitString, c: BitString, d: BitString, e: BitString, f: BitString, g: BitString,
               h: BitString)
    ensures a + b + c + d + e + f + g + h == a + (b + (c + ((d + (e + (f + g))) + h)))
  {
    var x := d + (e + (f + g));
    assert d + e + f + g == x;
    assert a + b + c + d + e + f + g == a + b + c + x;
    assert a + b + c + x + h == a + (b + (c + (x + h)));
  }

  lemma HeadSplit(m: BitString, i: BitString, l: BitString, p: BitString, z: BitString, rest: BitString)
    ensures ((m + i + l + p) + z) + rest == m + (i + (l + (p + z + rest)))
  {
    assert m + i + l == m + (i + l);
    assert (m + (i + l) + p) + z + rest == m + ((i + l) + (p + z + rest));
    assert (i + l) + (p + z + rest) == i + (l + (p + z + rest));
  }

  /** Everything the parser should report about the optional part. */
  ghost predicate OptionsRecovered(r: Parsed, p: Params) {
    && r.ssi.present == Some(0) && r.extension.present == Some(0) && r.subscriberClass.present == Some(0)
    && r.energySaving.present == Some(Bit(p.esiPresent))
    && r.energySaving.value == (if p.esiPresent then Some(FromBits(EsiBits(p))) else None)
    && r.scch.present == Some(0) && r.more == Some(Bit(p.gilaPresent))
    && r.fieldId == (if p.gilaPresent then Some(ELEM_GILA) else None)
    && r.payloadLen == (if p.gilaPresent then Some(|GilaPayload(p)|) else None)
  }

  /** The accept's optional part by fields, and what follows its last field. */
  function AcceptFields(p: Params): Fields {
    Fields(None, None, None, if p.esiPresent then Some(EsiBits(p)) else None, None,
           if p.gilaPresent then Some((ToBits(ELEM_GILA, 4), ToBits(|GilaPayload(p)|, 11))) else None)
  }

  function AfterElement(p: Params, rest: BitString): BitString {
    if p.gilaPresent then GilaPayload(p) + BitIf(false) + rest else rest
  }

  lemma FieldsOfAccept(p: Params, rest: BitString)
    ensures Options(p) + rest == FieldsThen(AcceptFields(p), AfterElement(p, rest))
  {
    var f, y := AcceptFields(p), AfterElement(p, rest);
    OptionsSplit(p, rest);
    ElementOfAccept(p, rest);
    var z := BitIf(false) + (AfterScch(p) + rest);
    SavingOfAccept(p, AfterScch(p), rest);
    assert AfterThree(p) + rest == FieldThen(f.energySaving, z);
    assert FieldThen(f.scch, ElementThen(f.element, y)) == z;
  }

  lemma ElementOfAccept(p: Params, rest: BitString)
    ensures AfterScch(p) + rest == ElementThen(AcceptFields(p).element, AfterElement(p, rest))
  {
    if p.gilaPresent {
      var x := GilaPayload(p);
      HeadSplit(BitIf(true), ToBits(ELEM_GILA, 4), ToBits(|x|, 11), x, BitIf(false), rest);
    }
  }

  lemma SavingOfAccept(p: Params, s: BitString, rest: BitString)
    ensures BitIf(p.esiPresent) + (if p.esiPresent then EsiBits(p) else []) + (BitIf(false) + s) + rest
         == FieldThen(AcceptFields(p).energySaving, BitIf(false) + (s + rest))
  {
    var e := if p.esiPresent then EsiBits(p) else [];
    Regroup2(BitIf(false), s, rest);
    var z := BitIf(false) + s;
    assert BitIf(p.esiPresent) + e + z + rest == BitIf(p.esiPresent) + (e + (z + rest));
  }

  lemma HeaderParts(p: Params, rest: BitString, o: bool)
    requires o == (p.esiPresent || p.gilaPresent)
    ensures (AcceptBits(p) + rest)[4..]
         == ToBits(p.acceptType, 3) + (BitIf(o) + ((if o then Options(p) else []) + rest))
  {
    var a, t, f, y := ToBits(ACCEPT_TYPE, 4), ToBits(p.acceptType, 3), BitIf(o), if o then Options(p) else [];
    assert AcceptBits(p) == a + t + f + y;
    AfterFirst(a, t, f, y, rest);
  }

  lemma AfterFirst(a: BitString, t: BitString, f: BitString, y: BitString, rest: BitString)
    ensures (a + t + f + y + rest)[|a|..] == t + (f + (y + rest))
  {
    assert a + t + f + y + rest == a + (t + (f + (y + rest)));
  }

  /** The decoder script recovers the accept type, the energy-saving information, and the
      identifier and length of the group element from what the builder wrote. */
  lemma ParserRecovers(p: Params, rest: BitString)
    requires |p.gids| <= GID_MAX
    ensures var r := ParseAccept(AcceptBits(p) + rest, 4); var o := p.esiPresent || p.gilaPresent;
      r.acceptType == Some(p.acceptType % 8) && r.optionalFields == Some(Bit(o)) && (o ==> OptionsRecovered(r, p))
  {
    var o := p.esiPresent || p.gilaPresent;
    var b := AcceptBits(p) + rest;
    AcceptByFields(p, rest, b);
    ThreeBitField(p.acceptType);
    if o {
      ParserReads(b, 4, ToBits(p.acceptType, 3), Some(AcceptFields(p)), AfterElement(p, rest));
      FieldsRecovered(p, ParseAccept(b, 4));
    } else {
      ParserReads(b, 4, ToBits(p.acceptType, 3), None, rest);
    }
  }

  lemma AcceptByFields(p: Params, rest: BitString, b: BitString)
    requires b == AcceptBits(p) + rest
    ensures var o := p.esiPresent || p.gilaPresent;
      && |b| >= 4
      && b[4..] == ToBits(p.acceptType, 3)
                   + (BitIf(o) + if o then FieldsThen(AcceptFields(p), AfterElement(p, rest)) else rest)
  {
    var o := p.esiPresent || p.gilaPresent;
    HeaderParts(p, rest, o);
    FieldsOfAccept(p, rest);
    assert [] + rest == rest;
  }

  lemma FieldsRecovered(p: Params, r: Parsed)
    requires |p.gids| <= GID_MAX && FieldsRead(r, AcceptFields(p))
    ensures OptionsRecovered(r, p)
  {
    ElementNumbers(p);
  }

  lemma ElementNumbers(p: Params)
    requires |p.gids| <= GID_MAX
    ensures FromBits(ToBits(ELEM_GILA, 4)) == ELEM_GILA
    ensures p.gilaPresent ==> FromBits(ToBits(|GilaPayload(p)|, 11)) == |GilaPayload(p)|
  {
    Powers();
    SmallFits(ELEM_GILA, 4);
    if p.gilaPresent {
      PayloadsAreShort(p);
      SmallFits(|GilaPayload(p)|, 11);
    }
  }
}
