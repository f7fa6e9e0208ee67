/** A reader of the whole accept, element by element and length by length, and the proof that
    it recovers every parameter the builder was given. */
module MmAcceptReader {
  import opened Wrappers
  import opened Bits
  import opened WordFields
  import opened MmAccept
  import opened MmAcceptLaws

  // ----- Reading fields in order -----

  /** A value read and what follows it, or too few bits. */
  datatype Taken = Short | Got(value: nat, rest: BitString)

  function Begin(b: BitString): Taken {
    Got(0, b)
  }

  /** The next n bits after t, if the field is present. */
  function Then(t: Taken, present: bool, n: nat): Taken {
    if t.Short? then Short
    else if !present then Got(0, t.rest)
    else if |t.rest| < n then Short
    else Got(FromBits(t.rest[..n]), t.rest[n..])
  }

  function If(present: bool, v: nat): nat {
    if present then v else 0
  }

  function Piece(present: bool, v: nat, n: nat): BitString {
    if present then ToBits(v, n) else []
  }

  /** What is left of a value in a field of n bits. */
  function Masked(v: nat, n: nat): nat {
    v % Pow2(n)
  }

  lemma ModOf(x: nat, d: nat, k: nat, r: nat)
    requires r < d && x == k * d + r
    ensures x % d == r
  {
    var e: int := x / d - k;
    assert e * d + x % d == r;
    if e != 0 {
      FarFromZero(e, d);
    }
  }

  lemma FarFromZero(e: int, d: nat)
    requires e != 0 && d > 0
    ensures e * d >= d || e * d + d <= 0
  {
    if e > 0 {
      assert (e - 1) * d >= 0;
    } else {
      assert (-e - 1) * d >= 0;
    }
  }

  lemma {:induction false} FieldIsMasked(v: nat, n: nat)
    ensures FromBits(ToBits(v, n)) == Masked(v, n)
    decreases n
  {
    if n > 0 {
      var h, q := v / 2, Pow2(n - 1);
      FieldIsMasked(h, n - 1);
      assert ToBits(v, n)[..n - 1] == ToBits(h, n - 1);
      DoubledMod(v, h, q);
    }
  }

  lemma DoubledMod(v: nat, h: nat, q: nat)
    requires h == v / 2 && q > 0
    ensures v % (2 * q) == 2 * (h % q) + v % 2
  {
    var k := h / q;
    assert h == k * q + h % q;
    assert v == k * (2 * q) + (2 * (h % q) + v % 2);
    ModOf(v, 2 * q, k, 2 * (h % q) + v % 2);
  }

  lemma ThenReads(t: Taken, present: bool, v: nat, n: nat, rest: BitString)
    requires t.Got? && t.rest == Piece(present, v, n) + rest
    ensures Then(t, present, n) == Got(If(present, Masked(v, n)), rest)
  {
    if present {
      FieldIsMasked(v, n);
      assert t.rest[..n] == ToBits(v, n) && t.rest[n..] == rest;
    }
  }

  lemma ThenReadsSmall(t: Taken, v: nat, n: nat, rest: BitString)
    requires t.Got? && t.rest == ToBits(v, n) + rest && v < Pow2(n)
    ensures Then(t, true, n) == Got(v, rest)
  {
    ThenReads(t, true, v, n, rest);
    ModOf(v, Pow2(n), 0, v);
  }

  // ----- One group identity -----

  predicate HasGssi(a: nat) {
    a == 0 || a == 1 || a == 3
  }

  predicate HasExtension(a: nat) {
    a == 1 || a == 3
  }

  predicate HasVgssi(a: nat) {
    a == 2 || a == 3
  }

  function ReadGid(b: BitString): Option<(Gid, BitString)> {
    var detach := Then(Begin(b), true, 1);
    var attach := detach.Got? && detach.value == 0;
    var lifetime := Then(detach, attach, 2);
    var usage := Then(lifetime, attach, 3);
    var kind := Then(usage, !attach, 2);
    var address := Then(kind, true, 2);
    var a := if address.Got? then address.value else 0;
    var gssi := Then(address, HasGssi(a), 24);
    var extension := Then(gssi, HasExtension(a), 24);
    var vgssi := Then(extension, HasVgssi(a), 24);
    if vgssi.Short? then None
    else
      Some((Gid(attach, lifetime.value, usage.value, kind.value, a, gssi.value, extension.value, vgssi.value),
            vgssi.rest))
  }

  /** An address type that its field can say. */
  predicate KnownType(g: Gid) {
    g.addressType < 4
  }

  /** The fields that are sent, each as far as its width goes; the others read as 0. */
  function Essential(g: Gid): Gid {
    var a := Masked(g.addressType, 2);
    Gid(g.isAttach, If(g.isAttach, Masked(g.lifetime, 2)), If(g.isAttach, Masked(g.classOfUsage, 3)),
        If(!g.isAttach, Masked(g.detachmentType, 2)), a, If(HasGssi(a), Masked(g.gssi, 24)),
        If(HasExtension(a), Masked(g.addressExtension, 24)), If(HasVgssi(a), Masked(g.vgssi, 24)))
  }

  lemma TypeIsKept(g: Gid)
    requires KnownType(g)
    ensures Masked(g.addressType, 2) == g.addressType
  {
    assert Pow2(2) == 4;
  }

  /** The bits from the address type on. */
  function Tail(g: Gid, rest: BitString): BitString {
    ToBits(g.addressType, 2)
    + (Piece(HasGssi(g.addressType), g.gssi, 24)
       + (Piece(HasExtension(g.addressType), g.addressExtension, 24)
          + (Piece(HasVgssi(g.addressType), g.vgssi, 24) + rest)))
  }

  lemma GidSplit(g: Gid, rest: BitString)
    ensures GidBits(g) + rest
         == ToBits(Bit(!g.isAttach), 1)
            + (Piece(g.isAttach, g.lifetime, 2)
               + (Piece(g.isAttach, g.classOfUsage, 3) + (Piece(!g.isAttach, g.detachmentType, 2) + Tail(g, rest))))
  {
    var f, l, c, d := BitIf(!g.isAttach), Piece(g.isAttach, g.lifetime, 2), Piece(g.isAttach, g.classOfUsage, 3),
                      Piece(!g.isAttach, g.detachmentType, 2);
    var a, s, e, v := ToBits(g.addressType, 2), Piece(HasGssi(g.addressType), g.gssi, 24),
                      Piece(HasExtension(g.addressType), g.addressExtension, 24),
                      Piece(HasVgssi(g.addressType), g.vgssi, 24);
    AttachPieces(g, l, c, d);
    assert AddressBits(g) == s + e + v;
    Nest(f, l, c, d, a, s, e, v, rest);
  }

  lemma AttachPieces(g: Gid, l: BitString, c: BitString, d: BitString)
    requires l == Piece(g.isAttach, g.lifetime, 2) && c == Piece(g.isAttach, g.classOfUsage, 3)
    requires d == Piece(!g.isAttach, g.detachmentType, 2)
    ensures AttachBits(g) == l + c + d
  {
  }

  lemma Nest(f: BitString, l: BitString, c: BitString, d: BitString, a: BitString, s: BitString, e: BitString,
             v: BitString, rest: BitString)
    ensures f + (l + c + d) + a + (s + e + v) + rest == f + (l + (c + (d + (a + (s + (e + (v + rest)))))))
  {
    var x := s + (e + (v + rest));
    Nest3(s, e, v, rest);
    Nest3(l, c, d, a + x);
    assert f + (l + c + d) + a + (s + e + v) + rest == f + ((l + c + d) + (a + x));
  }

  lemma Nest3(a: BitString, b: BitString, c: BitString, rest: BitString)
    ensures (a + b + c) + rest == a + (b + (c + rest))
  {
  }

  lemma FlagBound(v: bool)
    ensures Bit(v) < Pow2(1)
  {
    assert Pow2(1) == 2 * Pow2(0);
  }

  /** Reading one group identity recovers every field that was sent. */
  lemma GidIsRead(g: Gid, rest: BitString)
    requires KnownType(g)
    ensures ReadGid(GidBits(g) + rest) == Some((Essential(g), rest))
  {
    var b := GidBits(g) + rest;
    GidSplit(g, rest);
    TypeIsKept(g);
    FlagBound(!g.isAttach);
    var d, t := Piece(!g.isAttach, g.detachmentType, 2), Tail(g, rest);
    var u := Piece(g.isAttach, g.classOfUsage, 3) + (d + t);
    var l := Piece(g.isAttach, g.lifetime, 2) + u;
    ThenReadsSmall(Begin(b), Bit(!g.isAttach), 1, l);
    var t0 := Then(Begin(b), true, 1);
    ThenReads(t0, g.isAttach, g.lifetime, 2, u);
    var t1 := Then(t0, g.isAttach, 2);
    ThenReads(t1, g.isAttach, g.classOfUsage, 3, d + t);
    var t2 := Then(t1, g.isAttach, 3);
    ThenReads(t2, !g.isAttach, g.detachmentType, 2, t);
    TailIsRead(Then(t2, !g.isAttach, 2), g, rest);
  }

  lemma TailIsRead(t: Taken, g: Gid, rest: BitString)
    requires t.Got? && t.rest == Tail(g, rest) && KnownType(g)
    ensures var a := Then(t, true, 2); var s := Then(a, HasGssi(g.addressType), 24);
      var e := Then(s, HasExtension(g.addressType), 24); var v := Then(e, HasVgssi(g.addressType), 24);
      && a.Got? && a.value == g.addressType && s.Got? && s.value == If(HasGssi(g.addressType), Masked(g.gssi, 24))
      && e.Got? && e.value == If(HasExtension(g.addressType), Masked(g.addressExtension, 24))
      && v == Got(If(HasVgssi(g.addressType), Masked(g.vgssi, 24)), rest)
  {
    TypeIsKept(g);
    var x := Piece(HasVgssi(g.addressType), g.vgssi, 24) + rest;
    var y := Piece(HasExtension(g.addressType), g.addressExtension, 24) + x;
    var z := Piece(HasGssi(g.addressType), g.gssi, 24) + y;
    ThenReads(t, true, g.addressType, 2, z);
    var a := Then(t, true, 2);
    ThenReads(a, HasGssi(g.addressType), g.gssi, 24, y);
    var s := Then(a, HasGssi(g.addressType), 24);
    ThenReads(s, HasExtension(g.addressType), g.addressExtension, 24, x);
    ThenReads(Then(s, HasExtension(g.addressType), 24), HasVgssi(g.addressType), g.vgssi, 24, rest);
  }

  // ----- The list -----

  function ReadGids(b: BitString, n: nat): Option<(seq<Gid>, BitString)>
    decreases n
  {
    if n == 0 then Some(([], b))
    else
      var g := ReadGid(b);
      if g.None? then None
      else
        var gs := ReadGids(g.value.1, n - 1);
        if gs.None? then None else Some(([g.value.0] + gs.value.0, gs.value.1))
  }

  ghost predicate TypesKnown(gs: seq<Gid>) {
    forall i :: 0 <= i < |gs| ==> KnownType(gs[i])
  }

  function EssentialAll(gs: seq<Gid>): seq<Gid> {
    if gs == [] then [] else [Essential(gs[0])] + EssentialAll(gs[1..])
  }

  lemma GidsLast(gs: seq<Gid>, n: nat)
    requires |gs| == n + 1
    ensures GidsBits(gs) == GidsBits(gs[..n]) + GidBits(gs[n])
  {
  }

  lemma Middle(gs: seq<Gid>, n: nat)
    requires |gs| == n + 1 && n > 0
    ensures gs[..n][0] == gs[0] && gs[..n][1..] == gs[1..][..n - 1] && gs[1..][n - 1] == gs[n]
  {
  }

  /** The list is written from the front. */
  lemma {:induction false} GidsFront(gs: seq<Gid>)
    requires gs != []
    ensures GidsBits(gs) == GidBits(gs[0]) + GidsBits(gs[1..])
    decreases |gs|
  {
    var n := |gs| - 1;
    GidsLast(gs, n);
    if n > 0 {
      GidsFront(gs[..n]);
      Middle(gs, n);
      GidsLast(gs[1..], n - 1);
      Regroup2(GidBits(gs[0]), GidsBits(gs[1..][..n - 1]), GidBits(gs[n]));
    }
  }

  lemma {:induction false} GidsAreRead(gs: seq<Gid>, rest: BitString)
    requires TypesKnown(gs)
    ensures ReadGids(GidsBits(gs) + rest, |gs|) == Some((EssentialAll(gs), rest))
    decreases |gs|
  {
    if gs == [] {
      assert GidsBits(gs) + rest == rest;
    } else {
      GidsFront(gs);
      Regroup2(GidBits(gs[0]), GidsBits(gs[1..]), rest);
      GidIsRead(gs[0], GidsBits(gs[1..]) + rest);
      GidsAreRead(gs[1..], rest);
    }
  }

  // ----- The group element -----

  /** The number of entries, then the entries, filling the payload. */
  function ReadList(payload: BitString): Option<seq<Gid>> {
    var n := Then(Begin(payload), true, 6);
    if n.Short? then None
    else
      var gs := ReadGids(n.rest, n.value);
      if gs.None? || gs.value.1 != [] then None else Some(gs.value.0)
  }

  lemma CountIsRead(gs: seq<Gid>)
    requires |gs| <= GID_MAX
    ensures Then(Begin(GidListPayload(gs)), true, 6) == Got(|gs|, GidsBits(gs))
  {
    Powers();
    ThenReadsSmall(Begin(GidListPayload(gs)), |gs|, 6, GidsBits(gs));
  }

  /** How many bits reading g takes. */
  function LengthRead(g: Gid): nat {
    3 + (if g.isAttach then 5 else 2) + If(HasGssi(g.addressType), 24) + If(HasExtension(g.addressType), 24)
    + If(HasVgssi(g.addressType), 24)
  }

  function LengthsRead(gs: seq<Gid>): nat {
    if gs == [] then 0 else LengthRead(gs[0]) + LengthsRead(gs[1..])
  }

  lemma GidTakes(b: BitString)
    requires ReadGid(b).Some?
    ensures |b| == LengthRead(ReadGid(b).value.0) + |ReadGid(b).value.1|
  {
  }

  lemma {:induction false} GidsTake(b: BitString, n: nat)
    requires ReadGids(b, n).Some?
    ensures |b| == LengthsRead(ReadGids(b, n).value.0) + |ReadGids(b, n).value.1|
    decreases n
  {
    if n > 0 {
      GidTakes(b);
      GidsTake(ReadGid(b).value.1, n - 1);
      var gs := ReadGids(b, n).value.0;
      assert gs[1..] == ReadGids(ReadGid(b).value.1, n - 1).value.0;
    }
  }

  /** An address type its field cannot say is written without any address. */
  lemma GidWritten(g: Gid)
    ensures |GidBits(g)| <= LengthRead(Essential(g))
    ensures |GidBits(g)| == LengthRead(Essential(g)) <==> KnownType(g)
  {
    WrittenLength(g);
    if KnownType(g) {
      TypeIsKept(g);
    } else {
      SomeAddress(Masked(g.addressType, 2));
    }
  }

  lemma WrittenLength(g: Gid)
    ensures |GidBits(g)| == 3 + (if g.isAttach then 5 else 2) + If(HasGssi(g.addressType), 24)
                            + If(HasExtension(g.addressType), 24) + If(HasVgssi(g.addressType), 24)
  {
  }

  lemma SomeAddress(a: nat)
    requires a < 4
    ensures HasGssi(a) || HasVgssi(a)
  {
  }

  lemma {:induction false} GidsWritten(gs: seq<Gid>)
    ensures |GidsBits(gs)| <= LengthsRead(EssentialAll(gs))
    ensures |GidsBits(gs)| == LengthsRead(EssentialAll(gs)) <==> TypesKnown(gs)
    decreases |gs|
  {
    if gs != [] {
      GidsFront(gs);
      GidWritten(gs[0]);
      GidsWritten(gs[1..]);
      assert EssentialAll(gs)[1..] == EssentialAll(gs[1..]);
      TypesFront(gs);
    }
  }

  lemma TypesFront(gs: seq<Gid>)
    requires gs != []
    ensures TypesKnown(gs) <==> KnownType(gs[0]) && TypesKnown(gs[1..])
  {
    if KnownType(gs[0]) && TypesKnown(gs[1..]) {
      forall i | 0 <= i < |gs| ensures KnownType(gs[i]) { assert i > 0 ==> gs[1..][i - 1] == gs[i]; }
    }
  }

  /** The list is read back exactly when every address type is known. */
  lemma ListIsReadIff(gs: seq<Gid>)
    requires |gs| <= GID_MAX
    ensures ReadList(GidListPayload(gs)) == Some(EssentialAll(gs)) <==> TypesKnown(gs)
  {
    if TypesKnown(gs) {
      ListIsRead(gs);
    }
    if ReadList(GidListPayload(gs)) == Some(EssentialAll(gs)) {
      TypesOfListRead(gs);
    }
  }

  lemma ListIsRead(gs: seq<Gid>)
    requires |gs| <= GID_MAX && TypesKnown(gs)
    ensures ReadList(GidListPayload(gs)) == Some(EssentialAll(gs))
  {
    CountIsRead(gs);
    assert GidsBits(gs) + [] == GidsBits(gs);
    GidsAreRead(gs, []);
  }

  /** The reader fills the payload exactly, so the lengths give the types away. */
  lemma TypesOfListRead(gs: seq<Gid>)
    requires |gs| <= GID_MAX && ReadList(GidListPayload(gs)) == Some(EssentialAll(gs))
    ensures TypesKnown(gs)
  {
    ListReadFills(gs, EssentialAll(gs));
    LengthsGiveTypes(gs, EssentialAll(gs));
  }

  lemma LengthsGiveTypes(gs: seq<Gid>, back: seq<Gid>)
    requires back == EssentialAll(gs) && |GidsBits(gs)| == LengthsRead(back)
    ensures TypesKnown(gs)
  {
    GidsWritten(gs);
  }

  lemma ListReadFills(gs: seq<Gid>, back: seq<Gid>)
    requires |gs| <= GID_MAX && ReadList(GidListPayload(gs)) == Some(back)
    ensures |GidsBits(gs)| == LengthsRead(back)
  {
    CountIsRead(gs);
    GidsTake(GidsBits(gs), |gs|);
  }

  /** Accept/reject, reserved, o-bit, and the list element with its trailing m-bit. */
  function ReadGila(payload: BitString): Option<(nat, seq<Gid>)> {
    var reject := Then(Begin(payload), true, 1);
    var reserved := Then(reject, true, 1);
    var more := Then(reserved, true, 1);
    if more.Short? || reserved.value != 0 then None
    else if more.value == 0 then if more.rest == [] then Some((reject.value, [])) else None
    else
      var e := ReadElement(more.rest);
      if e.None? || e.value.id != ELEM_GID || e.value.rest != [false] then None
      else
        var gs := ReadList(e.value.payload);
        if gs.None? then None else Some((reject.value, gs.value))
  }

  lemma GilaFlags(p: Params, tail: BitString)
    ensures var b := ToBits(p.gilaReject, 1) + BitIf(false) + BitIf(p.gids != []) + tail;
      var reject := Then(Begin(b), true, 1); var reserved := Then(reject, true, 1);
      && reject.Got? && reject.value == Masked(p.gilaReject, 1) && reserved.Got? && reserved.value == 0
      && Then(reserved, true, 1) == Got(Bit(p.gids != []), tail)
  {
    var r, z, m := ToBits(p.gilaReject, 1), BitIf(false), BitIf(p.gids != []);
    Nest3(r, z, m, tail);
    FlagBound(true);
    FlagBound(p.gids != []);
    var t0 := Begin(r + z + m + tail);
    ThenReads(t0, true, p.gilaReject, 1, z + (m + tail));
    var t1 := Then(t0, true, 1);
    ThenReadsSmall(t1, 0, 1, m + tail);
    ThenReadsSmall(Then(t1, true, 1), Bit(p.gids != []), 1, tail);
  }

  /** The group identities as read from the list element, if it can be read. */
  function GidsBack(p: Params): Option<seq<Gid>> {
    if p.gids == [] then Some([]) else ReadList(GidListPayload(p.gids))
  }

  lemma GilaIsRead(p: Params)
    requires |p.gids| <= GID_MAX
    ensures ReadGila(GilaPayload(p))
         == if GidsBack(p).None? then None else Some((Masked(p.gilaReject, 1), GidsBack(p).value))
  {
    var tail := if p.gids != [] then Element(ELEM_GID, GidListPayload(p.gids)) + BitIf(false) else [];
    GilaFlags(p, tail);
    if p.gids != [] {
      PayloadsAreShort(p);
      ElementIsDelimited(ELEM_GID, GidListPayload(p.gids), BitIf(false));
      OneBitIs(false);
    }
  }

  // ----- The whole accept -----

  /** The part after the p-bits of the absent fields: the group element, or only the m-bit. */
  function ReadGroups(b: BitString): Option<(bool, nat, seq<Gid>, BitString)> {
    if b == [] then None
    else if !b[0] then Some((false, 0, [], b[1..]))
    else
      var e := ReadElement(b);
      if e.None? || e.value.id != ELEM_GILA || e.value.rest == [] || e.value.rest[0] then None
      else
        var g := ReadGila(e.value.payload);
        if g.None? then None else Some((true, g.value.0, g.value.1, e.value.rest[1..]))
  }

  lemma GroupElementIsRead(p: Params, rest: BitString)
    requires |p.gids| <= GID_MAX && rest != [] && !rest[0]
    ensures ReadGroups(Element(ELEM_GILA, GilaPayload(p)) + rest)
         == if GidsBack(p).None? then None
            else Some((true, Masked(p.gilaReject, 1), GidsBack(p).value, rest[1..]))
  {
    OneBitIs(true);
    NestedLengths(p, rest);
    GilaIsRead(p);
    assert (Element(ELEM_GILA, GilaPayload(p)) + rest)[0] == BitIf(true)[0];
  }

  lemma GroupsAreRead(p: Params, rest: BitString)
    requires |p.gids| <= GID_MAX
    ensures ReadGroups(AfterScch(p) + rest)
         == if !p.gilaPresent then Some((false, 0, [], rest))
            else if GidsBack(p).None? then None
            else Some((true, Masked(p.gilaReject, 1), GidsBack(p).value, rest))
  {
    OneBitIs(false);
    if p.gilaPresent {
      Regroup2(Element(ELEM_GILA, GilaPayload(p)), BitIf(false), rest);
      GroupElementIsRead(p, BitIf(false) + rest);
    } else {
      assert AfterScch(p) + rest == [false] + rest;
    }
  }

  /** The energy-saving part: present, mode, frame, multiframe. */
  datatype Saving = Saving(present: bool, mode: nat, frame: nat, multiframe: nat, after: Taken)

  function ReadSaving(t: Taken): Saving {
    var esi := Then(t, true, 1);
    var present := esi.Got? && esi.value == 1;
    var mode := Then(esi, present, 3);
    var frame := Then(mode, present, 5);
    var multiframe := Then(frame, present, 6);
    if multiframe.Short? then Saving(present, 0, 0, 0, Short)
    else Saving(present, mode.value, frame.value, multiframe.value, multiframe)
  }

  /** Three p-bits that are never set. */
  function SkipThree(b: BitString): Taken {
    var ssi := Then(Begin(b), true, 1);
    var extension := Then(ssi, true, 1);
    var subscriber := Then(extension, true, 1);
    if subscriber.Short? || ssi.value != 0 || extension.value != 0 || subscriber.value != 0 then Short else subscriber
  }

  function ReadOptions(b: BitString): Option<(Params, BitString)> {
    var s := ReadSaving(SkipThree(b));
    var scch := Then(s.after, true, 1);
    if scch.Short? || scch.value != 0 then None
    else
      var g := ReadGroups(scch.rest);
      if g.None? then None
      else
        var (gila, reject, gids, rest) := g.value;
        Some((Params(0, s.present, s.mode, s.frame, s.multiframe, gila, reject, gids), rest))
  }

  function ReadAccept(b: BitString): Option<(Params, BitString)> {
    var kind := Then(Begin(b), true, 4);
    var accept := Then(kind, true, 3);
    var more := Then(accept, true, 1);
    if more.Short? || kind.value != ACCEPT_TYPE then None
    else if more.value == 0 then Some((Params(accept.value, false, 0, 0, 0, false, 0, []), more.rest))
    else
      var o := ReadOptions(more.rest);
      if o.None? then None else Some((o.value.0.(acceptType := accept.value), o.value.1))
  }

  /** What is sent of the parameters, each as far as its width goes: absent parts read as zero. */
  function EssentialParams(p: Params): Params {
    Params(Masked(p.acceptType, 3), p.esiPresent, If(p.esiPresent, Masked(p.esiMode, 3)),
           If(p.esiPresent, Masked(p.esiFrame, 5)), If(p.esiPresent, Masked(p.esiMultiframe, 6)), p.gilaPresent,
           If(p.gilaPresent, Masked(p.gilaReject, 1)), if p.gilaPresent then EssentialAll(p.gids) else [])
  }

  /** The same with the group identities as they are read. */
  function ParamsBack(p: Params): Option<Params> {
    if !p.gilaPresent then Some(EssentialParams(p))
    else if GidsBack(p).None? then None
    else Some(EssentialParams(p).(gids := GidsBack(p).value))
  }

  /** The energy-saving fields, one by one. */
  lemma EsiIsRead(t: Taken, p: Params, y: BitString)
    requires t.Got? && t.rest == BitIf(p.esiPresent) + (if p.esiPresent then EsiBits(p) else []) + y
    ensures ReadSaving(t) == SavingOf(p, y)
  {
    var s := p.esiPresent;
    var a, b, c := Piece(s, p.esiMode, 3), Piece(s, p.esiFrame, 5), Piece(s, p.esiMultiframe, 6);
    assert (if s then EsiBits(p) else []) == a + b + c;
    Regroup2(BitIf(s), a + b + c, y);
    Nest3(a, b, c, y);
    FlagBound(s);
    ThenReadsSmall(t, Bit(s), 1, a + (b + (c + y)));
    var esi := Then(t, true, 1);
    ThenReads(esi, s, p.esiMode, 3, b + (c + y));
    var m := Then(esi, s, 3);
    ThenReads(m, s, p.esiFrame, 5, c + y);
    ThenReads(Then(m, s, 5), s, p.esiMultiframe, 6, y);
  }

  lemma ThreeAbsent(b: BitString, x: BitString)
    requires b == BitIf(false) + (BitIf(false) + (BitIf(false) + x))
    ensures SkipThree(b) == Got(0, x)
  {
    var z := BitIf(false);
    FlagBound(false);
    ThenReadsSmall(Begin(b), 0, 1, z + (z + x));
    var s := Then(Begin(b), true, 1);
    ThenReadsSmall(s, 0, 1, z + x);
    ThenReadsSmall(Then(s, true, 1), 0, 1, x);
  }

  lemma AfterThreeSplit(p: Params, rest: BitString)
    ensures AfterThree(p) + rest
         == BitIf(p.esiPresent) + (if p.esiPresent then EsiBits(p) else []) + (BitIf(false) + (AfterScch(p) + rest))
  {
    var e := BitIf(p.esiPresent) + (if p.esiPresent then EsiBits(p) else []);
    Regroup2(e, BitIf(false) + AfterScch(p), rest);
    Regroup2(BitIf(false), AfterScch(p), rest);
  }

  function SavingOf(p: Params, y: BitString): Saving {
    var e := EssentialParams(p);
    Saving(p.esiPresent, e.esiMode, e.esiFrame, e.esiMultiframe, Got(e.esiMultiframe, y))
  }

  lemma SavingIsRead(p: Params, rest: BitString)
    ensures ReadSaving(SkipThree(Options(p) + rest)) == SavingOf(p, BitIf(false) + (AfterScch(p) + rest))
  {
    OptionsSplit(p, rest);
    ThreeAbsent(Options(p) + rest, AfterThree(p) + rest);
    AfterThreeSplit(p, rest);
    EsiIsRead(Got(0, AfterThree(p) + rest), p, BitIf(false) + (AfterScch(p) + rest));
  }

  /** What the options read as: the accept type, which comes before them, reads as 0. */
  function OptionsBack(p: Params, rest: BitString): Option<(Params, BitString)> {
    if ParamsBack(p).None? then None else Some((ParamsBack(p).value.(acceptType := 0), rest))
  }

  lemma OptionsAreRead(p: Params, rest: BitString)
    requires |p.gids| <= GID_MAX
    ensures ReadOptions(Options(p) + rest) == OptionsBack(p, rest)
  {
    var r := AfterScch(p) + rest;
    SavingIsRead(p, rest);
    GroupsAreRead(p, rest);
    FlagBound(false);
    var s := SavingOf(p, BitIf(false) + r);
    ThenReadsSmall(s.after, 0, 1, r);
    FinishOptions(Options(p) + rest, s, r);
  }

  lemma FinishOptions(b: BitString, s: Saving, r: BitString)
    requires ReadSaving(SkipThree(b)) == s && Then(s.after, true, 1) == Got(0, r)
    ensures ReadOptions(b)
         == if ReadGroups(r).None? then None
            else
              var g := ReadGroups(r).value;
              Some((Params(0, s.present, s.mode, s.frame, s.multiframe, g.0, g.1, g.2), g.3))
  {
  }

  /** The accept, whatever its parameters, read back: every value that is sent, as far as its
      field goes, and whatever the group list reads as; nothing beyond is consumed. */
  lemma AcceptReads(p: Params, rest: BitString)
    requires |p.gids| <= GID_MAX
    ensures ReadAccept(AcceptBits(p) + rest)
         == if ParamsBack(p).None? then None else Some((ParamsBack(p).value, rest))
  {
    var o := p.esiPresent || p.gilaPresent;
    var y := (if o then Options(p) else []) + rest;
    HeaderIsRead(p, rest, o, y);
    if o {
      OptionsAreRead(p, rest);
    } else {
      assert y == rest;
    }
  }

  lemma HeaderIsRead(p: Params, rest: BitString, o: bool, y: BitString)
    requires o == (p.esiPresent || p.gilaPresent) && y == (if o then Options(p) else []) + rest
    ensures var kind := Then(Begin(AcceptBits(p) + rest), true, 4); var accept := Then(kind, true, 3);
      && kind.Got? && kind.value == ACCEPT_TYPE && accept.Got? && accept.value == Masked(p.acceptType, 3)
      && Then(accept, true, 1) == Got(Bit(o), y)
  {
    var k, t, f := ToBits(ACCEPT_TYPE, 4), ToBits(p.acceptType, 3), BitIf(o);
    HeaderNest(p, rest, o);
    Powers();
    FlagBound(o);
    var t0 := Begin(AcceptBits(p) + rest);
    ThenReadsSmall(t0, ACCEPT_TYPE, 4, t + (f + y));
    var t1 := Then(t0, true, 4);
    ThenReads(t1, true, p.acceptType, 3, f + y);
    ThenReadsSmall(Then(t1, true, 3), Bit(o), 1, y);
  }

  /** Every parameter that is sent is recovered, as far as its field goes, exactly when no group
      identity has an address type above 3: for such a one the builder writes the low two bits of
      the type but none of the addresses they announce. */
  lemma AcceptIsReadIff(p: Params, rest: BitString)
    requires |p.gids| <= GID_MAX
    ensures ReadAccept(AcceptBits(p) + rest) == Some((EssentialParams(p), rest))
       <==> (p.gilaPresent ==> TypesKnown(p.gids))
  {
    AcceptReads(p, rest);
    ListIsReadIff(p.gids);
  }

  lemma HeaderNest(p: Params, rest: BitString, o: bool)
    requires o == (p.esiPresent || p.gilaPresent)
    ensures AcceptBits(p) + rest
         == ToBits(ACCEPT_TYPE, 4) + (ToBits(p.acceptType, 3) + (BitIf(o) + ((if o then Options(p) else []) + rest)))
  {
    var y := if o then Options(p) else [];
    assert AcceptBits(p) == ToBits(ACCEPT_TYPE, 4) + ToBits(p.acceptType, 3) + BitIf(o) + y;
    Regroup2(ToBits(ACCEPT_TYPE, 4) + ToBits(p.acceptType, 3) + BitIf(o), y, rest);
    Nest3(ToBits(ACCEPT_TYPE, 4), ToBits(p.acceptType, 3), BitIf(o), y + rest);
  }
}
