/** The D-LOCATION-UPDATE-ACCEPT body: what bits it consists of, and the builder with its
    nested, back-patched length fields. */
module MmAccept {
  import opened Errno
  import opened Bits
  import opened WordFields
  import opened BitWriter

  const GID_MAX: nat := 4
  const ACCEPT_TYPE: nat := 5
  const ELEM_GILA: nat := 5
  const ELEM_GID: nat := 7

  datatype Gid = Gid(isAttach: bool, lifetime: nat, classOfUsage: nat, detachmentType: nat, addressType: nat,
                     gssi: nat, addressExtension: nat, vgssi: nat)

  datatype Params = Params(acceptType: nat, esiPresent: bool, esiMode: nat, esiFrame: nat, esiMultiframe: nat,
                           gilaPresent: bool, gilaReject: nat, gids: seq<Gid>)

  // ----- The bits -----

  function BitIf(b: bool): BitString {
    ToBits(Bit(b), 1)
  }

  function AttachBits(g: Gid): BitString {
    if g.isAttach then ToBits(g.lifetime, 2) + ToBits(g.classOfUsage, 3) else ToBits(g.detachmentType, 2)
  }

  function AddressBits(g: Gid): BitString {
    (if g.addressType == 0 || g.addressType == 1 || g.addressType == 3 then ToBits(g.gssi, 24) else [])
    + (if g.addressType == 1 || g.addressType == 3 then ToBits(g.addressExtension, 24) else [])
    + (if g.addressType == 2 || g.addressType == 3 then ToBits(g.vgssi, 24) else [])
  }

  function GidBits(g: Gid): BitString {
    BitIf(!g.isAttach) + AttachBits(g) + ToBits(g.addressType, 2) + AddressBits(g)
  }

  function GidsBits(gs: seq<Gid>): BitString {
    if gs == [] then [] else GidsBits(gs[..|gs| - 1]) + GidBits(gs[|gs| - 1])
  }

  /** An optional element: m-bit, identifier, the length of the payload in bits, payload. */
  function Element(id: nat, payload: BitString): BitString {
    BitIf(true) + ToBits(id, 4) + ToBits(|payload|, 11) + payload
  }

  function GidListPayload(gs: seq<Gid>): BitString {
    ToBits(|gs|, 6) + GidsBits(gs)
  }

  /** The list element; an empty list has none. */
  function GidListBits(gs: seq<Gid>): BitString {
    if gs == [] then [] else Element(ELEM_GID, GidListPayload(gs))
  }

  function GilaPayload(p: Params): BitString {
    ToBits(p.gilaReject, 1) + BitIf(false) + BitIf(p.gids != [])
    + (if p.gids != [] then GidListBits(p.gids) + BitIf(false) else [])
  }

  function EsiBits(p: Params): BitString {
    ToBits(p.esiMode, 3) + ToBits(p.esiFrame, 5) + ToBits(p.esiMultiframe, 6)
  }

  function Options(p: Params): BitString {
    BitIf(false) + BitIf(false) + BitIf(false)
    + BitIf(p.esiPresent) + (if p.esiPresent then EsiBits(p) else []) + BitIf(false)
    + (if p.gilaPresent then Element(ELEM_GILA, GilaPayload(p)) else []) + BitIf(false)
  }

  function AcceptBits(p: Params): BitString {
    var o := p.esiPresent || p.gilaPresent;
    ToBits(ACCEPT_TYPE, 4) + ToBits(p.acceptType, 3) + BitIf(o) + (if o then Options(p) else [])
  }

  // ----- The builder -----

  /** put_gid_downlink. */
  method PutGid(w: WBuf, g: Gid, ghost w0: Writer, ghost x: BitString)
    requires w.Valid() && Wrote(w.capBits, w0, w.View(), x)
    modifies w, w.bits
    ensures w.Valid() && w.pos >= old(w.pos) && Wrote(w.capBits, w0, w.View(), x + GidBits(g))
  {
    ghost var t, a, d := BitIf(!g.isAttach), AttachBits(g), ToBits(g.addressType, 2);
    w.Put(Bit(!g.isAttach), 1, w0, x);
    PutAttach(w, g, w0, x + t);
    w.Put(g.addressType, 2, w0, x + t + a);
    PutAddresses(w, g, w0, x + t + a + d);
    Regroup4(x, t, a, d, AddressBits(g));
  }

  lemma Regroup4(x: BitString, a: BitString, b: BitString, c: BitString, d: BitString)
    ensures x + a + b + c + d == x + (a + b + c + d)
  {
  }

  method PutAttach(w: WBuf, g: Gid, ghost w0: Writer, ghost x: BitString)
    requires w.Valid() && Wrote(w.capBits, w0, w.View(), x)
    modifies w, w.bits
    ensures w.Valid() && w.pos >= old(w.pos) && Wrote(w.capBits, w0, w.View(), x + AttachBits(g))
  {
    if g.isAttach {
      w.Put(g.lifetime, 2, w0, x);
      w.Put(g.classOfUsage, 3, w0, x + ToBits(g.lifetime, 2));
      assert x + ToBits(g.lifetime, 2) + ToBits(g.classOfUsage, 3) == x + AttachBits(g);
    } else {
      w.Put(g.detachmentType, 2, w0, x);
    }
  }

  method PutAddresses(w: WBuf, g: Gid, ghost w0: Writer, ghost x: BitString)
    requires w.Valid() && Wrote(w.capBits, w0, w.View(), x)
    modifies w, w.bits
    ensures w.Valid() && w.pos >= old(w.pos) && Wrote(w.capBits, w0, w.View(), x + AddressBits(g))
  {
    PutIf(w, g.addressType == 0 || g.addressType == 1 || g.addressType == 3, g.gssi, 24, w0, x);
    ghost var a := if g.addressType == 0 || g.addressType == 1 || g.addressType == 3 then ToBits(g.gssi, 24) else [];
    PutIf(w, g.addressType == 1 || g.addressType == 3, g.addressExtension, 24, w0, x + a);
    ghost var b := if g.addressType == 1 || g.addressType == 3 then ToBits(g.addressExtension, 24) else [];
    PutIf(w, g.addressType == 2 || g.addressType == 3, g.vgssi, 24, w0, x + a + b);
    ghost var c := if g.addressType == 2 || g.addressType == 3 then ToBits(g.vgssi, 24) else [];
    Regroup3(x, a, b, c);
  }

  lemma Regroup3(x: BitString, a: BitString, b: BitString, c: BitString)
    ensures x + a + b + c == x + (a + b + c)
  {
  }

  method PutIf(w: WBuf, present: bool, v: nat, n: nat, ghost w0: Writer, ghost x: BitString)
    requires w.Valid() && n <= 64 && Wrote(w.capBits, w0, w.View(), x)
    modifies w, w.bits
    ensures w.Valid() && w.pos >= old(w.pos)
    ensures Wrote(w.capBits, w0, w.View(), x + (if present then ToBits(v, n) else []))
  {
    if present {
      w.Put(v, n, w0, x);
    } else {
      assert x + [] == x;
    }
  }

  /** The bits of an element before its length is known. */
  ghost function Opened(id: nat): BitString {
    BitIf(true) + ToBits(id, 4) + ToBits(0, 11)
  }

  /** m-bit, identifier and length placeholder. */
  method OpenElement(w: WBuf, id: nat, ghost w0: Writer, ghost x: BitString) returns (lengthPos: nat, start: nat)
    requires w.Valid() && Wrote(w.capBits, w0, w.View(), x)
    modifies w, w.bits
    ensures w.Valid() && w.pos >= old(w.pos) && start == w.pos && Wrote(w.capBits, w0, w.View(), x + Opened(id))
    ensures !w.overflow ==> lengthPos == w0.pos + |x| + 5
  {
    w.Put(1, 1, w0, x);
    w.Put(id, 4, w0, x + BitIf(true));
    lengthPos := w.pos;
    ghost var y := x + BitIf(true) + ToBits(id, 4);
    w.Put(0, 11, w0, y);
    start := w.pos;
    assert y + ToBits(0, 11) == x + Opened(id);
  }

  /** Patches the length with the number of bits written since start. */
  method CloseElement(w: WBuf, id: nat, lengthPos: nat, start: nat, ghost w0: Writer, ghost x: BitString,
                      ghost payload: BitString)
    requires w.Valid() && start <= w.pos && Wrote(w.capBits, w0, w.View(), x + Opened(id) + payload)
    requires !w.overflow ==> lengthPos == w0.pos + |x| + 5
    requires |payload| < 0x1_0000 && (!w.overflow ==> start == w0.pos + |x| + 16)
    modifies w, w.bits
    ensures w.Valid() && w.pos == old(w.pos) && Wrote(w.capBits, w0, w.View(), x + Element(id, payload))
  {
    var length := (w.pos - start) % 0x1_0000;
    LengthIsKnown(w.capBits, w0, w.View(), x, id, payload, lengthPos, length);
    w.Patch11(lengthPos, length);
  }

  lemma LengthIsKnown(cap: nat, w0: Writer, w: Writer, x: BitString, id: nat, payload: BitString, at: nat, length: nat)
    requires Wrote(cap, w0, w, x + Opened(id) + payload)
    requires !w.overflow ==> at == w0.pos + |x| + 5 && length == |payload|
    ensures Wrote(cap, w0, Patched(cap, w, at, length), x + Element(id, payload))
  {
    var pre := x + (BitIf(true) + ToBits(id, 4));
    Regroup5(x, BitIf(true), ToBits(id, 4), ToBits(0, 11), payload);
    Regroup5(x, BitIf(true), ToBits(id, 4), ToBits(|payload|, 11), payload);
    PatchFills(cap, w0, w, pre, payload, at, length);
    if w.overflow {
      OnlyLengthMatters(cap, w0, Patched(cap, w, at, length), pre + ToBits(length, 11) + payload,
                        x + Element(id, payload));
    }
  }

  lemma Regroup5(x: BitString, a: BitString, b: BitString, c: BitString, d: BitString)
    ensures x + (a + b + c) + d == (x + (a + b)) + c + d == x + (a + b + c + d)
  {
  }

  lemma OnlyLengthMatters(cap: nat, w0: Writer, w: Writer, x: BitString, y: BitString)
    requires w.overflow && |x| == |y| && Wrote(cap, w0, w, x)
    ensures Wrote(cap, w0, w, y)
  {
  }

  /** put_gid_downlink_list. */
  method PutGidList(w: WBuf, gs: seq<Gid>, ghost w0: Writer, ghost x: BitString)
    requires w.Valid() && Wrote(w.capBits, w0, w.View(), x) && |gs| <= GID_MAX
    modifies w, w.bits
    ensures w.Valid() && w.pos >= old(w.pos) && Wrote(w.capBits, w0, w.View(), x + GidListBits(gs))
  {
    if |gs| == 0 {
      assert x + [] == x;
      return;
    }
    var lengthPos, start := OpenElement(w, ELEM_GID, w0, x);
    ghost var y := x + Opened(ELEM_GID);
    w.Put(|gs|, 6, w0, y);
    PutGids(w, gs, w0, y + ToBits(|gs|, 6));
    Regroup2(y, ToBits(|gs|, 6), GidsBits(gs));
    GidsLength(gs);
    CloseElement(w, ELEM_GID, lengthPos, start, w0, x, GidListPayload(gs));
  }

  lemma Regroup2(x: BitString, a: BitString, b: BitString)
    ensures x + a + b == x + (a + b)
  {
  }

  method PutGids(w: WBuf, gs: seq<Gid>, ghost w0: Writer, ghost x: BitString)
    requires w.Valid() && Wrote(w.capBits, w0, w.View(), x)
    modifies w, w.bits
    ensures w.Valid() && w.pos >= old(w.pos) && Wrote(w.capBits, w0, w.View(), x + GidsBits(gs))
  {
    assert x + [] == x;
    for i := 0 to |gs|
      invariant w.Valid() && w.pos >= old(w.pos) && Wrote(w.capBits, w0, w.View(), x + GidsBits(gs[..i]))
    {
      PutGid(w, gs[i], w0, x + GidsBits(gs[..i]));
      assert gs[..i + 1][..i] == gs[..i];
      Regroup2(x, GidsBits(gs[..i]), GidBits(gs[i]));
    }
    assert gs[..|gs|] == gs;
  }

  lemma {:induction false} GidsLength(gs: seq<Gid>)
    ensures |GidsBits(gs)| <= 80 * |gs|
  {
    if gs != [] {
      GidsLength(gs[..|gs| - 1]);
    }
  }

  /** put_gila. */
  method PutGila(w: WBuf, p: Params, ghost w0: Writer, ghost x: BitString)
    requires w.Valid() && Wrote(w.capBits, w0, w.View(), x) && |p.gids| <= GID_MAX
    modifies w, w.bits
    ensures w.Valid() && w.pos >= old(w.pos) && Wrote(w.capBits, w0, w.View(), x + Element(ELEM_GILA, GilaPayload(p)))
  {
    var lengthPos, start := OpenElement(w, ELEM_GILA, w0, x);
    PutGilaPayload(w, p, w0, x + Opened(ELEM_GILA));
    GidsLength(p.gids);
    CloseElement(w, ELEM_GILA, lengthPos, start, w0, x, GilaPayload(p));
  }

  method PutGilaPayload(w: WBuf, p: Params, ghost w0: Writer, ghost x: BitString)
    requires w.Valid() && Wrote(w.capBits, w0, w.View(), x) && |p.gids| <= GID_MAX
    modifies w, w.bits
    ensures w.Valid() && w.pos >= old(w.pos) && Wrote(w.capBits, w0, w.View(), x + GilaPayload(p))
  {
    var inner := |p.gids| > 0;
    ghost var a, b, c := ToBits(p.gilaReject, 1), BitIf(false), BitIf(inner);
    w.Put(p.gilaReject, 1, w0, x);
    w.Put(0, 1, w0, x + a);
    w.Put(Bit(inner), 1, w0, x + a + b);
    ghost var tail: BitString := [];
    if inner {
      PutGidList(w, p.gids, w0, x + a + b + c);
      ghost var list := GidListBits(p.gids);
      w.Put(0, 1, w0, x + a + b + c + list);
      tail := list + BitIf(false);
      Regroup2(x + a + b + c, list, BitIf(false));
    } else {
      assert x + a + b + c + tail == x + a + b + c;
    }
    Regroup4(x, a, b, c, tail);
  }

  /** The optional part of the accept. */
  method PutOptions(w: WBuf, p: Params, ghost w0: Writer, ghost x: BitString)
    requires w.Valid() && Wrote(w.capBits, w0, w.View(), x) && |p.gids| <= GID_MAX
    modifies w, w.bits
    ensures w.Valid() && Wrote(w.capBits, w0, w.View(), x + Options(p))
  {
    ghost var z := BitIf(false);
    ghost var esi := BitIf(p.esiPresent) + (if p.esiPresent then EsiBits(p) else []);
    ghost var gila := if p.gilaPresent then Element(ELEM_GILA, GilaPayload(p)) else [];
    w.Put(0, 1, w0, x);
    w.Put(0, 1, w0, x + z);
    w.Put(0, 1, w0, x + z + z);
    PutEsi(w, p, w0, x + z + z + z);
    ghost var y := x + z + z + z + esi;
    w.Put(0, 1, w0, y);
    if p.gilaPresent {
      PutGila(w, p, w0, y + z);
    } else {
      assert y + z + gila == y + z;
    }
    w.Put(0, 1, w0, y + z + gila);
    OptionsAre(p, x, z, esi, gila);
  }

  lemma OptionsAre(p: Params, x: BitString, z: BitString, esi: BitString, gila: BitString)
    requires z == BitIf(false) && esi == BitIf(p.esiPresent) + (if p.esiPresent then EsiBits(p) else [])
    requires gila == if p.gilaPresent then Element(ELEM_GILA, GilaPayload(p)) else []
    ensures x + z + z + z + esi + z + gila + z == x + Options(p)
  {
    assert Options(p) == z + z + z + esi + z + gila + z;
    Regroup8(x, z, z, z, esi, z, gila, z);
  }

  lemma Regroup8(x: BitString, a: BitString, b: BitString, c: BitString, d: BitString, e: BitString, f: BitString,
                 g: BitString)
    ensures x + a + b + c + d + e + f + g == x + (a + b + c + d + e + f + g)
  {
    Regroup4(x, a, b, c, d);
    Regroup2(x, a + b + c + d, e);
    Regroup2(x, a + b + c + d + e, f);
    Regroup2(x, a + b + c + d + e + f, g);
  }

  method PutEsi(w: WBuf, p: Params, ghost w0: Writer, ghost x: BitString)
    requires w.Valid() && Wrote(w.capBits, w0, w.View(), x)
    modifies w, w.bits
    ensures w.Valid()
    ensures Wrote(w.capBits, w0, w.View(), x + (BitIf(p.esiPresent) + (if p.esiPresent then EsiBits(p) else [])))
  {
    w.Put(Bit(p.esiPresent), 1, w0, x);
    ghost var a := BitIf(p.esiPresent);
    if p.esiPresent {
      ghost var m, f, n := ToBits(p.esiMode, 3), ToBits(p.esiFrame, 5), ToBits(p.esiMultiframe, 6);
      w.Put(p.esiMode, 3, w0, x + a);
      w.Put(p.esiFrame, 5, w0, x + a + m);
      w.Put(p.esiMultiframe, 6, w0, x + a + m + f);
      assert x + a + m + f + n == x + (a + EsiBits(p));
    } else {
      assert a + [] == a;
    }
  }

  /** mm_build_d_loc_update_accept: succeeds exactly when all bits fit, and then the buffer
      holds them followed by zeros. */
  method Build(out: array<Byte>, capBits: nat, p: Params) returns (n: int)
    requires capBits <= 8 * out.Length && |p.gids| <= GID_MAX
    modifies out
    ensures capBits < 16 ==> n == -EINVAL && out[..] == old(out[..])
    ensures capBits >= 16 ==> n == if |AcceptBits(p)| <= capBits then |AcceptBits(p)| else -ENOSPC
    ensures n >= 0 ==> n <= capBits && Unpack(out[..])[..n] == AcceptBits(p)
    ensures n >= 0 ==> forall i :: n <= i < capBits ==> !Unpack(out[..])[i]
  {
    if capBits < 16 {
      return -EINVAL;
    }
    var used := (capBits + 7) / 8;
    Zero(out, used);
    ZeroBits(out[..], used);
    var w := new WBuf(out, capBits);
    ghost var w0 := w.View();
    PutAccept(w, p);
    if w.overflow {
      return -ENOSPC;
    }
    n := w.pos;
    AtTheStart(w0.bits, AcceptBits(p), capBits);
  }

  lemma AtTheStart(b: BitString, x: BitString, cap: nat)
    requires |x| <= cap <= |b| && forall i :: 0 <= i < cap ==> !b[i]
    ensures Spliced(b, 0, x)[..|x|] == x && forall i :: |x| <= i < cap ==> !Spliced(b, 0, x)[i]
  {
  }

  method PutAccept(w: WBuf, p: Params)
    requires w.Valid() && w.pos == 0 && !w.overflow && |p.gids| <= GID_MAX
    modifies w, w.bits
    ensures w.Valid() && Wrote(w.capBits, old(w.View()), w.View(), AcceptBits(p))
  {
    ghost var w0 := w.View();
    WroteNothing(w.capBits, w0);
    var obit := p.esiPresent || p.gilaPresent;
    ghost var a, b, c := ToBits(ACCEPT_TYPE, 4), ToBits(p.acceptType, 3), BitIf(obit);
    w.Put(ACCEPT_TYPE, 4, w0, []);
    w.Put(p.acceptType, 3, w0, [] + a);
    w.Put(Bit(obit), 1, w0, [] + a + b);
    ghost var tail: BitString := [];
    if obit {
      PutOptions(w, p, w0, [] + a + b + c);
      tail := Options(p);
    } else {
      assert [] + a + b + c + tail == [] + a + b + c;
    }
    Regroup4([], a, b, c, tail);
    assert [] + (a + b + c + tail) == AcceptBits(p);
  }

  /** memset to zero. */
  method Zero(out: array<Byte>, n: nat)
    requires n <= out.Length
    modifies out
    ensures forall i :: 0 <= i < out.Length ==> out[i] == if i < n then 0 else old(out[i])
  {
    for i := 0 to n
      invariant forall j :: 0 <= j < out.Length ==> out[j] == if j < i then 0 else old(out[j])
    {
      out[i] := 0;
    }
  }

  lemma {:induction false} ZeroBits(s: seq<Byte>, n: nat)
    requires n <= |s| && forall i :: 0 <= i < n ==> s[i] == 0
    ensures forall i :: 0 <= i < 8 * n ==> !Unpack(s)[i]
    decreases |s|
  {
    if n > 0 {
      if n == |s| {
        ZeroBits(s[..n - 1], n - 1);
        ZeroWordBits(8);
      } else {
        ZeroBits(s[..|s| - 1], n);
      }
    }
  }
}
