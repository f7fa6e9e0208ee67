/** The LLC entity: the eight-slot endpoint table, the two senders and the receive handler.
    The table is proved to behave as one endpoint state per identifier, an unknown
    identifier being a fresh endpoint.  Whether the bus takes a message is a parameter. */
module LlcEntity {
  import opened Errno
  import opened Bits
  import opened BitBuffer
  import opened LlcPdu
  import opened LlcPduReader
  import opened LlcEndpoint

  const MAX_ENDPOINTS: nat := 8
  const TMA_SDU_MAX_BYTES: nat := 64

  datatype Address = Address(ssi: nat, ssiType: nat)

  /** TmaUnitdataInd and TmaUnitdataReq. */
  datatype Unitdata = Unitdata(endpoint: int, addr: Address, lenBits: nat, bytes: seq<Byte>)

  datatype TleMsg = TleMsg(endpoint: int, addr: Address, pdu: Pdu)

  // ----- The table as one state per identifier -----

  ghost predicate Slot(t: seq<Endpoint>, i: int, id: int) {
    0 <= i < |t| && t[i].inUse && t[i].id == id
  }

  ghost predicate Distinct(t: seq<Endpoint>) {
    forall i, j, id :: Slot(t, i, id) && Slot(t, j, id) ==> i == j
  }

  ghost predicate Known(t: seq<Endpoint>, id: int) {
    exists i :: Slot(t, i, id)
  }

  ghost predicate Full(t: seq<Endpoint>) {
    forall i :: 0 <= i < |t| ==> t[i].inUse
  }

  ghost predicate CanServe(t: seq<Endpoint>, id: int) {
    Known(t, id) || !Full(t)
  }

  ghost function StateOf(t: seq<Endpoint>, id: int): Endpoint {
    if Known(t, id) then var i :| Slot(t, i, id); t[i] else Fresh(id)
  }

  /** t' is t with id's state set to ep and every other identifier as it was. */
  ghost predicate Updated(t: seq<Endpoint>, t': seq<Endpoint>, id: int, ep: Endpoint) {
    && Distinct(t') && |t'| == |t| && Known(t', id) && StateOf(t', id) == ep
    && (forall j :: j != id ==> Known(t', j) == Known(t, j) && StateOf(t', j) == StateOf(t, j))
  }

  /** All that an operation for identifier id may do to the table. */
  ghost predicate Touches(t: seq<Endpoint>, t': seq<Endpoint>, id: int) {
    t' == t || (CanServe(t, id) && exists ep :: Updated(t, t', id, ep))
  }

  /** A send leaves what goes up and every expected number alone. */
  ghost predicate SendsOnly(s: Snapshot, s': Snapshot, id: int) {
    && s'.up == s.up
    && (s'.table == s.table
        || exists ep :: Updated(s.table, s'.table, id, ep) && ep.nrExpected == StateOf(s.table, id).nrExpected)
  }

  lemma StateAt(t: seq<Endpoint>, i: int, id: int)
    requires Distinct(t) && Slot(t, i, id)
    ensures Known(t, id) && StateOf(t, id) == t[i]
  {
  }

  lemma OtherState(t: seq<Endpoint>, k: nat, id: int, ep: Endpoint, j: int)
    requires k < |t| && Distinct(t) && ep.id == id && j != id && (t[k].inUse ==> t[k].id == id)
    requires Distinct(t[k := ep])
    ensures Known(t[k := ep], j) == Known(t, j) && StateOf(t[k := ep], j) == StateOf(t, j)
  {
    var t' := t[k := ep];
    if Known(t, j) {
      var i :| Slot(t, i, j);
      StateAt(t, i, j);
      assert Slot(t', i, j);
      StateAt(t', i, j);
    }
    if Known(t', j) {
      var i :| Slot(t', i, j);
      assert Slot(t, i, j);
    }
  }

  /** Writing a slot that is id's, or a free one when id has none. */
  lemma WriteSlot(t: seq<Endpoint>, k: nat, id: int, ep: Endpoint)
    requires k < |t| && Distinct(t) && ep.id == id && ep.inUse
    requires Slot(t, k, id) || (!t[k].inUse && !Known(t, id))
    ensures Updated(t, t[k := ep], id, ep)
  {
    var t' := t[k := ep];
    forall i, j, d | Slot(t', i, d) && Slot(t', j, d) ensures i == j {
      if d == id {
        assert i != k ==> Slot(t, i, id);
        assert j != k ==> Slot(t, j, id);
      } else {
        assert Slot(t, i, d) && Slot(t, j, d);
      }
    }
    assert Slot(t', k, id);
    StateAt(t', k, id);
    forall j | j != id ensures Known(t', j) == Known(t, j) && StateOf(t', j) == StateOf(t, j) {
      OtherState(t, k, id, ep, j);
    }
  }

  lemma UpdatedTwice(t: seq<Endpoint>, t': seq<Endpoint>, t'': seq<Endpoint>, id: int, ep: Endpoint, ep': Endpoint)
    requires Updated(t, t', id, ep) && Updated(t', t'', id, ep')
    ensures Updated(t, t'', id, ep')
  {
  }

  // ----- Encoding and classifying -----

  /** encode_to_bytes, with the copy into the request's zeroed buffer. */
  method EncodeToBytes(p: Pdu, cap: nat) returns (rc: int, bytes: seq<Byte>, len: nat)
    requires WellFormed(p) && Encodable(p) && |PduBits(p)| <= 8 * cap && cap <= TMA_SDU_MAX_BYTES
    ensures rc == 0 && len == |PduBits(p)| && |bytes| == TMA_SDU_MAX_BYTES && Unpack(bytes)[..len] == PduBits(p)
  {
    var buf := new Byte[cap](_ => 0);
    var bb := new BitBuffer.Expanding(buf, 8 * cap);
    ghost var c := bb.View();
    var n := Encode(bb, p);
    rc, len := 0, n;
    AfterHolds(c, PduBits(p));
    var used := BytesFor(len);
    bytes := buf[..used] + seq(TMA_SDU_MAX_BYTES - used, _ => 0);
    SameBits(buf[..], bytes, used, len, PduBits(p));
  }

  lemma SameBits(s: seq<Byte>, t: seq<Byte>, used: nat, len: nat, x: BitString)
    requires used <= |s| && used <= |t| && s[..used] == t[..used] && len <= 8 * used && Unpack(s)[0..len] == x
    ensures Unpack(t)[..len] == x
  {
    UnpackPrefix(s, used, len);
    UnpackPrefix(t, used, len);
    assert Unpack(s)[0..len] == Unpack(s)[..len];
  }

  method ClassifySdu(bytes: seq<Byte>, len: nat) returns (v: Verdict)
    requires |bytes| == TMA_SDU_MAX_BYTES && 0 < len <= 8 * TMA_SDU_MAX_BYTES
    ensures v == Classify(Unpack(bytes)[..len])
  {
    ghost var sdu := Unpack(bytes)[..len];
    var buf := new Byte[TMA_SDU_MAX_BYTES](i requires 0 <= i < TMA_SDU_MAX_BYTES => bytes[i]);
    assert buf[..] == bytes;
    var bb := new BitBuffer(buf, len);
    assert bb.Ahead() == sdu;
    if len < 4 {
      return Malformed(-EPROTO, false);
    }
    var t := bb.GetBits(4);
    FromToBits(t, 4);
    if !ValidType(t) {
      return Malformed(-EPROTO, true);
    }
    if len < Overhead(t) || BodyLenOf(t, len) > 8 * BODY_MAX_BYTES {
      return Malformed(-EPROTO, false);
    }
    bb.Seek(0);
    assert bb.Ahead() == sdu;
    var rc, p := Decode(bb, Blank().(bodyLen := BodyLenOf(t, len)));
    if rc != 0 {
      return Malformed(rc, false);
    }
    if HasFcs(p.pduType) && !p.fcsValid {
      return BadChecksum;
    }
    v := Good(p);
  }

  // ----- The entity -----

  /** r carries exactly the given bits for the given endpoint and address. */
  ghost predicate Carries(r: Unitdata, id: int, addr: Address, sdu: BitString) {
    r.endpoint == id && r.addr == addr && |r.bytes| == TMA_SDU_MAX_BYTES && r.lenBits <= 8 * TMA_SDU_MAX_BYTES
    && Unpack(r.bytes)[..r.lenBits] == sdu
  }

  /** The one request that was added to a list, when posted. */
  ghost predicate Posted(before: seq<Unitdata>, after: seq<Unitdata>, posted: bool, id: int, addr: Address,
                         sdu: BitString)
  {
    if posted then |after| == |before| + 1 && after[..|before|] == before && Carries(after[|before|], id, addr, sdu)
    else after == before
  }

  datatype Stats = Stats(pdusRx: nat, pdusTx: nat, fcsFailures: nat, unknownPduType: nat)

  datatype Snapshot = Snapshot(table: seq<Endpoint>, down: seq<Unitdata>, up: seq<TleMsg>, stats: Stats)

  /** A good PDU for an endpoint that has or can get a slot. */
  ghost predicate Served(s: Snapshot, s': Snapshot, ind: Unitdata, p: Pdu, upRc: int, ackRc: int) {
    var ep := StateOf(s.table, ind.endpoint);
    var ep' := AfterReceive(ep, p);
    var acked := IsData(p) && ackRc == 0;
    && Updated(s.table, s'.table, ind.endpoint, ep')
    && s'.up == s.up + (if GoesUp(ep, p) && upRc == 0 then [TleMsg(ind.endpoint, ind.addr, p)] else [])
    && Posted(s.down, s'.down, acked, ind.endpoint, ind.addr, AckBits(ep'.nrExpected))
    && s'.stats == s.stats.(pdusRx := s.stats.pdusRx + 1, pdusTx := s.stats.pdusTx + Bit(acked))
  }

  /** The whole effect of the receive handler. */
  ghost predicate Handled(s: Snapshot, s': Snapshot, ind: Unitdata, upRc: int, ackRc: int, rc: int)
    requires |ind.bytes| == TMA_SDU_MAX_BYTES
  {
    if ind.lenBits == 0 || ind.lenBits > 8 * TMA_SDU_MAX_BYTES then rc == -EINVAL && s' == s
    else
      match Classify(Unpack(ind.bytes)[..ind.lenBits])
      case Malformed(e, unknown) =>
        rc == e && s' == s.(stats := s.stats.(unknownPduType := s.stats.unknownPduType + Bit(unknown)))
      case BadChecksum =>
        rc == 0 && s' == s.(stats := s.stats.(pdusRx := s.stats.pdusRx + 1, fcsFailures := s.stats.fcsFailures + 1))
      case Good(p) =>
        if CanServe(s.table, ind.endpoint) then rc == 0 && Served(s, s', ind, p, upRc, ackRc)
        else rc == -ENOSPC && s' == s.(stats := s.stats.(pdusRx := s.stats.pdusRx + 1))
  }

  /** The whole effect of the data sender. */
  ghost predicate SentData(s: Snapshot, s': Snapshot, id: int, addr: Address, body: seq<Byte>, len: nat, postRc: int,
                           rc: int)
    requires len <= 8 * BODY_MAX_BYTES ==> len <= 8 * |body|
  {
    if len > 8 * BODY_MAX_BYTES then rc == -EINVAL && s' == s
    else if !CanServe(s.table, id) then rc == -ENOSPC && s' == s
    else
      var ep := StateOf(s.table, id);
      && rc == (if ep.awaitingAck then -EBUSY else postRc) && s'.up == s.up
      && Updated(s.table, s'.table, id, if rc == 0 then AfterSend(ep, DataPdu(ep.nsSend, body, len)) else ep)
      && Posted(s.down, s'.down, rc == 0, id, addr, DataBits(ep.nsSend, Unpack(body)[..len]))
      && s'.stats == s.stats.(pdusTx := s.stats.pdusTx + Bit(rc == 0))
  }

  class Llc {
    const endpoints: array<Endpoint>
    var stats: Stats
    /** What the bus has taken, towards the MAC and towards the MLE. */
    var down: seq<Unitdata>
    var up: seq<TleMsg>

    ghost predicate Valid()
      reads this, endpoints
    {
      endpoints.Length == MAX_ENDPOINTS && Distinct(endpoints[..])
    }

    ghost function View(): (s: Snapshot)
      reads this, endpoints
    {
      Snapshot(endpoints[..], down, up, stats)
    }

    constructor ()
      ensures Valid() && fresh(endpoints) && down == [] && up == [] && stats == Stats(0, 0, 0, 0)
      ensures forall id :: !Known(endpoints[..], id)
    {
      endpoints := new Endpoint[MAX_ENDPOINTS](_ => Fresh(0).(inUse := false));
      down, up, stats := [], [], Stats(0, 0, 0, 0);
    }

    /** endpoint_find. */
    method Find(id: int) returns (k: nat)
      requires Valid()
      ensures k <= MAX_ENDPOINTS
      ensures k < MAX_ENDPOINTS ==> Slot(endpoints[..], k, id)
      ensures k == MAX_ENDPOINTS ==> !Known(endpoints[..], id)
    {
      k := 0;
      while k < MAX_ENDPOINTS
        invariant k <= MAX_ENDPOINTS && forall i :: 0 <= i < k ==> !Slot(endpoints[..], i, id)
      {
        if endpoints[k].inUse && endpoints[k].id == id {
          return;
        }
        k := k + 1;
      }
    }

    /** endpoint_alloc. */
    method Alloc(id: int) returns (k: nat)
      requires Valid() && !Known(endpoints[..], id)
      modifies endpoints
      ensures Valid() && k <= MAX_ENDPOINTS
      ensures k == MAX_ENDPOINTS <==> Full(old(endpoints[..]))
      ensures k == MAX_ENDPOINTS ==> endpoints[..] == old(endpoints[..])
      ensures k < MAX_ENDPOINTS ==>
        Slot(endpoints[..], k, id) && Updated(old(endpoints[..]), endpoints[..], id, Fresh(id))
    {
      k := 0;
      while k < MAX_ENDPOINTS
        invariant k <= MAX_ENDPOINTS && forall i :: 0 <= i < k ==> endpoints[i].inUse
        invariant endpoints[..] == old(endpoints[..])
      {
        if !endpoints[k].inUse {
          WriteSlot(endpoints[..], k, id, Fresh(id));
          endpoints[k] := Fresh(id);
          assert endpoints[..] == old(endpoints[..])[k := Fresh(id)];
          return;
        }
        k := k + 1;
      }
    }

    /** llc_endpoint_lookup: refused only when id is unknown and no slot is free. */
    method Lookup(id: int) returns (k: nat)
      requires Valid()
      modifies endpoints
      ensures Valid() && k <= MAX_ENDPOINTS
      ensures k < MAX_ENDPOINTS <==> CanServe(old(endpoints[..]), id)
      ensures k == MAX_ENDPOINTS ==> endpoints[..] == old(endpoints[..])
      ensures k < MAX_ENDPOINTS ==>
        && Slot(endpoints[..], k, id) && endpoints[k] == StateOf(old(endpoints[..]), id)
        && Updated(old(endpoints[..]), endpoints[..], id, endpoints[k])
    {
      k := Find(id);
      if k == MAX_ENDPOINTS {
        k := Alloc(id);
        if k < MAX_ENDPOINTS {
          StateAt(endpoints[..], k, id);
        }
      } else {
        StateAt(endpoints[..], k, id);
      }
    }

    /** Stores a new state in a slot found by Lookup. */
    method Store(k: nat, ep: Endpoint, ghost was: seq<Endpoint>, ghost held: Endpoint)
      requires Valid() && Slot(endpoints[..], k, ep.id) && ep.inUse && Updated(was, endpoints[..], ep.id, held)
      modifies endpoints
      ensures Valid() && Slot(endpoints[..], k, ep.id) && endpoints[k] == ep && Updated(was, endpoints[..], ep.id, ep)
    {
      ghost var t := endpoints[..];
      WriteSlot(t, k, ep.id, ep);
      UpdatedTwice(was, t, t[k := ep], ep.id, held, ep);
      endpoints[k] := ep;
      assert endpoints[..] == t[k := ep];
    }

    /** Builds the request and posts it; the bus answers postRc. */
    method PostDown(id: int, addr: Address, p: Pdu, cap: nat, postRc: int)
      requires WellFormed(p) && Encodable(p) && |PduBits(p)| <= 8 * cap && cap <= TMA_SDU_MAX_BYTES
      modifies this`down, this`stats
      ensures Posted(old(down), down, postRc == 0, id, addr, PduBits(p))
      ensures stats == if postRc == 0 then old(stats).(pdusTx := old(stats).pdusTx + 1) else old(stats)
    {
      var rc, bytes, bits := EncodeToBytes(p, cap);
      if postRc == 0 {
        down := down + [Unitdata(id, addr, bits, bytes)];
        stats := stats.(pdusTx := stats.pdusTx + 1);
      }
    }

    /** llc_send_bl_data. */
    method SendBlData(id: int, addr: Address, body: seq<Byte>, len: nat, postRc: int) returns (rc: int)
      requires Valid() && (len <= 8 * BODY_MAX_BYTES ==> len <= 8 * |body|)
      modifies this`down, this`stats, endpoints
      ensures Valid() && Touches(old(endpoints[..]), endpoints[..], id) && SendsOnly(old(View()), View(), id)
      ensures SentData(old(View()), View(), id, addr, body, len, postRc, rc)
    {
      if len > 8 * BODY_MAX_BYTES {
        return -EINVAL;
      }
      var k := Lookup(id);
      if k == MAX_ENDPOINTS {
        return -ENOSPC;
      }
      var ep := endpoints[k];
      if ep.awaitingAck {
        return -EBUSY;
      }
      var p := DataPdu(ep.nsSend, body, len);
      DataPduBits(ep.nsSend, body, len);
      PostDown(id, addr, p, BODY_MAX_BYTES + 8, postRc);
      if postRc != 0 {
        return postRc;
      }
      Store(k, AfterSend(ep, p), old(endpoints[..]), ep);
      rc := 0;
    }

    /** llc_send_bl_ack. */
    method SendBlAck(id: int, addr: Address, postRc: int) returns (rc: int)
      requires Valid()
      modifies this`down, this`stats, endpoints
      ensures Valid() && Touches(old(endpoints[..]), endpoints[..], id) && SendsOnly(old(View()), View(), id)
      ensures rc == if CanServe(old(endpoints[..]), id) then postRc else -ENOSPC
      ensures !CanServe(old(endpoints[..]), id) ==>
        endpoints[..] == old(endpoints[..]) && down == old(down) && stats == old(stats)
      ensures CanServe(old(endpoints[..]), id) ==>
        && Updated(old(endpoints[..]), endpoints[..], id, StateOf(old(endpoints[..]), id))
        && Posted(old(down), down, postRc == 0, id, addr, AckBits(StateOf(old(endpoints[..]), id).nrExpected))
        && stats == if postRc == 0 then old(stats).(pdusTx := old(stats).pdusTx + 1) else old(stats)
    {
      var k := Lookup(id);
      if k == MAX_ENDPOINTS {
        return -ENOSPC;
      }
      AckPduBits(endpoints[k].nrExpected);
      PostDown(id, addr, AckPdu(endpoints[k].nrExpected), 8, postRc);
      rc := postRc;
    }

    /** llc_post_to_mle. */
    method PostUp(msg: TleMsg, postRc: int)
      modifies this`up
      ensures up == old(up) + if postRc == 0 then [msg] else []
    {
      if postRc == 0 {
        up := up + [msg];
      }
    }

    /** The switch on the PDU type, for the endpoint in slot k. */
    method ServePdu(k: nat, ind: Unitdata, p: Pdu, upRc: int, ackRc: int, ghost s: Snapshot)
      requires Valid() && Slot(endpoints[..], k, ind.endpoint)
      requires Updated(s.table, endpoints[..], ind.endpoint, endpoints[k])
      requires endpoints[k] == StateOf(s.table, ind.endpoint)
      requires down == s.down && up == s.up && stats == s.stats.(pdusRx := s.stats.pdusRx + 1)
      modifies this, endpoints
      ensures Valid() && Served(s, View(), ind, p, upRc, ackRc)
    {
      var ep := endpoints[k];
      if IsData(p) {
        if p.ns == ep.nrExpected {
          Store(k, ep.(nrExpected := Flip(ep.nrExpected)), s.table, ep);
          PostUp(TleMsg(ind.endpoint, ind.addr, p), upRc);
        }
        Acknowledge(ind, ackRc, s.table);
      } else if IsAck(p) {
        if ep.awaitingAck && p.nr == ep.nsSend {
          Store(k, ep.(awaitingAck := false, retxCount := 0), s.table, ep);
        }
      } else {
        PostUp(TleMsg(ind.endpoint, ind.addr, p), upRc);
      }
    }

    /** The handler's own call of llc_send_bl_ack: the slot is there already. */
    method Acknowledge(ind: Unitdata, ackRc: int, ghost was: seq<Endpoint>)
      requires Valid() && Updated(was, endpoints[..], ind.endpoint, StateOf(endpoints[..], ind.endpoint))
      modifies this`down, this`stats, endpoints
      ensures Valid() && up == old(up)
      ensures Updated(was, endpoints[..], ind.endpoint, StateOf(old(endpoints[..]), ind.endpoint))
      ensures Posted(old(down), down, ackRc == 0, ind.endpoint, ind.addr,
                     AckBits(StateOf(old(endpoints[..]), ind.endpoint).nrExpected))
      ensures stats == old(stats).(pdusTx := old(stats).pdusTx + Bit(ackRc == 0))
    {
      ghost var ep := StateOf(endpoints[..], ind.endpoint);
      ghost var t := endpoints[..];
      var _ := SendBlAck(ind.endpoint, ind.addr, ackRc);
      UpdatedTwice(was, t, endpoints[..], ind.endpoint, ep, ep);
    }

    /** llc_handle_tma_unitdata_ind. */
    method HandleUnitdataInd(ind: Unitdata, upRc: int, ackRc: int) returns (rc: int)
      requires Valid() && |ind.bytes| == TMA_SDU_MAX_BYTES
      modifies this, endpoints
      ensures Valid() && Handled(old(View()), View(), ind, upRc, ackRc, rc)
      ensures Touches(old(endpoints[..]), endpoints[..], ind.endpoint)
    {
      ghost var s := View();
      if ind.lenBits == 0 || ind.lenBits > 8 * TMA_SDU_MAX_BYTES {
        return -EINVAL;
      }
      var v := ClassifySdu(ind.bytes, ind.lenBits);
      if v.Malformed? {
        if v.unknownType {
          stats := stats.(unknownPduType := stats.unknownPduType + 1);
        }
        return v.rc;
      }
      stats := stats.(pdusRx := stats.pdusRx + 1);
      if v.BadChecksum? {
        stats := stats.(fcsFailures := stats.fcsFailures + 1);
        return 0;
      }
      var k := Lookup(ind.endpoint);
      if k == MAX_ENDPOINTS {
        return -ENOSPC;
      }
      ServePdu(k, ind, v.pdu, upRc, ackRc, s);
      rc := 0;
    }
  }
}
