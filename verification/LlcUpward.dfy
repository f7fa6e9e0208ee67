/** What reaches the MLE over whole runs of the LLC entity: of the data frames for an endpoint,
    the bodies of those that continue its sequence, once each and in order. */
module LlcUpward {
  import opened Bits
  import opened Errno
  import opened LlcPdu
  import opened LlcEndpoint
  import opened LlcEntity

  // ----- What an SDU says -----

  /** The types with a send number, and the acknowledgements. */
  const DATA_TYPES: set<nat> := {0, 1, 4, 5}
  const ACK_TYPES: set<nat> := {3, 7}

  function SduOf(ind: Unitdata): BitString
    requires |ind.bytes| == TMA_SDU_MAX_BYTES
  {
    if ind.lenBits <= 8 * TMA_SDU_MAX_BYTES then Unpack(ind.bytes)[..ind.lenBits] else []
  }

  /** The SDU is data with the given send number. */
  predicate Numbered(sdu: BitString, n: Modulo2) {
    var v := Classify(sdu);
    v.Good? && v.pdu.pduType in DATA_TYPES && v.pdu.ns == n
  }

  /** The body of a PDU. */
  function BodyOf(p: Pdu): BitString {
    if p.bodyLen <= |Unpack(p.body)| then Unpack(p.body)[..p.bodyLen] else []
  }

  function BodyIn(sdu: BitString): BitString {
    if Classify(sdu).Good? then BodyOf(Classify(sdu).pdu) else []
  }

  // ----- One SDU -----

  /** The handler ran on ind and all its answers are known. */
  ghost predicate Ran(s: Snapshot, s': Snapshot, ind: Unitdata, upRc: int, ackRc: int, rc: int) {
    |ind.bytes| == TMA_SDU_MAX_BYTES && Handled(s, s', ind, upRc, ackRc, rc)
  }

  /** What one SDU for a served endpoint posts up when the bus takes it: data exactly when its
      number is the expected one, an acknowledgement never, everything else always. */
  lemma PostedUpIff(s: Snapshot, s': Snapshot, ind: Unitdata, ackRc: int, rc: int)
    requires Ran(s, s', ind, 0, ackRc, rc) && Classify(SduOf(ind)).Good? && CanServe(s.table, ind.endpoint)
    ensures var p := Classify(SduOf(ind)).pdu;
      s'.up == s.up + if p.pduType in DATA_TYPES && p.ns != StateOf(s.table, ind.endpoint).nrExpected then []
                      else if p.pduType in ACK_TYPES then [] else [TleMsg(ind.endpoint, ind.addr, p)]
  {
    var p := Classify(SduOf(ind)).pdu;
    TypeOfData(p);
    ServedUp(s, s', ind, p, ackRc);
  }

  lemma ServedUp(s: Snapshot, s': Snapshot, ind: Unitdata, p: Pdu, ackRc: int)
    requires Served(s, s', ind, p, 0, ackRc)
    ensures s'.up == s.up + if IsData(p) && p.ns != StateOf(s.table, ind.endpoint).nrExpected then []
                            else if !IsData(p) && IsAck(p) then [] else [TleMsg(ind.endpoint, ind.addr, p)]
  {
  }

  /** So of a data frame, its body goes up exactly when its number is the expected one. */
  lemma DataGoesUpIff(s: Snapshot, s': Snapshot, ind: Unitdata, ackRc: int, rc: int, ns: Modulo2, x: BitString)
    requires Ran(s, s', ind, 0, ackRc, rc) && CanServe(s.table, ind.endpoint)
    requires SduOf(ind) == DataBits(ns, x) && |x| <= 8 * BODY_MAX_BYTES
    ensures if ns == StateOf(s.table, ind.endpoint).nrExpected
      then |s'.up| == |s.up| + 1 && s'.up[..|s.up|] == s.up && s'.up[|s.up|].endpoint == ind.endpoint
           && s'.up[|s.up|].addr == ind.addr && BodyOf(s'.up[|s.up|].pdu) == x
      else s'.up == s.up
  {
    DataIsUnderstood(ns, x);
    TypeOfData(Classify(SduOf(ind)).pdu);
    PostedUpIff(s, s', ind, ackRc, rc);
  }

  lemma TypeOfData(p: Pdu)
    ensures IsData(p) <==> p.pduType in DATA_TYPES
    ensures IsAck(p) <==> p.pduType in ACK_TYPES
  {
  }

  /** And an acknowledgement posts nothing. */
  lemma AckStays(s: Snapshot, s': Snapshot, ind: Unitdata, ackRc: int, rc: int, nr: Modulo2)
    requires Ran(s, s', ind, 0, ackRc, rc) && CanServe(s.table, ind.endpoint) && SduOf(ind) == AckBits(nr)
    ensures s'.up == s.up
  {
    AckIsUnderstood(nr);
    TypeOfData(Classify(SduOf(ind)).pdu);
    PostedUpIff(s, s', ind, ackRc, rc);
  }

  /** What is counted: an SDU that is a PDU, whether its checksum holds or not and whether its
      endpoint can be served or not; a checksum that does not hold; a type that is unknown; and
      every acknowledgement sent, which only data cause. */
  lemma CountsOf(s: Snapshot, s': Snapshot, ind: Unitdata, upRc: int, ackRc: int, rc: int)
    requires Ran(s, s', ind, upRc, ackRc, rc)
    ensures var v, c, d := Classify(SduOf(ind)), s.stats, s'.stats;
      var acked := v.Good? && v.pdu.pduType in DATA_TYPES && CanServe(s.table, ind.endpoint) && ackRc == 0;
      && d.pdusRx == c.pdusRx + Bit(!v.Malformed?) && d.fcsFailures == c.fcsFailures + Bit(v.BadChecksum?)
      && d.unknownPduType == c.unknownPduType + Bit(v.Malformed? && v.unknownType)
      && d.pdusTx == c.pdusTx + Bit(acked) && |s'.down| == |s.down| + Bit(acked)
      && rc == if v.Malformed? then v.rc else if v.Good? && !CanServe(s.table, ind.endpoint) then -ENOSPC else 0
  {
    var v := Classify(SduOf(ind));
    if v.Good? {
      TypeOfData(v.pdu);
    }
  }

  // ----- Runs -----

  /** An operation of the entity: a send for an endpoint, or an SDU and what the bus answers. */
  datatype Op = Sends(id: int) | Gets(ind: Unitdata, upRc: int, ackRc: int, rc: int)

  ghost predicate Does(s: Snapshot, s': Snapshot, x: Op) {
    match x
    case Sends(id) => SendsOnly(s, s', id)
    case Gets(ind, upRc, ackRc, rc) => Ran(s, s', ind, upRc, ackRc, rc)
  }

  ghost predicate Run(snaps: seq<Snapshot>, xs: seq<Op>) {
    && |snaps| == |xs| + 1
    && forall k :: 0 <= k < |xs| ==> Does(snaps[k], snaps[k + 1], xs[k])
  }

  /** x brings the endpoint data with number n. */
  predicate Brings(x: Op, id: int, n: Modulo2) {
    x.Gets? && |x.ind.bytes| == TMA_SDU_MAX_BYTES && x.ind.endpoint == id && Numbered(SduOf(x.ind), n)
  }

  /** The bodies that continue the endpoint's sequence from number n on, those the bus refuses
      left out: each one found moves the number on. */
  function Continuing(xs: seq<Op>, id: int, n: Modulo2): seq<BitString> {
    if xs == [] then []
    else if !Brings(xs[0], id, n) then Continuing(xs[1..], id, n)
    else (if xs[0].upRc == 0 then [BodyIn(SduOf(xs[0].ind))] else []) + Continuing(xs[1..], id, Flip(n))
  }

  /** The bodies of the data messages for the endpoint among those posted up. */
  function DataUp(up: seq<TleMsg>, id: int): seq<BitString> {
    if up == [] then []
    else
      var m := up[|up| - 1];
      DataUp(up[..|up| - 1], id) + if m.endpoint == id && m.pdu.pduType in DATA_TYPES then [BodyOf(m.pdu)] else []
  }

  lemma DataUpPush(up: seq<TleMsg>, m: TleMsg, id: int)
    ensures DataUp(up + [m], id)
         == DataUp(up, id) + if m.endpoint == id && m.pdu.pduType in DATA_TYPES then [BodyOf(m.pdu)] else []
  {
    assert (up + [m])[..|up|] == up;
  }

  /** What one operation adds, and the number expected after it. */
  function Adds(x: Op, id: int, n: Modulo2): seq<BitString> {
    if Brings(x, id, n) && x.upRc == 0 then [BodyIn(SduOf(x.ind))] else []
  }

  function NumberAfter(x: Op, id: int, n: Modulo2): Modulo2 {
    if Brings(x, id, n) then Flip(n) else n
  }

  /** One operation, for an endpoint that has its slot. */
  ghost predicate Moves(s: Snapshot, s': Snapshot, x: Op, id: int) {
    var n := StateOf(s.table, id).nrExpected;
    && Distinct(s'.table) && Known(s'.table, id)
    && DataUp(s'.up, id) == DataUp(s.up, id) + Adds(x, id, n)
    && StateOf(s'.table, id).nrExpected == NumberAfter(x, id, n)
  }

  lemma SendMoves(s: Snapshot, s': Snapshot, x: Op, id: int)
    requires Distinct(s.table) && Known(s.table, id) && x.Sends? && Does(s, s', x)
    ensures Moves(s, s', x, id)
  {
    assert DataUp(s.up, id) + [] == DataUp(s.up, id);
  }

  lemma NothingMoves(s: Snapshot, s': Snapshot, x: Op, id: int)
    requires Distinct(s.table) && Known(s.table, id) && s'.table == s.table && s'.up == s.up
    requires !Brings(x, id, StateOf(s.table, id).nrExpected)
    ensures Moves(s, s', x, id)
  {
    assert DataUp(s.up, id) + [] == DataUp(s.up, id);
  }

  lemma ServedMoves(s: Snapshot, s': Snapshot, x: Op, id: int, p: Pdu)
    requires Distinct(s.table) && Known(s.table, id) && x.Gets? && |x.ind.bytes| == TMA_SDU_MAX_BYTES
    requires Classify(SduOf(x.ind)) == Good(p) && Served(s, s', x.ind, p, x.upRc, x.ackRc)
    ensures Moves(s, s', x, id)
  {
    TypeOfData(p);
    var m := TleMsg(x.ind.endpoint, x.ind.addr, p);
    DataUpPush(s.up, m, id);
    assert s.up + [] == s.up && DataUp(s.up, id) + [] == DataUp(s.up, id);
  }

  lemma GetMoves(s: Snapshot, s': Snapshot, x: Op, id: int)
    requires Distinct(s.table) && Known(s.table, id) && x.Gets? && Does(s, s', x)
    ensures Moves(s, s', x, id)
  {
    var sdu := SduOf(x.ind);
    if x.ind.lenBits == 0 || x.ind.lenBits > 8 * TMA_SDU_MAX_BYTES {
      NothingMoves(s, s', x, id);
    } else if !Classify(sdu).Good? || !CanServe(s.table, x.ind.endpoint) {
      NothingMoves(s, s', x, id);
    } else {
      ServedMoves(s, s', x, id, Classify(sdu).pdu);
    }
  }

  /** Over every run, whatever arrives, repeats or is missing, the data posted up for an endpoint
      that has its slot are exactly the bodies that continue its sequence, in order. */
  lemma {:induction false} UpIsTheSequence(snaps: seq<Snapshot>, xs: seq<Op>, id: int)
    requires Run(snaps, xs) && Distinct(snaps[0].table) && Known(snaps[0].table, id)
    ensures DataUp(snaps[|xs|].up, id)
         == DataUp(snaps[0].up, id) + Continuing(xs, id, StateOf(snaps[0].table, id).nrExpected)
    decreases |xs|
  {
    if xs == [] {
      assert DataUp(snaps[0].up, id) + [] == DataUp(snaps[0].up, id);
    } else {
      var s, s', x := snaps[0], snaps[1], xs[0];
      if x.Sends? { SendMoves(s, s', x, id); } else { GetMoves(s, s', x, id); }
      UpIsTheSequence(snaps[1..], xs[1..], id);
      var n := StateOf(s.table, id).nrExpected;
      JoinBodies(DataUp(s.up, id), Adds(x, id, n), Continuing(xs[1..], id, NumberAfter(x, id, n)));
    }
  }

  lemma JoinBodies(a: seq<BitString>, b: seq<BitString>, c: seq<BitString>)
    ensures (a + b) + c == a + (b + c) && [] + c == c
  {
  }
}
