/** The entity is what the link theorems are about: its sender and its handler do to an
    endpoint, and send to the peer, just what one end of a link does. */
module LlcRefinement {
  import opened Bits
  import opened LlcPdu
  import opened LlcEndpoint
  import opened LlcEntity
  import opened LlcLink
  import opened LlcUpward

  /** The entity's part in a link: the state of one identifier is that of end a. */
  ghost predicate PlaysA(s: Snapshot, id: int, l: Link) {
    CanServe(s.table, id) && StateOf(s.table, id) == l.a.ep
  }

  /** What was added to the entity's requests is what was added to the channel. */
  ghost predicate SameAdded(down: seq<Unitdata>, down': seq<Unitdata>, ab: seq<Packet>, ab': seq<Packet>) {
    && down <= down' && ab <= ab' && |down'| - |down| == |ab'| - |ab| <= 1
    && (|down'| > |down| ==>
         var r := down'[|down|];
         r.lenBits <= 8 * |r.bytes| && Unpack(r.bytes)[..r.lenBits] == ab'[|ab|].sdu)
  }

  /** Sending data is the link's Send. */
  lemma SendIsLinkSend(s: Snapshot, s': Snapshot, id: int, addr: Address, body: seq<Byte>, len: nat, postRc: int,
                       rc: int, l: Link)
    requires (len <= 8 * BODY_MAX_BYTES ==> len <= 8 * |body|) && PlaysA(s, id, l)
    requires SentData(s, s', id, addr, body, len, postRc, rc)
    ensures var l' := Act(l, Send(body, len, postRc == 0));
      PlaysA(s', id, l') && SameAdded(s.down, s'.down, l.ab, l'.ab) && (rc == 0 <==> |l'.a.sent| == |l.a.sent| + 1)
  {
    if len <= 8 * BODY_MAX_BYTES {
      DataPduBits(l.a.ep.nsSend, body, len);
    }
  }

  /** Handling an SDU is the link's Deliver of a packet with these bits, and what data it posts
      up is what the link counts as accepted. */
  lemma HandlerIsLinkDeliver(s: Snapshot, s': Snapshot, ind: Unitdata, upRc: int, ackRc: int, rc: int, l: Link)
    requires Ran(s, s', ind, upRc, ackRc, rc) && PlaysA(s, ind.endpoint, l)
    requires l.ba != [] && l.ba[0].sdu == SduOf(ind)
    ensures var l' := Act(l, Deliver(ackRc == 0));
      PlaysA(s', ind.endpoint, l') && SameAdded(s.down, s'.down, l.ab, l'.ab) && l'.ba == l.ba[1..]
    ensures upRc == 0 ==>
      var l' := Act(l, Deliver(ackRc == 0)); var n := StateOf(s.table, ind.endpoint).nrExpected;
      l'.a.got == l.a.got + if Numbered(SduOf(ind), n) then [BodyIn(SduOf(ind))] else []
  {
    assert l.a.got + [] == l.a.got;
    var v := Classify(SduOf(ind));
    if v.Good? {
      TypeOfData(v.pdu);
      ServedIsDeliver(s, s', ind, v.pdu, upRc, ackRc, l);
    }
  }

  lemma ServedIsDeliver(s: Snapshot, s': Snapshot, ind: Unitdata, p: Pdu, upRc: int, ackRc: int, l: Link)
    requires Served(s, s', ind, p, upRc, ackRc) && StateOf(s.table, ind.endpoint) == l.a.ep
    ensures var l' := Handle(l, p, ackRc == 0);
      StateOf(s'.table, ind.endpoint) == l'.a.ep && Known(s'.table, ind.endpoint)
      && SameAdded(s.down, s'.down, l.ab, l'.ab)
  {
    AckPduBits(AfterReceive(l.a.ep, p).nrExpected);
  }
}
