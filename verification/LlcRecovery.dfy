/** When a waiting sender can ever send again.  The code keeps last_sent and retx_count but
    never resends, so the answer depends only on what is still in flight. */
module LlcRecovery {
  import opened Bits
  import opened LlcPdu
  import opened LlcEndpoint
  import opened LlcLink

  /** Some packet of the given kind and key is in the channel. */
  ghost predicate InFlight(ch: seq<Packet>, d: bool, key: int) {
    exists i :: 0 <= i < |ch| && ch[i].isData == d && ch[i].key == key
  }

  /** A copy of a's unacknowledged frame, or an acknowledgement of it, is under way. */
  ghost predicate CopyUnderWay(l: Link) {
    InFlight(l.ab, true, |l.a.sent| - 1) || InFlight(l.ba, false, |l.a.sent|)
  }

  ghost predicate Stuck(l: Link) {
    Inv(l) && l.a.ep.awaitingAck && !CopyUnderWay(l)
  }

  // ----- Without a copy the sender waits for ever -----

  lemma NotAfterPop(ch: seq<Packet>, d: bool, key: int)
    requires ch != [] && !InFlight(ch, d, key)
    ensures !InFlight(ch[1..], d, key)
  {
  }

  lemma NotAfterPush(ch: seq<Packet>, d: bool, key: int, p: Packet)
    requires !InFlight(ch, d, key) && (p.isData != d || p.key != key)
    ensures !InFlight(ch + [p], d, key)
  {
  }

  lemma NotAfterChannel(ch: seq<Packet>, d: bool, key: int, i: nat)
    requires !InFlight(ch, d, key) && i < |ch|
    ensures !InFlight(ch[..i] + ch[i + 1..], d, key) && !InFlight(ch[..i + 1] + ch[i..], d, key)
  {
  }

  lemma StuckDelivers(l: Link, ackPosted: bool)
    requires Stuck(l)
    ensures Stuck(DeliverTo(l, ackPosted)) && DeliverTo(l, ackPosted).a.sent == l.a.sent
  {
    ActKeeps(l, Deliver(ackPosted));
    if l.ba != [] {
      if l.ba[0].isData {
        StuckTakesData(l, ackPosted);
      } else {
        NotAfterPop(l.ba, false, |l.a.sent|);
        AckKeeps(l, ackPosted);
        AckDelivered(l, ackPosted);
      }
    }
  }

  lemma StuckTakesData(l: Link, ackPosted: bool)
    requires Stuck(l) && l.ba != [] && l.ba[0].isData
    ensures var l' := DeliverTo(l, ackPosted); !CopyUnderWay(l') && SameSender(l.a, l'.a)
  {
    NotAfterPop(l.ba, false, |l.a.sent|);
    DataDelivered(l, ackPosted);
    var l' := DeliverTo(l, ackPosted);
    NotAfterPush(l.ab, true, |l.a.sent| - 1, Packet(AckBits(l'.a.ep.nrExpected), false, |l'.a.got|));
  }

  /** a's own actions. */
  lemma StuckActA(l: Link, x: Action)
    requires Stuck(l)
    ensures Stuck(Act(l, x)) && Act(l, x).a.sent == l.a.sent
  {
    ActKeeps(l, x);
    match x
    case Send(_, _, _) =>
    case Deliver(ackPosted) => StuckDelivers(l, ackPosted);
    case Lose(i) => if i < |l.ab| { NotAfterChannel(l.ab, true, |l.a.sent| - 1, i); }
    case Duplicate(i) => if i < |l.ab| { NotAfterChannel(l.ab, true, |l.a.sent| - 1, i); }
  }

  /** The peer takes data, which is none of a's last frame, so its count does not reach n. */
  lemma StuckPeerTakes(k: Link, ackPosted: bool)
    requires Stuck(Swap(k)) && k.ba != [] && k.ba[0].isData
    ensures !CopyUnderWay(Swap(DeliverTo(k, ackPosted)))
  {
    var n, s, l' := |k.b.sent|, k.ba[0].key, DeliverTo(k, ackPosted);
    DataDelivered(k, ackPosted);
    assert s != n - 1;
    assert |l'.a.got| < n;
    NotAfterPop(k.ba, true, n - 1);
    NotAfterPush(k.ab, false, n, Packet(AckBits(l'.a.ep.nrExpected), false, |l'.a.got|));
  }

  lemma StuckPeerDelivers(k: Link, ackPosted: bool)
    requires Stuck(Swap(k))
    ensures Stuck(Swap(DeliverTo(k, ackPosted))) && DeliverTo(k, ackPosted).b == k.b
  {
    ActKeeps(k, Deliver(ackPosted));
    if k.ba != [] {
      if k.ba[0].isData {
        DataDelivered(k, ackPosted);
        StuckPeerTakes(k, ackPosted);
      } else {
        AckDelivered(k, ackPosted);
        NotAfterPop(k.ba, true, |k.b.sent| - 1);
      }
    }
  }

  lemma StuckPeerSends(k: Link, body: seq<Byte>, len: nat, posted: bool)
    requires Stuck(Swap(k))
    ensures var l' := SendFrom(k, body, len, posted); !CopyUnderWay(Swap(l')) && l'.b == k.b
  {
    if SendFrom(k, body, len, posted) != k {
      NotAfterPush(k.ab, false, |k.b.sent|,
                   Packet(PduBits(DataPdu(k.a.ep.nsSend, body, len)), true, |k.a.sent|));
    }
  }

  /** Actions of the peer, seen from it. */
  lemma StuckActB(k: Link, x: Action)
    requires Stuck(Swap(k))
    ensures Stuck(Swap(Act(k, x))) && Act(k, x).b == k.b
  {
    ActKeeps(k, x);
    var n := |k.b.sent|;
    match x
    case Send(body, len, posted) => StuckPeerSends(k, body, len, posted);
    case Deliver(ackPosted) => StuckPeerDelivers(k, ackPosted);
    case Lose(i) => if i < |k.ab| { NotAfterChannel(k.ab, false, n, i); }
    case Duplicate(i) => if i < |k.ab| { NotAfterChannel(k.ab, false, n, i); }
  }

  /** Once stuck, no run frees the sender or lets it send another body. */
  lemma {:induction false} StuckForever(l: Link, es: seq<Event>)
    requires Stuck(l)
    ensures Stuck(Run(l, es)) && Run(l, es).a.sent == l.a.sent
    decreases |es|
  {
    if es != [] {
      if es[0].atA { StuckActA(l, es[0].action); } else { StuckActB(Swap(l), es[0].action); }
      StuckForever(Step(l, es[0]), es[1..]);
    }
  }

  // ----- With a copy, delivering what is in flight frees it -----

  ghost predicate Deliveries(es: seq<Event>) {
    forall i :: 0 <= i < |es| ==> es[i].action == Deliver(true)
  }

  ghost predicate Frees(l: Link, es: seq<Event>) {
    Deliveries(es) && !Run(l, es).a.ep.awaitingAck
  }

  lemma FreesAfter(l: Link, e: Event, es: seq<Event>)
    requires e.action == Deliver(true) && Frees(Step(l, e), es)
    ensures Frees(l, [e] + es)
  {
    assert ([e] + es)[1..] == es;
  }

  lemma {:induction false} AckArrives(l: Link, i: nat) returns (es: seq<Event>)
    requires Inv(l) && i < |l.ba| && !l.ba[i].isData && l.ba[i].key == |l.a.sent|
    ensures Frees(l, es)
    decreases i
  {
    var e := Event(true, Deliver(true));
    if !l.a.ep.awaitingAck {
      es := [];
      return;
    }
    ActKeeps(l, Deliver(true));
    var rest: seq<Event> := [];
    if l.ba[0].isData { DataDelivered(l, true); } else { AckDelivered(l, true); AckKeeps(l, true); }
    if i > 0 {
      rest := AckArrives(Step(l, e), i - 1);
    }
    FreesAfter(l, e, rest);
    es := [e] + rest;
  }

  /** Delivering a copy of the last frame makes the peer acknowledge all of it. */
  lemma CopyIsAcked(k: Link)
    requires Inv(k) && k.ba != [] && k.ba[0].isData && k.ba[0].key == |k.b.sent| - 1
    ensures var l' := DeliverTo(k, true);
      l'.b == k.b && l'.ab != [] && !l'.ab[|l'.ab| - 1].isData && l'.ab[|l'.ab| - 1].key == |k.b.sent|
  {
    DataDelivered(k, true);
  }

  lemma PeerTakesFirst(l: Link)
    requires Inv(l) && l.ab != []
    ensures var l' := Step(l, Event(false, Deliver(true)));
      Inv(l') && l'.ab == l.ab[1..] && l'.a == l.a
  {
    var k := Swap(l);
    ActKeeps(k, Deliver(true));
    if k.ba[0].isData { DataDelivered(k, true); } else { AckDelivered(k, true); }
  }

  lemma {:induction false} CopyArrives(l: Link, i: nat) returns (es: seq<Event>)
    requires Inv(l) && i < |l.ab| && l.ab[i].isData && l.ab[i].key == |l.a.sent| - 1
    ensures Frees(l, es)
    decreases i
  {
    var e := Event(false, Deliver(true));
    var l' := Step(l, e);
    PeerTakesFirst(l);
    var rest: seq<Event>;
    if i == 0 {
      CopyIsAcked(Swap(l));
      rest := AckArrives(l', |l'.ba| - 1);
    } else {
      rest := CopyArrives(l', i - 1);
    }
    FreesAfter(l, e, rest);
    es := [e] + rest;
  }

  ghost predicate CanBeFreed(l: Link) {
    exists es :: !Run(l, es).a.ep.awaitingAck
  }

  lemma FreedIffKeyUnderWay(l: Link)
    requires Inv(l) && l.a.ep.awaitingAck
    ensures CanBeFreed(l) <==> CopyUnderWay(l)
  {
    if CanBeFreed(l) {
      var es :| !Run(l, es).a.ep.awaitingAck;
      if !CopyUnderWay(l) {
        StuckForever(l, es);
      }
    }
    if InFlight(l.ab, true, |l.a.sent| - 1) {
      var i :| 0 <= i < |l.ab| && l.ab[i].isData && l.ab[i].key == |l.a.sent| - 1;
      var es := CopyArrives(l, i);
      assert !Run(l, es).a.ep.awaitingAck;
    } else if CopyUnderWay(l) {
      var i :| 0 <= i < |l.ba| && !l.ba[i].isData && l.ba[i].key == |l.a.sent|;
      var es := AckArrives(l, i);
      assert !Run(l, es).a.ep.awaitingAck;
    }
  }

  // ----- The same condition in bits that travel -----

  /** The handler reads the SDU as data with this sequence bit. */
  predicate ReadsAsData(sdu: BitString, ns: Modulo2) {
    var v := Classify(sdu);
    v.Good? && IsData(v.pdu) && v.pdu.ns == ns
  }

  predicate ReadsAsAck(sdu: BitString, nr: Modulo2) {
    var v := Classify(sdu);
    v.Good? && !IsData(v.pdu) && IsAck(v.pdu) && v.pdu.nr == nr
  }

  /** Data with the sequence bit last sent is on its way to the peer, or an acknowledgement
      with the other bit on its way back. */
  ghost predicate AnswerUnderWay(l: Link) {
    || (exists i :: 0 <= i < |l.ab| && ReadsAsData(l.ab[i].sdu, Flip(l.a.ep.nsSend)))
    || (exists i :: 0 <= i < |l.ba| && ReadsAsAck(l.ba[i].sdu, l.a.ep.nsSend))
  }

  /** What the handler reads in a genuine packet is the parity of its key. */
  lemma GenuineReads(p: Packet, sent: seq<BitString>)
    requires Genuine(p, sent) && Bounded(sent)
    ensures forall b: Modulo2 :: ReadsAsData(p.sdu, b) <==> p.isData && b == p.key % 2
    ensures forall b: Modulo2 :: ReadsAsAck(p.sdu, b) <==> !p.isData && b == p.key % 2
  {
    if p.isData {
      DataIsUnderstood(p.key % 2, sent[p.key]);
    } else {
      AckIsUnderstood(p.key % 2);
    }
  }

  lemma DataKeyIsParity(l: Link, i: nat)
    requires Inv(l) && l.a.ep.awaitingAck && i < |l.ab|
    ensures ReadsAsData(l.ab[i].sdu, Flip(l.a.ep.nsSend)) <==> l.ab[i].isData && l.ab[i].key == |l.a.sent| - 1
  {
    assert Genuine(l.ab[i], l.a.sent);
    GenuineReads(l.ab[i], l.a.sent);
  }

  lemma AckKeyIsParity(l: Link, i: nat)
    requires Inv(l) && l.a.ep.awaitingAck && i < |l.ba|
    ensures ReadsAsAck(l.ba[i].sdu, l.a.ep.nsSend) <==> !l.ba[i].isData && l.ba[i].key == |l.a.sent|
  {
    assert Genuine(l.ba[i], l.b.sent);
    GenuineReads(l.ba[i], l.b.sent);
  }

  lemma AnswerIsCopy(l: Link)
    requires Inv(l) && l.a.ep.awaitingAck
    ensures AnswerUnderWay(l) <==> CopyUnderWay(l)
  {
    forall i | 0 <= i < |l.ab|
      ensures ReadsAsData(l.ab[i].sdu, Flip(l.a.ep.nsSend)) <==> l.ab[i].isData && l.ab[i].key == |l.a.sent| - 1
    {
      DataKeyIsParity(l, i);
    }
    forall i | 0 <= i < |l.ba|
      ensures ReadsAsAck(l.ba[i].sdu, l.a.ep.nsSend) <==> !l.ba[i].isData && l.ba[i].key == |l.a.sent|
    {
      AckKeyIsParity(l, i);
    }
  }

  /** A waiting sender can be freed exactly when data with the sequence bit it last sent, or an
      acknowledgement with the other bit, is still in flight. */
  lemma FreedIffCopyUnderWay(l: Link)
    requires Inv(l) && l.a.ep.awaitingAck
    ensures CanBeFreed(l) <==> AnswerUnderWay(l)
  {
    FreedIffKeyUnderWay(l);
    AnswerIsCopy(l);
  }

  /** One lost frame is enough: the very first body sent and lost blocks its sender for good. */
  lemma OneLossBlocks(idA: int, idB: int, body: seq<Byte>, len: nat, es: seq<Event>)
    requires len <= 8 * BODY_MAX_BYTES && len <= 8 * |body|
    ensures var l := Run(Start(idA, idB), [Event(true, Send(body, len, true)), Event(true, Lose(0))] + es);
      l.a.ep.awaitingAck && |l.a.sent| == 1
  {
    var l0, e1, e2 := Start(idA, idB), Event(true, Send(body, len, true)), Event(true, Lose(0));
    var l1 := Step(l0, e1);
    var l2 := Step(l1, e2);
    StepKeeps(l0, e1);
    StepKeeps(l1, e2);
    assert l2.ab == [] && l2.ba == [];
    StuckForever(l2, es);
    RunTwo(l0, e1, e2, es);
  }

  lemma RunTwo(l: Link, e1: Event, e2: Event, es: seq<Event>)
    ensures Run(l, [e1, e2] + es) == Run(Step(Step(l, e1), e2), es)
  {
    assert ([e1, e2] + es)[1..] == [e2] + es;
    assert ([e2] + es)[1..] == es;
  }
}
