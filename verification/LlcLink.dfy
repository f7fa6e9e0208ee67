/** Two LLC endpoints joined by a channel each way.  Channels are first in first out; they
    may lose any packet and may deliver any packet twice, but never reorder. */
module LlcLink {
  import opened Bits
  import opened LlcPdu
  import opened LlcEndpoint

  /** An SDU in flight.  The last two fields are history the endpoints never look at: for
      data the number of the message, for an acknowledgement how many the sender of it had
      accepted. */
  datatype Packet = Packet(sdu: BitString, isData: bool, key: nat)

  /** An endpoint with the bodies it sent and the bodies it accepted in sequence. */
  datatype Side = Side(ep: Endpoint, sent: seq<BitString>, got: seq<BitString>)

  datatype Link = Link(a: Side, b: Side, ab: seq<Packet>, ba: seq<Packet>)

  function Swap(l: Link): Link {
    Link(l.b, l.a, l.ba, l.ab)
  }

  function Start(idA: int, idB: int): Link {
    Link(Side(Fresh(idA), [], []), Side(Fresh(idB), [], []), [], [])
  }

  datatype Action =
    | Send(body: seq<Byte>, len: nat, posted: bool)
    | Deliver(ackPosted: bool)
    | Lose(i: nat)
    | Duplicate(i: nat)

  /** An action of a (atA) or of b. */
  datatype Event = Event(atA: bool, action: Action)

  /** llc_send_bl_data: -EINVAL, -EBUSY and a refused post leave everything as it was. */
  function SendFrom(l: Link, body: seq<Byte>, len: nat, posted: bool): Link {
    if len > 8 * BODY_MAX_BYTES || len > 8 * |body| || l.a.ep.awaitingAck || !posted then l
    else
      var p := DataPdu(l.a.ep.nsSend, body, len);
      l.(a := Side(AfterSend(l.a.ep, p), l.a.sent + [Unpack(body)[..len]], l.a.got),
         ab := l.ab + [Packet(PduBits(p), true, |l.a.sent|)])
  }

  /** llc_handle_tma_unitdata_ind on the oldest packet towards a. */
  function DeliverTo(l: Link, ackPosted: bool): Link {
    if l.ba == [] then l
    else
      var v := Classify(l.ba[0].sdu);
      if !v.Good? then l.(ba := l.ba[1..]) else Handle(l.(ba := l.ba[1..]), v.pdu, ackPosted)
  }

  function Handle(l: Link, p: Pdu, ackPosted: bool): Link {
    var ep := AfterReceive(l.a.ep, p);
    var got := if InSequence(l.a.ep, p) then l.a.got + [Payload(p)] else l.a.got;
    var ack := Packet(PduBits(AckPdu(ep.nrExpected)), false, |got|);
    l.(a := Side(ep, l.a.sent, got), ab := if IsData(p) && ackPosted then l.ab + [ack] else l.ab)
  }

  function Payload(p: Pdu): BitString {
    if p.bodyLen <= |Unpack(p.body)| then Unpack(p.body)[..p.bodyLen] else []
  }

  function Act(l: Link, x: Action): Link {
    match x
    case Send(body, len, posted) => SendFrom(l, body, len, posted)
    case Deliver(ackPosted) => DeliverTo(l, ackPosted)
    case Lose(i) => if i < |l.ab| then l.(ab := l.ab[..i] + l.ab[i + 1..]) else l
    case Duplicate(i) => if i < |l.ab| then l.(ab := l.ab[..i + 1] + l.ab[i..]) else l
  }

  function Step(l: Link, e: Event): Link {
    if e.atA then Act(l, e.action) else Swap(Act(Swap(l), e.action))
  }

  function Run(l: Link, es: seq<Event>): Link
    decreases |es|
  {
    if es == [] then l else Run(Step(l, es[0]), es[1..])
  }

  // ----- The invariant of one direction -----

  /** Keys of the packets of one kind lie between lo and hi and never fall. */
  ghost predicate Flight(ch: seq<Packet>, d: bool, lo: int, hi: int) {
    && (forall i :: 0 <= i < |ch| && ch[i].isData == d ==> lo <= ch[i].key <= hi)
    && (forall i, j :: 0 <= i < j < |ch| && ch[i].isData == d && ch[j].isData == d ==> ch[i].key <= ch[j].key)
  }

  ghost predicate Genuine(p: Packet, sent: seq<BitString>) {
    if p.isData then p.key < |sent| && p.sdu == DataBits(p.key % 2, sent[p.key]) else p.sdu == AckBits(p.key % 2)
  }

  ghost predicate AllGenuine(ch: seq<Packet>, sent: seq<BitString>) {
    forall i :: 0 <= i < |ch| ==> Genuine(ch[i], sent)
  }

  ghost predicate Bounded(sent: seq<BitString>) {
    forall i :: 0 <= i < |sent| ==> |sent[i]| <= 8 * BODY_MAX_BYTES
  }

  /** x's data to y, and y's acknowledgements of it. */
  ghost predicate Dir(x: Side, y: Side, xy: seq<Packet>, yx: seq<Packet>) {
    var n, m := |x.sent|, |y.got|;
    && m <= n <= m + 1 && y.got == x.sent[..m] && Bounded(x.sent)
    && x.ep.nsSend == n % 2 && y.ep.nrExpected == m % 2
    && (!x.ep.awaitingAck ==> m == n)
    && AllGenuine(xy, x.sent)
    && Flight(xy, true, m - 1, n - 1)
    && Flight(yx, false, if x.ep.awaitingAck then n - 1 else n, m)
  }

  ghost predicate Inv(l: Link) {
    Dir(l.a, l.b, l.ab, l.ba) && Dir(l.b, l.a, l.ba, l.ab)
  }

  // ----- Channels -----

  lemma FlightPop(ch: seq<Packet>, d: bool, lo: int, hi: int)
    requires ch != [] && Flight(ch, d, lo, hi)
    ensures Flight(ch[1..], d, if ch[0].isData == d then ch[0].key else lo, hi)
  {
    var t := ch[1..];
    forall i | 0 <= i < |t| && t[i].isData == d
      ensures (if ch[0].isData == d then ch[0].key else lo) <= t[i].key <= hi
    {
      assert t[i] == ch[i + 1];
    }
  }

  lemma FlightPush(ch: seq<Packet>, d: bool, lo: int, hi: int, p: Packet, top: int)
    requires Flight(ch, d, lo, hi) && hi <= top && (p.isData == d ==> hi <= p.key <= top && lo <= p.key)
    ensures Flight(ch + [p], d, lo, top)
  {
  }

  lemma FlightWiden(ch: seq<Packet>, d: bool, lo: int, hi: int, lo': int, hi': int)
    requires Flight(ch, d, lo, hi) && lo' <= lo && hi <= hi'
    ensures Flight(ch, d, lo', hi')
  {
  }

  lemma FlightLose(ch: seq<Packet>, d: bool, lo: int, hi: int, k: nat)
    requires k < |ch| && Flight(ch, d, lo, hi)
    ensures Flight(ch[..k] + ch[k + 1..], d, lo, hi)
  {
    var t := ch[..k] + ch[k + 1..];
    assert forall i :: 0 <= i < |t| ==> t[i] == ch[if i < k then i else i + 1];
  }

  lemma FlightDuplicate(ch: seq<Packet>, d: bool, lo: int, hi: int, k: nat)
    requires k < |ch| && Flight(ch, d, lo, hi)
    ensures Flight(ch[..k + 1] + ch[k..], d, lo, hi)
  {
    var t := ch[..k + 1] + ch[k..];
    assert forall i :: 0 <= i < |t| ==> t[i] == ch[if i <= k then i else i - 1];
  }

  lemma GenuineMore(ch: seq<Packet>, sent: seq<BitString>, x: BitString)
    requires AllGenuine(ch, sent)
    ensures AllGenuine(ch, sent + [x])
  {
    forall i | 0 <= i < |ch| ensures Genuine(ch[i], sent + [x]) { assert Genuine(ch[i], sent); }
  }

  lemma GenuineStays(ch: seq<Packet>, sent: seq<BitString>, i: nat)
    requires AllGenuine(ch, sent) && i < |ch|
    ensures AllGenuine(ch[..i] + ch[i + 1..], sent) && AllGenuine(ch[..i + 1] + ch[i..], sent)
  {
  }

  // ----- What each action does to one direction -----

  /** Sides that differ only in what they received are the same sender. */
  ghost predicate SameSender(x: Side, y: Side) {
    x.sent == y.sent && x.ep.nsSend == y.ep.nsSend && x.ep.awaitingAck == y.ep.awaitingAck
  }

  ghost predicate SameReceiver(x: Side, y: Side) {
    x.got == y.got && x.ep.nrExpected == y.ep.nrExpected
  }

  lemma DirSend(x: Side, y: Side, xy: seq<Packet>, yx: seq<Packet>, z: Side, body: BitString)
    requires Dir(x, y, xy, yx) && !x.ep.awaitingAck && |body| <= 8 * BODY_MAX_BYTES
    requires z.sent == x.sent + [body] && z.ep.awaitingAck && z.ep.nsSend == Flip(x.ep.nsSend)
    ensures Dir(z, y, xy + [Packet(DataBits(x.ep.nsSend, body), true, |x.sent|)], yx)
  {
    var n, m := |x.sent|, |y.got|;
    var p := Packet(DataBits(n % 2, body), true, n);
    GenuineMore(xy, x.sent, body);
    FlightPush(xy, true, m - 1, n - 1, p, n);
    assert z.sent[..m] == x.sent[..m];
    assert (n + 1) % 2 == 1 - n % 2;
  }

  /** Data overtaken by nothing: the other direction sees a packet that is not its own. */
  lemma DirForeign(x: Side, y: Side, xy: seq<Packet>, yx: seq<Packet>, w: Side, p: Packet)
    requires Dir(x, y, xy, yx) && SameReceiver(y, w) && p.isData
    ensures Dir(x, w, xy, yx + [p])
  {
    FlightPush(yx, false, if x.ep.awaitingAck then |x.sent| - 1 else |x.sent|, |y.got|, p, |y.got|);
  }

  /** The receiver takes data from xy. */
  lemma DirTake(x: Side, y: Side, xy: seq<Packet>, yx: seq<Packet>, w: Side)
    requires Dir(x, y, xy, yx) && xy != [] && xy[0].isData && xy[0].key < |x.sent|
    requires w.got == (if xy[0].key == |y.got| then y.got + [x.sent[xy[0].key]] else y.got)
    requires w.ep.nrExpected == (if xy[0].key == |y.got| then Flip(y.ep.nrExpected) else y.ep.nrExpected)
    ensures Dir(x, w, xy[1..], yx)
  {
    var n, m, t := |x.sent|, |y.got|, |w.got|;
    assert m - 1 <= xy[0].key <= n - 1;
    TakenCount(n, m, xy[0].key, t, y.ep.nrExpected, w.ep.nrExpected);
    FlightPop(xy, true, m - 1, n - 1);
    var lo := if x.ep.awaitingAck then n - 1 else n;
    FlightWiden(yx, false, lo, m, lo, t);
    FlightWiden(xy[1..], true, xy[0].key, n - 1, t - 1, n - 1);
    GenuineTail(xy, x.sent);
    TakenPrefix(x.sent, y.got, xy[0].key, w.got);
  }

  lemma TakenCount(n: nat, m: nat, k: nat, t: nat, nr: Modulo2, nr': Modulo2)
    requires m <= n <= m + 1 && m - 1 <= k <= n - 1 && t == (if k == m then m + 1 else m)
    requires nr == m % 2 && nr' == if k == m then Flip(nr) else nr
    ensures t <= n <= t + 1 && (m == n ==> t == n) && nr' == t % 2 && t - 1 <= k
  {
  }

  /** It may acknowledge on yx how many it has taken. */
  lemma DirAckSent(x: Side, y: Side, xy: seq<Packet>, yx: seq<Packet>)
    requires Dir(x, y, xy, yx)
    ensures Dir(x, y, xy, yx + [Packet(AckBits(|y.got| % 2), false, |y.got|)])
  {
    var lo, m := if x.ep.awaitingAck then |x.sent| - 1 else |x.sent|, |y.got|;
    FlightPush(yx, false, lo, m, Packet(AckBits(m % 2), false, m), m);
  }

  lemma TakenPrefix(sent: seq<BitString>, got: seq<BitString>, k: nat, got': seq<BitString>)
    requires got <= sent && k < |sent| && got' == if k == |got| then got + [sent[k]] else got
    ensures got' == sent[..|got'|]
  {
  }

  lemma GenuineTail(ch: seq<Packet>, sent: seq<BitString>)
    requires AllGenuine(ch, sent) && ch != []
    ensures AllGenuine(ch[1..], sent)
  {
  }

  /** The same from the side of the direction the acknowledging end sends in. */
  lemma DirTakeBack(x: Side, y: Side, xy: seq<Packet>, yx: seq<Packet>, z: Side, k: nat)
    requires Dir(x, y, xy, yx) && SameSender(x, z) && yx != [] && yx[0].isData
    ensures Dir(z, y, xy, yx[1..]) && Dir(z, y, xy + [Packet(AckBits(k % 2), false, k)], yx[1..])
  {
    FlightPop(yx, false, if x.ep.awaitingAck then |x.sent| - 1 else |x.sent|, |y.got|);
    FlightPush(xy, true, |y.got| - 1, |x.sent| - 1, Packet(AckBits(k % 2), false, k), |x.sent| - 1);
  }

  /** An acknowledgement arrives: it frees the sender exactly when it counts everything. */
  lemma DirAck(x: Side, y: Side, xy: seq<Packet>, yx: seq<Packet>, z: Side)
    requires Dir(x, y, xy, yx) && yx != [] && !yx[0].isData && z.sent == x.sent && z.ep.nsSend == x.ep.nsSend
    requires z.ep.awaitingAck <==> x.ep.awaitingAck && yx[0].key % 2 != x.ep.nsSend
    ensures Dir(z, y, xy, yx[1..]) && (z.ep.awaitingAck <==> x.ep.awaitingAck && yx[0].key != |x.sent|)
  {
    var k, n := yx[0].key, |x.sent|;
    FlightPop(yx, false, if x.ep.awaitingAck then n - 1 else n, |y.got|);
    assert n - 1 <= k <= n;
  }

  lemma DirAckBack(x: Side, y: Side, xy: seq<Packet>, yx: seq<Packet>, w: Side)
    requires Dir(x, y, xy, yx) && SameReceiver(y, w) && xy != [] && !xy[0].isData
    ensures Dir(x, w, xy[1..], yx)
  {
    FlightPop(xy, true, |y.got| - 1, |x.sent| - 1);
  }

  lemma DirLose(x: Side, y: Side, xy: seq<Packet>, yx: seq<Packet>, i: nat)
    requires Dir(x, y, xy, yx)
    ensures i < |xy| ==> Dir(x, y, xy[..i] + xy[i + 1..], yx)
    ensures i < |yx| ==> Dir(x, y, xy, yx[..i] + yx[i + 1..])
  {
    if i < |xy| {
      FlightLose(xy, true, |y.got| - 1, |x.sent| - 1, i);
      GenuineStays(xy, x.sent, i);
    }
    if i < |yx| { FlightLose(yx, false, if x.ep.awaitingAck then |x.sent| - 1 else |x.sent|, |y.got|, i); }
  }

  lemma DirDuplicate(x: Side, y: Side, xy: seq<Packet>, yx: seq<Packet>, i: nat)
    requires Dir(x, y, xy, yx)
    ensures i < |xy| ==> Dir(x, y, xy[..i + 1] + xy[i..], yx)
    ensures i < |yx| ==> Dir(x, y, xy, yx[..i + 1] + yx[i..])
  {
    if i < |xy| {
      FlightDuplicate(xy, true, |y.got| - 1, |x.sent| - 1, i);
      GenuineStays(xy, x.sent, i);
    }
    if i < |yx| { FlightDuplicate(yx, false, if x.ep.awaitingAck then |x.sent| - 1 else |x.sent|, |y.got|, i); }
  }

  // ----- Every action keeps the invariant -----

  lemma SendKeeps(l: Link, body: seq<Byte>, len: nat, posted: bool)
    requires Inv(l)
    ensures Inv(SendFrom(l, body, len, posted))
  {
    if len <= 8 * BODY_MAX_BYTES && len <= 8 * |body| && !l.a.ep.awaitingAck && posted {
      var x, l' := Unpack(body)[..len], SendFrom(l, body, len, posted);
      DataPduBits(l.a.ep.nsSend, body, len);
      var p := Packet(DataBits(l.a.ep.nsSend, x), true, |l.a.sent|);
      DirSend(l.a, l.b, l.ab, l.ba, l'.a, x);
      DirForeign(l.b, l.a, l.ba, l.ab, l'.a, p);
    }
  }

  /** Delivering an acknowledgement, in the history's terms. */
  lemma AckDelivered(l: Link, ackPosted: bool)
    requires Inv(l) && l.ba != [] && !l.ba[0].isData
    ensures var l' := DeliverTo(l, ackPosted);
      l'.b == l.b && l'.ab == l.ab && l'.ba == l.ba[1..] && SameReceiver(l.a, l'.a) && l'.a.sent == l.a.sent
      && l'.a.ep.nsSend == l.a.ep.nsSend
      && (l'.a.ep.awaitingAck <==> l.a.ep.awaitingAck && l.ba[0].key % 2 != l.a.ep.nsSend)
  {
    assert Genuine(l.ba[0], l.b.sent);
    AckIsUnderstood(l.ba[0].key % 2);
  }

  /** Delivering data: accepted exactly when it is the next message, acknowledged either way. */
  lemma DataDelivered(l: Link, ackPosted: bool)
    requires Inv(l) && l.ba != [] && l.ba[0].isData
    ensures l.ba[0].key < |l.b.sent|
    ensures var l' := DeliverTo(l, ackPosted); var s, m := l.ba[0].key, |l.a.got|;
      l'.b == l.b && l'.ba == l.ba[1..] && SameSender(l.a, l'.a)
      && l'.a.got == (if s == m then l.a.got + [l.b.sent[s]] else l.a.got)
      && l'.a.ep.nrExpected == (if s == m then Flip(l.a.ep.nrExpected) else l.a.ep.nrExpected)
      && l'.ab == (if ackPosted then l.ab + [Packet(AckBits(l'.a.ep.nrExpected), false, |l'.a.got|)] else l.ab)
  {
    var s, m := l.ba[0].key, |l.a.got|;
    assert Genuine(l.ba[0], l.b.sent);
    DataIsUnderstood(s % 2, l.b.sent[s]);
    assert m - 1 <= s <= m;
    assert s % 2 == m % 2 <==> s == m;
    AckPduBits(DeliverTo(l, ackPosted).a.ep.nrExpected);
  }

  lemma AckKeeps(l: Link, ackPosted: bool)
    requires Inv(l) && l.ba != [] && !l.ba[0].isData
    ensures Inv(DeliverTo(l, ackPosted))
    ensures DeliverTo(l, ackPosted).a.ep.awaitingAck <==> l.a.ep.awaitingAck && l.ba[0].key != |l.a.sent|
  {
    AckDelivered(l, ackPosted);
    var l' := DeliverTo(l, ackPosted);
    DirAck(l.a, l.b, l.ab, l.ba, l'.a);
    DirAckBack(l.b, l.a, l.ba, l.ab, l'.a);
  }

  lemma DataKeeps(l: Link, ackPosted: bool)
    requires Inv(l) && l.ba != [] && l.ba[0].isData
    ensures Inv(DeliverTo(l, ackPosted))
  {
    DataDelivered(l, ackPosted);
    var l' := DeliverTo(l, ackPosted);
    DirTake(l.b, l.a, l.ba, l.ab, l'.a);
    DirAckSent(l.b, l'.a, l.ba[1..], l.ab);
    DirTakeBack(l.a, l.b, l.ab, l.ba, l'.a, |l'.a.got|);
  }

  lemma ChannelKeeps(l: Link, i: nat)
    requires Inv(l) && i < |l.ab|
    ensures Inv(l.(ab := l.ab[..i] + l.ab[i + 1..])) && Inv(l.(ab := l.ab[..i + 1] + l.ab[i..]))
  {
    DirLose(l.a, l.b, l.ab, l.ba, i);
    DirLose(l.b, l.a, l.ba, l.ab, i);
    DirDuplicate(l.a, l.b, l.ab, l.ba, i);
    DirDuplicate(l.b, l.a, l.ba, l.ab, i);
  }

  lemma ActKeeps(l: Link, x: Action)
    requires Inv(l)
    ensures Inv(Act(l, x))
  {
    match x
    case Send(body, len, posted) => SendKeeps(l, body, len, posted);
    case Deliver(ackPosted) =>
      if l.ba != [] {
        if l.ba[0].isData { DataKeeps(l, ackPosted); } else { AckKeeps(l, ackPosted); }
      }
    case Lose(i) => if i < |l.ab| { ChannelKeeps(l, i); }
    case Duplicate(i) => if i < |l.ab| { ChannelKeeps(l, i); }
  }

  lemma StepKeeps(l: Link, e: Event)
    requires Inv(l)
    ensures Inv(Step(l, e))
  {
    if e.atA { ActKeeps(l, e.action); } else { ActKeeps(Swap(l), e.action); }
  }

  lemma {:induction false} RunKeeps(l: Link, es: seq<Event>)
    requires Inv(l)
    ensures Inv(Run(l, es))
    decreases |es|
  {
    if es != [] {
      StepKeeps(l, es[0]);
      RunKeeps(Step(l, es[0]), es[1..]);
    }
  }

  /** In every run, in both directions: the bodies accepted are a prefix of the bodies sent,
      at most one short of them, and complete whenever the sender is not waiting. */
  lemma EveryRunDeliversInOrder(idA: int, idB: int, es: seq<Event>)
    ensures var l := Run(Start(idA, idB), es);
      && l.b.got <= l.a.sent && |l.a.sent| <= |l.b.got| + 1 && (!l.a.ep.awaitingAck ==> l.b.got == l.a.sent)
      && l.a.got <= l.b.sent && |l.b.sent| <= |l.a.got| + 1 && (!l.b.ep.awaitingAck ==> l.a.got == l.b.sent)
  {
    RunKeeps(Start(idA, idB), es);
  }

  // ----- What an endpoint remembers -----

  /** Nothing was ever resent, and while a frame is outstanding its PDU is kept. */
  ghost predicate Remembers(x: Side) {
    && x.ep.retxCount == 0
    && (x.ep.awaitingAck ==>
         && x.sent != [] && WellFormed(x.ep.lastSent) && Encodable(x.ep.lastSent)
         && PduBits(x.ep.lastSent) == DataBits(Flip(x.ep.nsSend), x.sent[|x.sent| - 1]))
  }

  lemma ActRemembers(l: Link, x: Action)
    requires Remembers(l.a)
    ensures Remembers(Act(l, x).a) && Act(l, x).b == l.b
  {
    if x.Send? {
      SendRemembers(l, x.body, x.len, x.posted);
    }
  }

  lemma SendRemembers(l: Link, body: seq<Byte>, len: nat, posted: bool)
    requires Remembers(l.a)
    ensures Remembers(SendFrom(l, body, len, posted).a)
  {
    if len <= 8 * BODY_MAX_BYTES && len <= 8 * |body| {
      DataPduBits(l.a.ep.nsSend, body, len);
      LastIs(l.a.sent, Unpack(body)[..len]);
    }
  }

  lemma LastIs(a: seq<BitString>, x: BitString)
    ensures (a + [x])[|a + [x]| - 1] == x
  {
  }

  lemma {:induction false} RunRemembers(l: Link, es: seq<Event>)
    requires Remembers(l.a) && Remembers(l.b)
    ensures Remembers(Run(l, es).a) && Remembers(Run(l, es).b)
    decreases |es|
  {
    if es != [] {
      ActRemembers(if es[0].atA then l else Swap(l), es[0].action);
      RunRemembers(Step(l, es[0]), es[1..]);
    }
  }

  /** In every run, an endpoint that waits keeps the PDU of the frame it waits for, and the count
      of retransmissions stays 0. */
  lemma LastSentIsOutstanding(idA: int, idB: int, es: seq<Event>)
    ensures var x := Run(Start(idA, idB), es).a;
      && x.ep.retxCount == 0
      && (x.ep.awaitingAck ==>
           && x.sent != [] && WellFormed(x.ep.lastSent) && Encodable(x.ep.lastSent)
           && PduBits(x.ep.lastSent) == DataBits(Flip(x.ep.nsSend), x.sent[|x.sent| - 1]))
  {
    RunRemembers(Start(idA, idB), es);
  }

  // ----- Duplication and loss -----

  /** A duplicate is one packet more, and losing it again undoes it. */
  lemma DuplicateThenLose(l: Link, i: nat)
    requires i < |l.ab|
    ensures var d := Act(l, Duplicate(i));
      && |d.ab| == |l.ab| + 1 && d.ab[i] == d.ab[i + 1] == l.ab[i] && Act(d, Lose(i)) == l
      && |Act(l, Lose(i)).ab| == |l.ab| - 1
  {
    var d := l.ab[..i + 1] + l.ab[i..];
    assert d[..i] == l.ab[..i] && d[i + 1..] == l.ab[i..];
    assert l.ab[..i] + l.ab[i..] == l.ab;
  }

  // ----- Without losses everything arrives -----

  /** A body and its length in bits. */
  datatype Draft = Draft(body: seq<Byte>, len: nat)

  /** One that can be sent. */
  type Message = m: Draft | m.len <= 8 * BODY_MAX_BYTES && m.len <= 8 * |m.body| witness Draft([], 0)

  function BodyOfMessage(m: Message): BitString {
    Unpack(m.body)[..m.len]
  }

  /** a sends, b takes the frame and acknowledges it, a takes the acknowledgement. */
  function Exchange(m: Message): seq<Event> {
    [Event(true, Send(m.body, m.len, true)), Event(false, Deliver(true)), Event(true, Deliver(true))]
  }

  function Exchanges(ms: seq<Message>): seq<Event> {
    if ms == [] then [] else Exchange(ms[0]) + Exchanges(ms[1..])
  }

  function BodiesOf(ms: seq<Message>): seq<BitString> {
    if ms == [] then [] else [BodyOfMessage(ms[0])] + BodiesOf(ms[1..])
  }

  /** Nothing is in flight and a can send. */
  ghost predicate Quiet(l: Link) {
    Inv(l) && l.ab == [] && l.ba == [] && !l.a.ep.awaitingAck
  }

  lemma SendPuts(l: Link, m: Message)
    requires Quiet(l)
    ensures var x, r := BodyOfMessage(m), Step(l, Event(true, Send(m.body, m.len, true)));
      Inv(r) && r.ba == [] && r.b == l.b && r.a.sent == l.a.sent + [x] && |r.ab| == 1 && r.ab[0].isData
      && r.ab[0].key == |l.a.sent| && r.a.ep.awaitingAck && r.a.got == l.a.got
  {
    SendKeeps(l, m.body, m.len, true);
  }

  lemma PeerTakes(l: Link)
    requires Inv(l) && l.ba == [] && |l.ab| == 1 && l.ab[0].isData && l.ab[0].key == |l.b.got| == |l.a.sent| - 1
    ensures var r := Step(l, Event(false, Deliver(true)));
      Inv(r) && r.ab == [] && r.a == l.a && r.b.got == l.a.sent && |r.ba| == 1 && !r.ba[0].isData
      && r.ba[0].key == |l.a.sent|
  {
    ActKeeps(Swap(l), Deliver(true));
    DataDelivered(Swap(l), true);
  }

  lemma AckFrees(l: Link)
    requires Inv(l) && l.ab == [] && |l.ba| == 1 && !l.ba[0].isData && l.ba[0].key == |l.a.sent|
    ensures var r := Step(l, Event(true, Deliver(true)));
      Quiet(r) && r.a.sent == l.a.sent && r.b == l.b
  {
    AckKeeps(l, true);
    AckDelivered(l, true);
  }

  lemma RunThree(l: Link, a: Event, b: Event, c: Event)
    ensures Run(l, [a, b, c]) == Step(Step(Step(l, a), b), c)
  {
    assert [a, b, c][1..] == [b, c] && [b, c][1..] == [c] && [c][1..] == [];
    assert Run(Step(Step(Step(l, a), b), c), []) == Run(Step(Step(l, a), b), [c]);
    assert Run(Step(l, a), [b, c]) == Run(Step(Step(l, a), b), [c]);
  }

  lemma QuietIsComplete(l: Link)
    requires Quiet(l)
    ensures l.b.got == l.a.sent
  {
    assert l.a.sent[..|l.a.sent|] == l.a.sent;
  }

  lemma ExchangeDelivers(l: Link, m: Message)
    requires Quiet(l)
    ensures var r, x := Run(l, Exchange(m)), BodyOfMessage(m);
      Quiet(r) && r.b.got == l.b.got + [x] && r.a.sent == l.a.sent + [x]
  {
    var send := Event(true, Send(m.body, m.len, true));
    var take, free := Event(false, Deliver(true)), Event(true, Deliver(true));
    QuietIsComplete(l);
    RunThree(l, send, take, free);
    SendPuts(l, m);
    PeerTakes(Step(l, send));
    AckFrees(Step(Step(l, send), take));
  }

  lemma {:induction false} RunAppend(l: Link, es: seq<Event>, fs: seq<Event>)
    ensures Run(l, es + fs) == Run(Run(l, es), fs)
    decreases |es|
  {
    if es == [] {
      assert es + fs == fs;
    } else {
      assert (es + fs)[1..] == es[1..] + fs;
      RunAppend(Step(l, es[0]), es[1..], fs);
    }
  }

  /** If nothing is lost, any number of bodies reaches the peer, complete and in order. */
  lemma {:induction false} LosslessRunDelivers(l: Link, ms: seq<Message>)
    requires Quiet(l)
    ensures var r := Run(l, Exchanges(ms)); Quiet(r) && r.b.got == l.b.got + BodiesOf(ms)
    decreases |ms|
  {
    if ms == [] {
      assert l.b.got + [] == l.b.got;
    } else {
      var l', x := Run(l, Exchange(ms[0])), BodyOfMessage(ms[0]);
      ExchangeDelivers(l, ms[0]);
      LosslessRunDelivers(l', ms[1..]);
      ExchangesSplit(l, ms);
      Joined(l.b.got, x, BodiesOf(ms[1..]));
    }
  }

  lemma ExchangesSplit(l: Link, ms: seq<Message>)
    requires ms != []
    ensures Run(l, Exchanges(ms)) == Run(Run(l, Exchange(ms[0])), Exchanges(ms[1..]))
  {
    RunAppend(l, Exchange(ms[0]), Exchanges(ms[1..]));
  }

  lemma Joined(a: seq<BitString>, x: BitString, b: seq<BitString>)
    ensures (a + [x]) + b == a + ([x] + b)
  {
  }
}
