/** The message bus as a value: three ring-buffered priorities, posts, registrations, and
    dispatch with handlers that post and register while the fan-out is under way. */
module MsgBus {
  import opened Errno
  import opened Bits

  const REG_CAP: nat := 32
  const PRIO_COUNT: nat := 3
  const SAP_MAX: nat := 9

  type SapId = nat

  predicate SapValid(s: SapId) {
    0 < s < SAP_MAX
  }

  /** A message offered for posting; given tells whether its payload pointer is set. */
  datatype SapMsg = SapMsg(src: SapId, dest: SapId, sap: SapId, len: nat, given: bool, payload: seq<Byte>)

  datatype Entry = Entry(src: SapId, dest: SapId, sap: SapId, len: nat, inUse: bool)

  /** What a handler is shown. */
  datatype Item = Item(src: SapId, dest: SapId, sap: SapId, bytes: seq<Byte>)

  datatype Registration = Registration(dest: SapId, sap: SapId, active: bool)

  /** A ring: entry and payload slot arrays and the ring indices.  The last two fields are
      history: every item ever accepted, and how many of them have been dispatched. */
  datatype Queue = Queue(entries: seq<Entry>, payloads: seq<seq<Byte>>, maxPayload: nat, head: nat, tail: nat,
                         count: nat, drops: nat, accepted: seq<Item>, taken: nat)

  /** (i + k) mod cap for i, k below cap. */
  function Wrap(i: nat, k: nat, cap: nat): nat {
    if i + k < cap then i + k else i + k - cap
  }

  function ItemAt(q: Queue, i: nat): Item
    requires i < |q.entries| == |q.payloads| && q.entries[i].len <= |q.payloads[i]|
  {
    var e := q.entries[i];
    Item(e.src, e.dest, e.sap, q.payloads[i][..e.len])
  }

  predicate Shape(q: Queue) {
    && |q.entries| == |q.payloads| > 0 && q.head < |q.entries| && q.tail < |q.entries| && q.count <= |q.entries|
    && (forall i :: 0 <= i < |q.payloads| ==> |q.payloads[i]| == q.maxPayload)
    && (forall i :: 0 <= i < |q.entries| ==> q.entries[i].len <= q.maxPayload)
  }

  /** Slot head + k holds the k-th item that is accepted but not dispatched. */
  ghost predicate QueueInv(q: Queue) {
    && Shape(q) && q.tail == Wrap(q.head, q.count, |q.entries|) && |q.accepted| == q.taken + q.count
    && (forall k :: 0 <= k < q.count ==> ItemAt(q, Wrap(q.head, k, |q.entries|)) == q.accepted[q.taken + k])
  }

  /** The abstract queue. */
  ghost function Fifo(q: Queue): seq<Item>
    requires q.taken <= |q.accepted|
  {
    q.accepted[q.taken..]
  }

  // ----- Posting -----

  /** What the caller must provide when it sets the pointer. */
  predicate Readable(m: SapMsg) {
    m.given ==> |m.payload| >= m.len
  }

  /** The slot after memcpy; without a pointer its old bytes stay. */
  function Copied(slot: seq<Byte>, m: SapMsg): (s: seq<Byte>)
    requires Readable(m) && m.len <= |slot|
    ensures |s| == |slot|
  {
    if m.len > 0 && m.given then m.payload[..m.len] + slot[m.len..] else slot
  }

  /** What no post changes; items are only ever added. */
  predicate SameRing(q: Queue, r: Queue) {
    && |r.entries| == |q.entries| && r.maxPayload == q.maxPayload && r.head == q.head && r.taken == q.taken
    && r.count >= q.count && q.accepted <= r.accepted && |r.accepted| - |q.accepted| == r.count - q.count
  }

  function Pushed(q: Queue, m: SapMsg): (r: Queue)
    requires Shape(q) && Readable(m) && m.len <= q.maxPayload
  {
    var slot := Copied(q.payloads[q.tail], m);
    q.(entries := q.entries[q.tail := Entry(m.src, m.dest, m.sap, m.len, true)],
       payloads := q.payloads[q.tail := slot],
       tail := Wrap(q.tail, 1, |q.entries|),
       count := q.count + 1,
       accepted := q.accepted + [Item(m.src, m.dest, m.sap, slot[..m.len])])
  }

  /** msgbus_post on the queue of its priority. */
  function PostCode(q: Queue, m: SapMsg): int {
    if !SapValid(m.dest) || !SapValid(m.sap) then -EINVAL
    else if m.len > q.maxPayload then -E2BIG
    else if q.count == |q.entries| then -ENOSPC
    else 0
  }

  function PostQueue(q: Queue, m: SapMsg): (r: Queue)
    requires Shape(q) && Readable(m)
    ensures Shape(r) && SameRing(q, r)
  {
    var rc := PostCode(q, m);
    if rc == 0 then Pushed(q, m) else if rc == -ENOSPC then q.(drops := q.drops + 1) else q
  }

  /** The dispatcher's last step. */
  function Released(q: Queue): Queue
    requires Shape(q) && q.count > 0
  {
    q.(entries := q.entries[q.head := q.entries[q.head].(inUse := false)],
       head := Wrap(q.head, 1, |q.entries|),
       count := q.count - 1,
       taken := q.taken + 1)
  }

  lemma WrapApart(h: nat, j: nat, k: nat, cap: nat)
    requires h < cap && j < k < cap
    ensures Wrap(h, j, cap) != Wrap(h, k, cap) && Wrap(h, j, cap) < cap && Wrap(h, k, cap) < cap
  {
  }

  lemma WrapNext(h: nat, k: nat, cap: nat)
    requires h < cap && k < cap
    ensures Wrap(Wrap(h, k, cap), 1, cap) == Wrap(h, k + 1, cap) && Wrap(Wrap(h, 1, cap), k, cap) == Wrap(h, k + 1, cap)
  {
  }

  /** A post accepted by the ring appends exactly one item and leaves the others alone. */
  lemma PushKeeps(q: Queue, m: SapMsg)
    requires QueueInv(q) && Readable(m) && m.len <= q.maxPayload && q.count < |q.entries|
    ensures QueueInv(Pushed(q, m))
    ensures (m.given || m.len == 0) ==> Fifo(Pushed(q, m)) == Fifo(q) + [Item(m.src, m.dest, m.sap, m.payload[..m.len])]
  {
    var r, cap := Pushed(q, m), |q.entries|;
    WrapNext(q.head, q.count, cap);
    forall k | 0 <= k < r.count
      ensures ItemAt(r, Wrap(r.head, k, cap)) == r.accepted[r.taken + k]
    {
      if k < q.count {
        WrapApart(q.head, k, q.count, cap);
        assert ItemAt(q, Wrap(q.head, k, cap)) == q.accepted[q.taken + k];
      }
    }
  }

  lemma PostKeeps(q: Queue, m: SapMsg)
    requires QueueInv(q) && Readable(m)
    ensures QueueInv(PostQueue(q, m))
  {
    if PostCode(q, m) == 0 {
      PushKeeps(q, m);
    } else {
      var r := PostQueue(q, m);
      assert forall i :: 0 <= i < |q.entries| ==> ItemAt(r, i) == ItemAt(q, i);
    }
  }

  /** Releasing removes exactly the oldest item. */
  lemma ReleaseKeeps(q: Queue)
    requires QueueInv(q) && q.count > 0
    ensures QueueInv(Released(q)) && Fifo(q) == [ItemAt(q, q.head)] + Fifo(Released(q))
  {
    var r, cap := Released(q), |q.entries|;
    assert ItemAt(q, Wrap(q.head, 0, cap)) == q.accepted[q.taken];
    forall k | 0 <= k < r.count
      ensures ItemAt(r, Wrap(r.head, k, cap)) == r.accepted[r.taken + k]
    {
      WrapNext(q.head, k, cap);
      assert ItemAt(q, Wrap(q.head, k + 1, cap)) == q.accepted[q.taken + (k + 1)];
    }
    WrapNext(q.head, q.count - 1, cap);
  }

  // ----- The bus -----

  datatype Bus = Bus(queues: seq<Queue>, regs: seq<Registration>)

  predicate BusShape(b: Bus) {
    |b.queues| == PRIO_COUNT && |b.regs| <= REG_CAP && (forall p :: 0 <= p < PRIO_COUNT ==> Shape(b.queues[p]))
  }

  ghost predicate BusInv(b: Bus) {
    |b.queues| == PRIO_COUNT && |b.regs| <= REG_CAP && (forall p :: 0 <= p < PRIO_COUNT ==> QueueInv(b.queues[p]))
  }

  /** What a caller, or a handler in the middle of a fan-out, asks of the bus. */
  datatype Request = Post(prio: int, msg: SapMsg) | Register(dest: SapId, sap: SapId)

  predicate Legal(r: Request) {
    r.Post? ==> Readable(r.msg)
  }

  predicate AllLegal(rs: seq<Request>) {
    forall i :: 0 <= i < |rs| ==> Legal(rs[i])
  }

  predicate PrioValid(p: int) {
    0 <= p < PRIO_COUNT
  }

  /** b' is b with more items and more registrations. */
  predicate Grown(b: Bus, b': Bus) {
    && BusShape(b) && BusShape(b') && b.regs <= b'.regs
    && (forall p :: 0 <= p < PRIO_COUNT ==> SameRing(b.queues[p], b'.queues[p]))
  }

  function Apply(b: Bus, r: Request): (b': Bus)
    requires BusShape(b) && Legal(r)
    ensures Grown(b, b')
  {
    match r
    case Post(p, m) => if PrioValid(p) then b.(queues := b.queues[p := PostQueue(b.queues[p], m)]) else b
    case Register(dest, sap) =>
      if SapValid(dest) && SapValid(sap) && |b.regs| < REG_CAP then b.(regs := b.regs + [Registration(dest, sap, true)])
      else b
  }

  lemma GrownTwice(a: Bus, b: Bus, c: Bus)
    requires Grown(a, b) && Grown(b, c)
    ensures Grown(a, c)
  {
    forall p | 0 <= p < PRIO_COUNT ensures SameRing(a.queues[p], c.queues[p]) {
      assert SameRing(a.queues[p], b.queues[p]) && SameRing(b.queues[p], c.queues[p]);
    }
  }

  function ApplyAll(b: Bus, rs: seq<Request>): (b': Bus)
    requires BusShape(b) && AllLegal(rs)
    ensures Grown(b, b')
    decreases |rs|
  {
    if rs == [] then b
    else
      var c := ApplyAll(Apply(b, rs[0]), rs[1..]);
      GrownTwice(b, Apply(b, rs[0]), c);
      c
  }

  lemma ApplyKeeps(b: Bus, r: Request)
    requires BusInv(b) && Legal(r)
    ensures BusInv(Apply(b, r))
  {
    if r.Post? && PrioValid(r.prio) {
      PostKeeps(b.queues[r.prio], r.msg);
    }
  }

  lemma {:induction false} ApplyAllKeeps(b: Bus, rs: seq<Request>)
    requires BusInv(b) && AllLegal(rs)
    ensures BusInv(ApplyAll(b, rs))
    decreases |rs|
  {
    if rs != [] {
      ApplyKeeps(b, rs[0]);
      ApplyAllKeeps(Apply(b, rs[0]), rs[1..]);
    }
  }

  // ----- Dispatch -----

  /** One handler call: which registration, and what it was shown. */
  datatype Call = Call(reg: nat, item: Item)

  datatype Outcome = Outcome(bus: Bus, calls: seq<Call>)

  /** What the handler of registration i does; anything not listed does nothing. */
  function Reaction(rs: seq<seq<Request>>, i: nat): seq<Request> {
    if i < |rs| then rs[i] else []
  }

  predicate LegalReactions(rs: seq<seq<Request>>) {
    forall i :: 0 <= i < |rs| ==> AllLegal(rs[i])
  }

  predicate Matches(r: Registration, dest: SapId, sap: SapId) {
    r.active && r.dest == dest && r.sap == sap
  }

  /** The fan-out loop from registration i on.  The header e was copied out; the payload is
      still the bytes of slot h, read when each handler runs. */
  function FanOut(b: Bus, p: nat, h: nat, e: Entry, i: nat, rs: seq<seq<Request>>): (o: Outcome)
    requires BusShape(b) && p < PRIO_COUNT && i <= REG_CAP
    requires h < |b.queues[p].entries| && e.len <= b.queues[p].maxPayload
    requires LegalReactions(rs)
    ensures Grown(b, o.bus)
    decreases REG_CAP - i
  {
    if i >= |b.regs| then Outcome(b, [])
    else if Matches(b.regs[i], e.dest, e.sap) then
      var shown := Item(e.src, e.dest, e.sap, b.queues[p].payloads[h][..e.len]);
      var c := ApplyAll(b, Reaction(rs, i));
      var o := FanOut(c, p, h, e, i + 1, rs);
      GrownTwice(b, c, o.bus);
      Outcome(o.bus, [Call(i, shown)] + o.calls)
    else FanOut(b, p, h, e, i + 1, rs)
  }

  /** next_nonempty_queue; PRIO_COUNT when all are empty. */
  function FirstNonEmpty(b: Bus): (p: nat)
    requires BusShape(b)
    ensures p <= PRIO_COUNT && (p < PRIO_COUNT ==> b.queues[p].count > 0)
    ensures forall j :: 0 <= j < p ==> b.queues[j].count == 0
  {
    if b.queues[0].count > 0 then 0 else if b.queues[1].count > 0 then 1 else if b.queues[2].count > 0 then 2 else 3
  }

  /** msgbus_dispatch_one. */
  function Dispatch(b: Bus, rs: seq<seq<Request>>): Outcome
    requires BusShape(b) && LegalReactions(rs)
  {
    var p := FirstNonEmpty(b);
    if p == PRIO_COUNT then Outcome(b, [])
    else
      var q := b.queues[p];
      var o := FanOut(b, p, q.head, q.entries[q.head], 0, rs);
      Outcome(o.bus.(queues := o.bus.queues[p := Released(o.bus.queues[p])]), o.calls)
  }

  /** One call for every matching registration from i on, in order, each shown the item. */
  function Expected(regs: seq<Registration>, item: Item, i: nat): seq<Call>
    decreases |regs| - i
  {
    if i >= |regs| then []
    else (if Matches(regs[i], item.dest, item.sap) then [Call(i, item)] else []) + Expected(regs, item, i + 1)
  }

  /** The oldest item of queue p has header e. */
  ghost predicate HeadIs(b: Bus, p: nat, e: Entry, item: Item) {
    && BusInv(b) && p < PRIO_COUNT && b.queues[p].count > 0 && e.len <= b.queues[p].maxPayload
    && e.src == item.src && e.dest == item.dest && e.sap == item.sap
    && ItemAt(b.queues[p], b.queues[p].head) == item && b.queues[p].entries[b.queues[p].head].len == e.len
  }

  lemma ReactionKeepsHead(b: Bus, p: nat, e: Entry, rs: seq<Request>, item: Item)
    requires HeadIs(b, p, e, item) && AllLegal(rs)
    ensures var c := ApplyAll(b, rs); HeadIs(c, p, e, item) && c.queues[p].head == b.queues[p].head
  {
    ApplyAllKeeps(b, rs);
    HeadStays(b.queues[p], ApplyAll(b, rs).queues[p]);
  }

  /** Whatever the handlers post or register, the slot being shown is not touched: everyone
      is shown the item at the head of the queue, and late registrations are served too. */
  lemma {:induction false} FanOutIntact(b: Bus, p: nat, e: Entry, i: nat, rs: seq<seq<Request>>, item: Item)
    requires HeadIs(b, p, e, item) && i <= REG_CAP && LegalReactions(rs)
    ensures var o := FanOut(b, p, b.queues[p].head, e, i, rs);
      BusInv(o.bus) && o.calls == Expected(o.bus.regs, item, i)
    decreases REG_CAP - i
  {
    if i < |b.regs| {
      if Matches(b.regs[i], e.dest, e.sap) {
        ReactionKeepsHead(b, p, e, Reaction(rs, i), item);
        FanOutIntact(ApplyAll(b, Reaction(rs, i)), p, e, i + 1, rs, item);
      } else {
        FanOutIntact(b, p, e, i + 1, rs, item);
      }
    }
  }

  /** The slot at the head still holds the same item after any posts. */
  lemma HeadStays(q: Queue, r: Queue)
    requires QueueInv(q) && QueueInv(r) && SameRing(q, r) && q.count > 0
    ensures ItemAt(r, r.head) == ItemAt(q, q.head) && r.entries[r.head].len == q.entries[q.head].len
  {
    var cap := |q.entries|;
    assert ItemAt(q, Wrap(q.head, 0, cap)) == q.accepted[q.taken];
    assert ItemAt(r, Wrap(r.head, 0, cap)) == r.accepted[r.taken];
    assert |ItemAt(q, q.head).bytes| == q.entries[q.head].len && |ItemAt(r, r.head).bytes| == r.entries[r.head].len;
  }
}
