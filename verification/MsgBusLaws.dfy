/** What the bus guarantees over single dispatches and over whole runs. */
module MsgBusLaws {
  import opened Bits
  import opened Errno
  import opened MsgBus

  /** b' follows b by posts and registrations only, except that queue p lost its first item. */
  ghost predicate OneTaken(b: Bus, b': Bus, p: nat) {
    && BusInv(b) && BusInv(b') && p < PRIO_COUNT && b.regs <= b'.regs
    && (forall j :: 0 <= j < PRIO_COUNT ==>
         b.queues[j].accepted <= b'.queues[j].accepted && b'.queues[j].taken == b.queues[j].taken + Bit(j == p))
  }

  /** Dispatch serves the first non-empty priority and takes exactly its oldest item, which
      every matching handler is shown as it was accepted, whatever handlers do meanwhile. */
  lemma DispatchTakesOldest(b: Bus, rs: seq<seq<Request>>)
    requires BusInv(b) && LegalReactions(rs)
    ensures var p, o := FirstNonEmpty(b), Dispatch(b, rs);
      if p == PRIO_COUNT then o == Outcome(b, []) && forall j :: 0 <= j < PRIO_COUNT ==> Fifo(b.queues[j]) == []
      else Fifo(b.queues[p]) != [] && OneTaken(b, o.bus, p) && o.calls == Expected(o.bus.regs, Fifo(b.queues[p])[0], 0)
  {
    var p := FirstNonEmpty(b);
    if p < PRIO_COUNT {
      var q := b.queues[p];
      HeadIsOldest(q);
      var o := FanOut(b, p, q.head, q.entries[q.head], 0, rs);
      FanOutIntact(b, p, q.entries[q.head], 0, rs, ItemAt(q, q.head));
      AfterRelease(b, o.bus, p);
    }
  }

  lemma HeadIsOldest(q: Queue)
    requires QueueInv(q) && q.count > 0
    ensures Fifo(q) != [] && ItemAt(q, q.head) == Fifo(q)[0]
  {
    assert ItemAt(q, Wrap(q.head, 0, |q.entries|)) == q.accepted[q.taken];
  }

  lemma AfterRelease(b: Bus, c: Bus, p: nat)
    requires BusInv(b) && BusInv(c) && Grown(b, c) && p < PRIO_COUNT && b.queues[p].count > 0
    ensures SameRing(b.queues[p], c.queues[p])
    ensures OneTaken(b, c.(queues := c.queues[p := Released(c.queues[p])]), p)
  {
    ReleaseKeeps(c.queues[p]);
    assert forall j :: 0 <= j < PRIO_COUNT ==> SameRing(b.queues[j], c.queues[j]);
  }

  // ----- What a post and a registration do -----

  /** The eight service access points; 0 stands for none and 9 for the end of the list. */
  const SAPS: set<SapId> := {1, 2, 3, 4, 5, 6, 7, 8}

  /** A post adds its one item, behind all others of its priority, exactly when priority, addresses
      and length are good and there is room; for want of room alone it is counted as dropped; in
      every other way, and in every other priority, nothing changes. */
  lemma PostOutcome(b: Bus, prio: int, m: SapMsg)
    requires BusInv(b) && Readable(m)
    ensures var c := Apply(b, Post(prio, m));
      if 0 <= prio < 3 && m.dest in SAPS && m.sap in SAPS && m.len <= b.queues[prio].maxPayload then
        var q, r := b.queues[prio], c.queues[prio];
        && c == b.(queues := b.queues[prio := r])
        && (if |Fifo(q)| < |q.entries|
            then |Fifo(r)| == |Fifo(q)| + 1 && Fifo(q) <= Fifo(r) && r.drops == q.drops
                 && var x := Fifo(r)[|Fifo(q)|];
                    x.src == m.src && x.dest == m.dest && x.sap == m.sap && |x.bytes| == m.len
            else r == q.(drops := q.drops + 1))
      else c == b
  {
    if 0 <= prio < 3 && m.dest in SAPS && m.sap in SAPS && m.len <= b.queues[prio].maxPayload {
      PostKeeps(b.queues[prio], m);
    }
  }

  /** The code of a post tells which of these it was. */
  lemma PostCodeSays(q: Queue, m: SapMsg)
    requires QueueInv(q) && Readable(m)
    ensures var rc, r := PostCode(q, m), PostQueue(q, m);
      && (rc == 0 <==> |Fifo(r)| == |Fifo(q)| + 1)
      && (rc == -ENOSPC <==> r.drops == q.drops + 1)
      && (rc == -E2BIG <==> m.dest in SAPS && m.sap in SAPS && m.len > q.maxPayload)
      && (rc == -EINVAL <==> m.dest !in SAPS || m.sap !in SAPS)
  {
    PostKeeps(q, m);
  }

  /** A handler is registered, as the last one, exactly when its addresses are good and the list
      has room. */
  lemma RegisterOutcome(b: Bus, dest: SapId, sap: SapId)
    requires BusInv(b)
    ensures var c := Apply(b, Register(dest, sap));
      c == if dest in SAPS && sap in SAPS && |b.regs| < 32 then b.(regs := b.regs + [Registration(dest, sap, true)])
           else b
  {
  }

  /** The in-use flag marks exactly the slots of items accepted and not yet dispatched. */
  ghost predicate Marked(q: Queue)
    requires Shape(q)
  {
    forall k :: 0 <= k < |q.entries| ==> (q.entries[Wrap(q.head, k, |q.entries|)].inUse <==> k < q.count)
  }

  lemma PostKeepsMarks(q: Queue, m: SapMsg)
    requires QueueInv(q) && Readable(m) && Marked(q)
    ensures Marked(PostQueue(q, m))
  {
    var r, cap := PostQueue(q, m), |q.entries|;
    if PostCode(q, m) == 0 {
      forall k | 0 <= k < cap ensures r.entries[Wrap(r.head, k, cap)].inUse <==> k < r.count {
        if k < q.count { WrapApart(q.head, k, q.count, cap); }
        if k > q.count { WrapApart(q.head, q.count, k, cap); }
      }
    }
  }

  lemma ReleaseKeepsMarks(q: Queue)
    requires QueueInv(q) && q.count > 0 && Marked(q)
    ensures Marked(Released(q))
  {
    var r, cap := Released(q), |q.entries|;
    assert Wrap(q.head, 0, cap) == q.head;
    forall k | 0 <= k < cap ensures r.entries[Wrap(r.head, k, cap)].inUse <==> k < r.count {
      WrapNext(q.head, k, cap);
      if k + 1 < cap {
        WrapApart(q.head, 0, k + 1, cap);
      } else {
        assert Wrap(r.head, k, cap) == q.head;
      }
    }
  }

  // ----- Who is called -----

  /** Registration i is for messages to dest and sap. */
  predicate RegisteredFor(regs: seq<Registration>, i: nat, dest: SapId, sap: SapId) {
    i < |regs| && regs[i].active && regs[i].dest == dest && regs[i].sap == sap
  }

  ghost predicate Called(calls: seq<Call>, i: nat) {
    exists k :: 0 <= k < |calls| && calls[k].reg == i
  }

  lemma {:induction false} ExpectedAreRegistered(regs: seq<Registration>, item: Item, i: nat)
    ensures var calls := Expected(regs, item, i);
      && (forall j: nat :: Called(calls, j) <==> i <= j && RegisteredFor(regs, j, item.dest, item.sap))
      && (forall k :: 0 <= k < |calls| ==> calls[k].reg >= i && calls[k].item == item)
      && (forall k, l :: 0 <= k < l < |calls| ==> calls[k].reg < calls[l].reg)
    decreases |regs| - i
  {
    if i < |regs| {
      ExpectedAreRegistered(regs, item, i + 1);
      var calls, rest := Expected(regs, item, i), Expected(regs, item, i + 1);
      if RegisteredFor(regs, i, item.dest, item.sap) {
        assert calls == [Call(i, item)] + rest;
        CalledFirst(rest, Call(i, item));
        InFront(rest, Call(i, item));
      } else {
        assert calls == rest;
      }
    }
  }

  lemma InFront(rest: seq<Call>, c: Call)
    requires forall k :: 0 <= k < |rest| ==> rest[k].reg > c.reg && rest[k].item == c.item
    requires forall k, l :: 0 <= k < l < |rest| ==> rest[k].reg < rest[l].reg
    ensures var all := [c] + rest;
      && (forall k :: 0 <= k < |all| ==> all[k].reg >= c.reg && all[k].item == c.item)
      && (forall k, l :: 0 <= k < l < |all| ==> all[k].reg < all[l].reg)
  {
  }

  lemma CalledFirst(rest: seq<Call>, c: Call)
    ensures forall j: nat :: Called([c] + rest, j) <==> j == c.reg || Called(rest, j)
  {
    forall j: nat ensures Called([c] + rest, j) <==> j == c.reg || Called(rest, j) {
      var all := [c] + rest;
      assert all[0] == c;
      if Called(rest, j) {
        var k :| 0 <= k < |rest| && rest[k].reg == j;
        assert all[k + 1] == rest[k];
      }
      if Called(all, j) && j != c.reg {
        var k :| 0 <= k < |all| && all[k].reg == j;
        assert rest[k - 1] == all[k];
      }
    }
  }

  /** A dispatch calls exactly the handlers registered for the destination and access point of
      the oldest item, those registered meanwhile included, each once and in the order of
      their registration, and shows each of them that item. */
  lemma CalledIffRegistered(b: Bus, rs: seq<seq<Request>>)
    requires BusInv(b) && LegalReactions(rs) && FirstNonEmpty(b) < PRIO_COUNT
    ensures Fifo(b.queues[FirstNonEmpty(b)]) != []
    ensures var o, item := Dispatch(b, rs), Fifo(b.queues[FirstNonEmpty(b)])[0];
      && (forall i: nat :: Called(o.calls, i) <==> RegisteredFor(o.bus.regs, i, item.dest, item.sap))
      && (forall k :: 0 <= k < |o.calls| ==> o.calls[k].item == item)
      && (forall k, l :: 0 <= k < l < |o.calls| ==> o.calls[k].reg < o.calls[l].reg)
  {
    DispatchTakesOldest(b, rs);
    var o, item := Dispatch(b, rs), Fifo(b.queues[FirstNonEmpty(b)])[0];
    ExpectedAreRegistered(o.bus.regs, item, 0);
  }

  // ----- Runs -----

  datatype Op = Ask(request: Request) | DispatchOne(reactions: seq<seq<Request>>)

  predicate LegalOp(x: Op) {
    match x
    case Ask(r) => Legal(r)
    case DispatchOne(rs) => LegalReactions(rs)
  }

  ghost predicate AllLegalOps(xs: seq<Op>) {
    forall i :: 0 <= i < |xs| ==> LegalOp(xs[i])
  }

  function Perform(b: Bus, x: Op): Bus
    requires BusShape(b) && LegalOp(x)
  {
    match x
    case Ask(r) => Apply(b, r)
    case DispatchOne(rs) => Dispatch(b, rs).bus
  }

  /** The item of priority j that x dispatches, if any. */
  ghost function Served(b: Bus, x: Op, j: nat): seq<Item>
    requires BusInv(b) && LegalOp(x) && j < PRIO_COUNT
  {
    if x.DispatchOne? && FirstNonEmpty(b) == j then [Fifo(b.queues[j])[0]] else []
  }

  /** Between q and r exactly the given items were dispatched. */
  ghost predicate Advanced(q: Queue, r: Queue, items: seq<Item>) {
    && q.accepted <= r.accepted && q.taken <= r.taken <= |r.accepted| && r.accepted[q.taken..r.taken] == items
  }

  lemma AdvanceNone(q: Queue, r: Queue)
    requires q.accepted <= r.accepted && r.taken == q.taken <= |q.accepted|
    ensures Advanced(q, r, [])
  {
  }

  lemma AdvanceOne(q: Queue, r: Queue)
    requires q.accepted <= r.accepted && r.taken == q.taken + 1 <= |q.accepted|
    ensures Advanced(q, r, [Fifo(q)[0]])
  {
  }

  lemma AdvanceTwice(q: Queue, m: Queue, r: Queue, x: seq<Item>, y: seq<Item>)
    requires Advanced(q, m, x) && Advanced(m, r, y)
    ensures Advanced(q, r, x + y)
  {
    assert r.accepted[q.taken..m.taken] == m.accepted[q.taken..m.taken];
    assert r.accepted[q.taken..r.taken] == r.accepted[q.taken..m.taken] + r.accepted[m.taken..r.taken];
  }

  lemma PerformKeeps(b: Bus, x: Op, j: nat)
    requires BusInv(b) && LegalOp(x) && j < PRIO_COUNT
    ensures BusInv(Perform(b, x)) && Advanced(b.queues[j], Perform(b, x).queues[j], Served(b, x, j))
  {
    match x
    case Ask(r) =>
      ApplyKeeps(b, r);
      assert SameRing(b.queues[j], Apply(b, r).queues[j]);
      AdvanceNone(b.queues[j], Apply(b, r).queues[j]);
    case DispatchOne(rs) =>
      DispatchTakesOldest(b, rs);
      var q, r := b.queues[j], Dispatch(b, rs).bus.queues[j];
      if FirstNonEmpty(b) == j { AdvanceOne(q, r); } else { AdvanceNone(q, r); }
  }

  ghost function Run(b: Bus, xs: seq<Op>): (c: Bus)
    requires BusInv(b) && AllLegalOps(xs)
    ensures BusInv(c)
    decreases |xs|
  {
    if xs == [] then b
    else
      PerformKeeps(b, xs[0], 0);
      Run(Perform(b, xs[0]), xs[1..])
  }

  /** Everything priority j dispatched during a run, in order. */
  ghost function ServedIn(b: Bus, xs: seq<Op>, j: nat): seq<Item>
    requires BusInv(b) && AllLegalOps(xs) && j < PRIO_COUNT
    decreases |xs|
  {
    if xs == [] then []
    else
      PerformKeeps(b, xs[0], 0);
      Served(b, xs[0], j) + ServedIn(Perform(b, xs[0]), xs[1..], j)
  }

  lemma {:induction false} RunServesInOrder(b: Bus, xs: seq<Op>, j: nat)
    requires BusInv(b) && AllLegalOps(xs) && j < PRIO_COUNT
    ensures Advanced(b.queues[j], Run(b, xs).queues[j], ServedIn(b, xs, j))
    decreases |xs|
  {
    if xs == [] {
      AdvanceNone(b.queues[j], b.queues[j]);
    } else {
      PerformKeeps(b, xs[0], j);
      var c := Perform(b, xs[0]);
      RunServesInOrder(c, xs[1..], j);
      AdvanceTwice(b.queues[j], c.queues[j], Run(c, xs[1..]).queues[j], Served(b, xs[0], j), ServedIn(c, xs[1..], j));
    }
  }

  function EmptyQueue(cap: nat, maxPayload: nat): Queue {
    Queue(seq(cap, _ => Entry(0, 0, 0, 0, false)), seq(cap, _ => seq(maxPayload, _ => 0)), maxPayload,
          0, 0, 0, 0, [], 0)
  }

  /** msgbus_init. */
  function EmptyBus(cap: nat, maxPayload: nat): Bus {
    Bus(seq(PRIO_COUNT, _ => EmptyQueue(cap, maxPayload)), [])
  }

  /** In every run from an empty bus and for every priority, the items accepted are exactly
      those dispatched, in the same order, followed by those pending. */
  lemma AcceptedIsServedPlusPending(cap: nat, maxPayload: nat, xs: seq<Op>, j: nat)
    requires cap > 0 && AllLegalOps(xs) && j < PRIO_COUNT
    ensures BusInv(EmptyBus(cap, maxPayload))
    ensures var b := EmptyBus(cap, maxPayload); var q := Run(b, xs).queues[j];
      q.accepted == ServedIn(b, xs, j) + Fifo(q) && |Fifo(q)| == q.count <= cap
  {
    var b := EmptyBus(cap, maxPayload);
    RunServesInOrder(b, xs, j);
    RunKeepsCapacity(b, xs, j);
    var q := Run(b, xs).queues[j];
    assert q.accepted == q.accepted[0..q.taken] + q.accepted[q.taken..];
  }

  lemma {:induction false} RunKeepsCapacity(b: Bus, xs: seq<Op>, j: nat)
    requires BusInv(b) && AllLegalOps(xs) && j < PRIO_COUNT
    ensures |Run(b, xs).queues[j].entries| == |b.queues[j].entries|
    decreases |xs|
  {
    if xs != [] {
      PerformKeeps(b, xs[0], 0);
      PerformKeepsCapacity(b, xs[0], j);
      RunKeepsCapacity(Perform(b, xs[0]), xs[1..], j);
    }
  }

  lemma PerformKeepsCapacity(b: Bus, x: Op, j: nat)
    requires BusInv(b) && LegalOp(x) && j < PRIO_COUNT
    ensures |Perform(b, x).queues[j].entries| == |b.queues[j].entries|
  {
    match x
    case Ask(r) => assert SameRing(b.queues[j], Apply(b, r).queues[j]);
    case DispatchOne(rs) =>
      var p := FirstNonEmpty(b);
      if p < PRIO_COUNT {
        var q := b.queues[p];
        var o := FanOut(b, p, q.head, q.entries[q.head], 0, rs);
        assert SameRing(b.queues[j], o.bus.queues[j]);
      }
  }

  // ----- What a post without a payload pointer shows -----

  /** Whatever the ring held before, an accepted post of m queues the bytes x. */
  ghost predicate AlwaysShows(m: SapMsg, x: seq<Byte>)
    requires Readable(m)
  {
    forall q :: QueueInv(q) && PostCode(q, m) == 0 ==>
      Fifo(PostQueue(q, m)) == Fifo(q) + [Item(m.src, m.dest, m.sap, x)]
  }

  /** A one-slot ring whose slot holds the bytes slot. */
  function OneSlot(slot: seq<Byte>): Queue {
    Queue([Entry(0, 0, 0, 0, false)], [slot], |slot|, 0, 0, 0, 0, [], 0)
  }

  lemma OneSlotShowsSlot(m: SapMsg, slot: seq<Byte>)
    requires !m.given && m.len == |slot| && SapValid(m.dest) && SapValid(m.sap)
    ensures var q := OneSlot(slot);
      QueueInv(q) && PostCode(q, m) == 0 && Fifo(PostQueue(q, m)) == Fifo(q) + [Item(m.src, m.dest, m.sap, slot)]
  {
    assert slot[..|slot|] == slot;
  }

  /** What the handlers are shown is fixed by the message, and is then the sender's bytes,
      exactly when the payload pointer is set or the length is 0.  With a length but no
      pointer they see whatever the slot held. */
  lemma PostShowsPayloadIff(m: SapMsg)
    requires Readable(m) && SapValid(m.dest) && SapValid(m.sap)
    ensures (exists x :: AlwaysShows(m, x)) <==> m.given || m.len == 0
    ensures m.given || m.len == 0 ==> AlwaysShows(m, m.payload[..m.len])
  {
    if m.given || m.len == 0 {
      forall q | QueueInv(q) && PostCode(q, m) == 0
        ensures Fifo(PostQueue(q, m)) == Fifo(q) + [Item(m.src, m.dest, m.sap, m.payload[..m.len])]
      {
        PushKeeps(q, m);
      }
      assert AlwaysShows(m, m.payload[..m.len]);
    } else {
      forall x ensures !AlwaysShows(m, x) { SomeSlotDiffers(m, x); }
    }
  }

  lemma SomeSlotDiffers(m: SapMsg, x: seq<Byte>)
    requires !m.given && m.len > 0 && SapValid(m.dest) && SapValid(m.sap)
    ensures !AlwaysShows(m, x)
  {
    var slot: seq<Byte> := seq(m.len, _ => if x != [] && x[0] == 0 then 1 else 0);
    OneSlotShowsSlot(m, slot);
    FirstByteDiffers(slot, x);
    var q := OneSlot(slot);
    assert Fifo(PostQueue(q, m))[0] == Item(m.src, m.dest, m.sap, slot);
  }

  lemma FirstByteDiffers(a: seq<Byte>, b: seq<Byte>)
    requires a != [] && (b == [] || a[0] != b[0])
    ensures a != b
  {
  }
}
