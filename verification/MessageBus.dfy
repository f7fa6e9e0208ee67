/** The message bus as the program keeps it: arrays updated in place, proved step by step
    equal to the value-level bus of module MsgBus. */
module MessageBus {
  import opened Errno
  import opened Bits
  import opened MsgBus
  import opened MsgBusLaws

  class RingQueue {
    const entries: array<Entry>
    const payloads: array<seq<Byte>>
    const maxPayload: nat
    var head: nat
    var tail: nat
    var count: nat
    var drops: nat
    ghost var accepted: seq<Item>
    ghost var taken: nat

    ghost function View(): (q: Queue)
      reads this, entries, payloads
    {
      Queue(entries[..], payloads[..], maxPayload, head, tail, count, drops, accepted, taken)
    }

    constructor (cap: nat, max: nat)
      ensures View() == EmptyQueue(cap, max) && fresh(entries) && fresh(payloads)
    {
      entries := new Entry[cap](_ => Entry(0, 0, 0, 0, false));
      payloads := new seq<Byte>[cap](_ => seq(max, _ => 0));
      maxPayload, head, tail, count, drops := max, 0, 0, 0, 0;
      accepted, taken := [], 0;
    }

    /** The queue part of msgbus_post. */
    method Post(m: SapMsg) returns (rc: int)
      requires Shape(View()) && Readable(m)
      modifies this, entries, payloads
      ensures rc == PostCode(old(View()), m) && View() == PostQueue(old(View()), m)
    {
      if !SapValid(m.dest) || !SapValid(m.sap) {
        return -EINVAL;
      }
      if m.len > maxPayload {
        return -E2BIG;
      }
      if count == entries.Length {
        drops := drops + 1;
        return -ENOSPC;
      }
      ghost var q := View();
      entries[tail] := Entry(m.src, m.dest, m.sap, m.len, true);
      assert payloads[..][tail] == payloads[tail];
      if m.len > 0 && m.given {
        payloads[tail] := m.payload[..m.len] + payloads[tail][m.len..];
      }
      assert payloads[..] == q.payloads[tail := Copied(q.payloads[tail], m)];
      accepted := accepted + [Item(m.src, m.dest, m.sap, payloads[tail][..m.len])];
      NextSlot(tail, entries.Length);
      tail := (tail + 1) % entries.Length;
      count := count + 1;
      rc := 0;
    }

    method Release()
      requires Shape(View()) && count > 0
      modifies this, entries
      ensures View() == Released(old(View()))
    {
      entries[head] := entries[head].(inUse := false);
      NextSlot(head, entries.Length);
      head := (head + 1) % entries.Length;
      count := count - 1;
      taken := taken + 1;
    }
  }

  lemma NextSlot(i: nat, cap: nat)
    requires i < cap
    ensures (i + 1) % cap == Wrap(i, 1, cap)
  {
    if i + 1 == cap {
      assert (i + 1) % cap == 0;
    }
  }

  class MessageBus {
    const high: RingQueue
    const normal: RingQueue
    const low: RingQueue
    const regs: array<Registration>
    var regCount: nat

    ghost function Repr(): set<object> {
      {this, regs, high, high.entries, high.payloads, normal, normal.entries, normal.payloads,
       low, low.entries, low.payloads}
    }

    ghost predicate Apart()
      reads this
    {
      && high != normal && high != low && normal != low
      && high.entries != normal.entries && high.entries != low.entries && normal.entries != low.entries
      && high.payloads != normal.payloads && high.payloads != low.payloads && normal.payloads != low.payloads
      && regs.Length == REG_CAP && regCount <= REG_CAP
    }

    ghost function View(): (b: Bus)
      requires Apart()
      reads this, regs, high, high.entries, high.payloads, normal, normal.entries, normal.payloads
      reads low, low.entries, low.payloads
    {
      Bus([high.View(), normal.View(), low.View()], regs[..regCount])
    }

    ghost predicate Valid()
      reads this, regs, high, high.entries, high.payloads, normal, normal.entries, normal.payloads
      reads low, low.entries, low.payloads
    {
      Apart() && BusInv(View())
    }

    /** msgbus_init with storage that is large enough. */
    constructor (cap: nat, max: nat)
      requires cap > 0
      ensures Valid() && fresh(Repr()) && View() == EmptyBus(cap, max)
    {
      high := new RingQueue(cap, max);
      normal := new RingQueue(cap, max);
      low := new RingQueue(cap, max);
      regs := new Registration[REG_CAP](_ => Registration(0, 0, false));
      regCount := 0;
      new;
      assert View() == EmptyBus(cap, max);
    }

    /** msgbus_register. */
    method RegisterHandler(dest: SapId, sap: SapId) returns (rc: int)
      requires Valid()
      modifies this, regs
      ensures Valid() && View() == Apply(old(View()), Register(dest, sap))
      ensures rc == if !SapValid(dest) || !SapValid(sap) then -EINVAL
                    else if old(regCount) >= REG_CAP then -ENOSPC else 0
    {
      ghost var b := View();
      ApplyKeeps(b, Register(dest, sap));
      if !SapValid(dest) || !SapValid(sap) {
        return -EINVAL;
      }
      if regCount >= REG_CAP {
        return -ENOSPC;
      }
      regs[regCount] := Registration(dest, sap, true);
      regCount := regCount + 1;
      assert View() == Apply(b, Register(dest, sap));
      rc := 0;
    }

    /** msgbus_post. */
    method PostMessage(prio: int, m: SapMsg) returns (rc: int)
      requires Valid() && Readable(m)
      modifies Repr()
      ensures Valid() && View() == Apply(old(View()), Post(prio, m))
      ensures rc == if PrioValid(prio) then PostCode(old(View()).queues[prio], m) else -EINVAL
    {
      ghost var b := View();
      ApplyKeeps(b, Post(prio, m));
      if PrioValid(prio) {
        rc := PostTo(prio, m);
      } else {
        rc := -EINVAL;
      }
    }

    method PostTo(prio: nat, m: SapMsg) returns (rc: int)
      requires Valid() && Readable(m) && PrioValid(prio)
      modifies Repr()
      ensures Apart() && rc == PostCode(old(View()).queues[prio], m)
      ensures
        var b := old(View());
        View() == b.(queues := b.queues[prio := PostQueue(b.queues[prio], m)])
    {
      ghost var b := View();
      var q := QueueOf(prio);
      assert b.queues[prio] == q.View();
      rc := q.Post(m);
      assert View().queues == b.queues[prio := q.View()];
    }

    /** A handler at work: its posts and registrations, in order. */
    method React(rs: seq<Request>)
      requires Valid() && AllLegal(rs)
      modifies Repr()
      ensures Valid() && View() == ApplyAll(old(View()), rs)
    {
      ghost var b := View();
      for i := 0 to |rs|
        invariant Valid() && ApplyAll(b, rs) == ApplyAll(View(), rs[i..])
      {
        assert rs[i..][1..] == rs[i + 1..];
        var r := rs[i];
        match r
        case Post(p, m) => var _ := PostMessage(p, m);
        case Register(dest, sap) => var _ := RegisterHandler(dest, sap);
      }
    }

    /** next_nonempty_queue. */
    method NextNonEmpty() returns (p: nat)
      requires Valid()
      ensures p == FirstNonEmpty(View())
    {
      p := if high.count > 0 then 0 else if normal.count > 0 then 1 else if low.count > 0 then 2 else PRIO_COUNT;
    }

    function QueueOf(p: nat): (q: RingQueue)
      requires p < PRIO_COUNT
    {
      if p == 0 then high else if p == 1 then normal else low
    }

    /** The fan-out loop over the registrations, which the handlers may extend. */
    method FanOutLoop(p: nat, h: nat, e: Entry, rs: seq<seq<Request>>) returns (calls: seq<Call>)
      requires Valid() && p < PRIO_COUNT && LegalReactions(rs)
      requires h < QueueOf(p).entries.Length && e.len <= QueueOf(p).maxPayload
      modifies Repr()
      ensures Valid() && Outcome(View(), calls) == FanOut(old(View()), p, h, e, 0, rs)
    {
      ghost var whole := FanOut(View(), p, h, e, 0, rs);
      calls := [];
      var i: nat := 0;
      while i < regCount
        invariant Valid() && i <= REG_CAP && Continues(View(), p, h, e, i, rs, calls, whole)
        decreases REG_CAP - i
      {
        calls := Visit(p, h, e, i, rs, calls, whole);
        i := i + 1;
      }
      ContinueDone(View(), p, h, e, i, rs, calls, whole);
    }

    /** One iteration: registration i is called if it matches. */
    method Visit(p: nat, h: nat, e: Entry, i: nat, rs: seq<seq<Request>>, calls: seq<Call>, ghost whole: Outcome)
      returns (more: seq<Call>)
      requires Valid() && i < regCount && Continues(View(), p, h, e, i, rs, calls, whole)
      modifies Repr()
      ensures Valid() && Continues(View(), p, h, e, i + 1, rs, more, whole)
    {
      ghost var b := View();
      if Matches(regs[i], e.dest, e.sap) {
        ContinueCall(b, p, h, e, i, rs, calls, whole);
        var c := CallHandler(p, h, e, i, Reaction(rs, i));
        more := calls + [c];
      } else {
        ContinueSkip(b, p, h, e, i, rs, calls, whole);
        more := calls;
      }
    }

    /** r->cb(&msg, r->ctx). */
    method CallHandler(p: nat, h: nat, e: Entry, i: nat, reaction: seq<Request>) returns (c: Call)
      requires Valid() && p < PRIO_COUNT && AllLegal(reaction)
      requires h < QueueOf(p).entries.Length && e.len <= QueueOf(p).maxPayload
      modifies Repr()
      ensures Valid() && View() == ApplyAll(old(View()), reaction)
      ensures c == Call(i, Item(e.src, e.dest, e.sap, old(View()).queues[p].payloads[h][..e.len]))
    {
      assert View().queues[p] == QueueOf(p).View();
      c := Call(i, Item(e.src, e.dest, e.sap, QueueOf(p).payloads[h][..e.len]));
      React(reaction);
    }

    /** msgbus_dispatch_one. */
    method DispatchOne(rs: seq<seq<Request>>) returns (rc: int, calls: seq<Call>)
      requires Valid() && LegalReactions(rs)
      modifies Repr()
      ensures Valid() && Outcome(View(), calls) == Dispatch(old(View()), rs)
      ensures rc == if FirstNonEmpty(old(View())) == PRIO_COUNT then 0 else 1
    {
      ghost var b := View();
      DispatchTakesOldest(b, rs);
      var p := NextNonEmpty();
      if p == PRIO_COUNT {
        return 0, [];
      }
      var q := QueueOf(p);
      assert b.queues[p] == q.View();
      calls := FanOutLoop(p, q.head, q.entries[q.head], rs);
      ReleaseHead(p);
      rc := 1;
    }

    method ReleaseHead(p: nat)
      requires Valid() && p < PRIO_COUNT && QueueOf(p).count > 0
      modifies Repr()
      ensures Valid() && View() == old(View()).(queues := old(View()).queues[p := Released(old(View()).queues[p])])
    {
      ghost var b := View();
      var q := QueueOf(p);
      assert b.queues[p] == q.View();
      ReleaseKeeps(q.View());
      q.Release();
      assert View().queues == b.queues[p := q.View()];
    }

    /** msgbus_pending. */
    method Pending() returns (total: nat)
      requires Valid()
      ensures total == |Fifo(View().queues[0])| + |Fifo(View().queues[1])| + |Fifo(View().queues[2])|
    {
      total := high.count + normal.count + low.count;
    }
  }

  /** What is left of the fan-out, after the calls made so far, completes the whole. */
  ghost predicate Continues(b: Bus, p: nat, h: nat, e: Entry, i: nat, rs: seq<seq<Request>>, calls: seq<Call>,
                            whole: Outcome)
  {
    && BusShape(b) && p < PRIO_COUNT && h < |b.queues[p].entries| && e.len <= b.queues[p].maxPayload && i <= REG_CAP
    && LegalReactions(rs)
    && var o := FanOut(b, p, h, e, i, rs); whole == Outcome(o.bus, calls + o.calls)
  }

  lemma ContinueCall(b: Bus, p: nat, h: nat, e: Entry, i: nat, rs: seq<seq<Request>>, calls: seq<Call>, whole: Outcome)
    requires Continues(b, p, h, e, i, rs, calls, whole) && i < |b.regs| && Matches(b.regs[i], e.dest, e.sap)
    ensures AllLegal(Reaction(rs, i))
    ensures var shown := Item(e.src, e.dest, e.sap, b.queues[p].payloads[h][..e.len]);
      Continues(ApplyAll(b, Reaction(rs, i)), p, h, e, i + 1, rs, calls + [Call(i, shown)], whole)
  {
  }

  lemma ContinueSkip(b: Bus, p: nat, h: nat, e: Entry, i: nat, rs: seq<seq<Request>>, calls: seq<Call>, whole: Outcome)
    requires Continues(b, p, h, e, i, rs, calls, whole) && i < |b.regs| && !Matches(b.regs[i], e.dest, e.sap)
    ensures Continues(b, p, h, e, i + 1, rs, calls, whole)
  {
  }

  lemma ContinueDone(b: Bus, p: nat, h: nat, e: Entry, i: nat, rs: seq<seq<Request>>, calls: seq<Call>, whole: Outcome)
    requires Continues(b, p, h, e, i, rs, calls, whole) && i >= |b.regs|
    ensures whole == Outcome(b, calls)
  {
  }
}
