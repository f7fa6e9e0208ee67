/** The eight-slot call table and the upcall handler that drives it. */
module CallTable {
  import opened Errno
  import opened Bits
  import opened CallFsm

  // ----- The table as a value -----

  /** cmce_call_lookup from slot i on; |t| when there is none. */
  function FindFrom(t: seq<Slot>, id: nat, i: nat): (k: nat)
    requires i <= |t|
    ensures i <= k <= |t| && (k < |t| ==> t[k].inUse && t[k].id == id)
    ensures forall j :: i <= j < k ==> !(t[j].inUse && t[j].id == id)
    decreases |t| - i
  {
    if i == |t| || (t[i].inUse && t[i].id == id) then i else FindFrom(t, id, i + 1)
  }

  function FreeFrom(t: seq<Slot>, i: nat): (k: nat)
    requires i <= |t|
    ensures i <= k <= |t| && (k < |t| ==> !t[k].inUse)
    ensures forall j :: i <= j < k ==> t[j].inUse
    decreases |t| - i
  {
    if i == |t| || !t[i].inUse then i else FreeFrom(t, i + 1)
  }

  ghost predicate Known(t: seq<Slot>, id: nat) {
    FindFrom(t, id, 0) < |t|
  }

  datatype State = State(calls: seq<Slot>, stats: Stats)

  function Drop(s: State): State {
    s.(stats := s.stats.(fsmDrops := s.stats.fsmDrops + 1))
  }

  function NewSlot(id: nat, peer: nat, endpoint: int): Slot {
    Slot(true, id, SetupPending, peer, endpoint, [])
  }

  /** cmce_fsm_apply on slot k. */
  function Apply(s: State, k: nat, t: PduType, uplink: bool): State
    requires k < |s.calls|
  {
    var c := s.calls[k];
    if !c.inUse then Drop(s) else State(s.calls[k := Fed(c, t)], Count(s.stats, c.state, t, uplink))
  }

  /** A decoded upcall. */
  datatype Upcall = Upcall(pdu: PduType, id: nat, peer: nat, endpoint: int)

  /** The free slot taken for an identifier without one. */
  function Allocated(s: State, u: Upcall): State
    requires FreeFrom(s.calls, 0) < |s.calls|
  {
    s.(calls := s.calls[FreeFrom(s.calls, 0) := NewSlot(u.id, u.peer, u.endpoint)])
  }

  /** cmce_call_alloc: a duplicate counts as a drop, a full table changes nothing. */
  function Allocate(s: State, u: Upcall): State {
    if FindFrom(s.calls, u.id, 0) < |s.calls| then Drop(s)
    else if FreeFrom(s.calls, 0) == |s.calls| then s
    else Allocated(s, u)
  }

  /** The handler once the slot is known; a Release is applied twice, the second time for
      the D-RELEASE sent in answer. */
  function Driven(s: State, k: nat, t: PduType): State
    requires k < |s.calls|
  {
    var s' := Apply(s, k, t, true);
    if t == Release then Apply(s', k, Release, false) else s'
  }

  datatype Handled = Handled(rc: int, state: State)

  /** cmce_handle_tle_msg after decoding. */
  function Handle(s: State, u: Upcall): Handled {
    var k := FindFrom(s.calls, u.id, 0);
    if k < |s.calls| then Handled(0, Driven(s, k, u.pdu))
    else if u.pdu != Setup then Handled(-EPROTO, Drop(s))
    else
      var f := FreeFrom(s.calls, 0);
      if f == |s.calls| then Handled(-ENOSPC, Drop(s)) else Handled(0, Driven(Allocated(s, u), f, Setup))
  }

  // ----- The invariant -----

  ghost predicate SlotOk(c: Slot) {
    (c.inUse <==> c.state != Idle) && (c.inUse ==> c.state == StateAfter(c.log))
  }

  ghost predicate TableInv(t: seq<Slot>) {
    && (forall i :: 0 <= i < |t| ==> SlotOk(t[i]))
    && (forall i, j :: 0 <= i < j < |t| && t[i].inUse && t[j].inUse ==> t[i].id != t[j].id)
  }

  lemma FedOk(c: Slot, t: PduType)
    requires SlotOk(c)
    ensures SlotOk(Fed(c, t)) && (Fed(c, t).inUse ==> c.inUse && Fed(c, t).id == c.id)
  {
    if c.inUse && !(t == Release && c.state == Releasing) {
      var log := c.log + [t];
      assert log[..|log| - 1] == c.log;
      StateMeans(log);
    }
  }

  lemma ApplyKeeps(s: State, k: nat, t: PduType, uplink: bool)
    requires TableInv(s.calls) && k < |s.calls|
    ensures TableInv(Apply(s, k, t, uplink).calls)
  {
    FedOk(s.calls[k], t);
  }

  lemma AllocateKeeps(s: State, u: Upcall)
    requires TableInv(s.calls) && !Known(s.calls, u.id) && FreeFrom(s.calls, 0) < |s.calls|
    ensures TableInv(Allocated(s, u).calls)
  {
  }

  lemma HandleKeeps(s: State, u: Upcall)
    requires TableInv(s.calls)
    ensures TableInv(Handle(s, u).state.calls) && |Handle(s, u).state.calls| == |s.calls|
  {
    var k, f := FindFrom(s.calls, u.id, 0), FreeFrom(s.calls, 0);
    if k < |s.calls| {
      ApplyKeeps(s, k, u.pdu, true);
      ApplyKeeps(Apply(s, k, u.pdu, true), k, Release, false);
    } else if u.pdu == Setup && f < |s.calls| {
      AllocateKeeps(s, u);
      ApplyKeeps(Allocated(s, u), f, Setup, true);
    }
  }

  // ----- Runs -----

  /** An upcall, or a direct call of the daemon: a slot allocated, a PDU applied to some
      slot, or a slot released. */
  datatype Event = Arrives(u: Upcall) | Allocates(u: Upcall) | Applies(k: nat, t: PduType, uplink: bool) | Frees(k: nat)

  function Step(s: State, e: Event): State {
    match e
    case Arrives(u) => Handle(s, u).state
    case Allocates(u) => Allocate(s, u)
    case Applies(k, t, uplink) => if k < |s.calls| then Apply(s, k, t, uplink) else s
    case Frees(k) => if k < |s.calls| then s.(calls := s.calls[k := FreeSlot(s.calls[k])]) else s
  }

  function Run(s: State, es: seq<Event>): State
    decreases |es|
  {
    if es == [] then s else Run(Step(s, es[0]), es[1..])
  }

  function Empty(): State {
    State(seq(MAX_CALLS, _ => Slot(false, 0, Idle, 0, 0, [])), Stats(0, 0, 0, 0, 0))
  }

  lemma StepKeeps(s: State, e: Event)
    requires TableInv(s.calls)
    ensures TableInv(Step(s, e).calls)
  {
    match e
    case Arrives(u) => HandleKeeps(s, u);
    case Allocates(u) =>
      if !Known(s.calls, u.id) && FreeFrom(s.calls, 0) < |s.calls| {
        AllocateKeeps(s, u);
      }
    case Applies(k, t, uplink) => if k < |s.calls| { ApplyKeeps(s, k, t, uplink); }
    case Frees(k) =>
  }

  lemma {:induction false} RunKeeps(s: State, es: seq<Event>)
    requires TableInv(s.calls)
    ensures TableInv(Run(s, es).calls)
    decreases |es|
  {
    if es != [] {
      StepKeeps(s, es[0]);
      RunKeeps(Step(s, es[0]), es[1..]);
    }
  }

  /** In every run: calls in use have different identifiers and are never Idle, and each
      state is the one its history since allocation prescribes, so a granted channel means a
      Connect since the last Setup. */
  lemma EveryRun(es: seq<Event>, i: nat)
    requires i < |Run(Empty(), es).calls|
    ensures var t := Run(Empty(), es).calls;
      t[i].inUse ==>
        && t[i].state != Idle && (forall j :: 0 <= j < |t| && j != i && t[j].inUse ==> t[j].id != t[i].id)
        && t[i].state == Meaning(t[i].log)
  {
    RunKeeps(Empty(), es);
    StateMeans(Run(Empty(), es).calls[i].log);
  }

  // ----- Refusals, and what the daemon's own calls do -----

  /** A refused upcall changes no call and is counted as one drop. */
  lemma RefusedIsDropped(s: State, u: Upcall)
    requires Handle(s, u).rc != 0
    ensures Handle(s, u).state == s.(stats := s.stats.(fsmDrops := s.stats.fsmDrops + 1))
    ensures Handle(s, u).rc == if u.pdu == Setup then -ENOSPC else -EPROTO
  {
  }

  /** t' is t but for one slot, which was free and now is a call in set-up without history. */
  ghost predicate Opened(t: seq<Slot>, t': seq<Slot>, u: Upcall) {
    exists k :: 0 <= k < |t| && !t[k].inUse && t' == t[k := Slot(true, u.id, SetupPending, u.peer, u.endpoint, [])]
  }

  /** A direct allocation opens the call exactly when it is unknown and a slot is free; a
      duplicate is a drop, a full table changes nothing. */
  lemma AllocatesIff(s: State, u: Upcall)
    ensures var s' := Step(s, Allocates(u)); var free := exists k :: 0 <= k < |s.calls| && !s.calls[k].inUse;
      if Known(s.calls, u.id) then s' == s.(stats := s.stats.(fsmDrops := s.stats.fsmDrops + 1))
      else if !free then s' == s
      else s'.stats == s.stats && Opened(s.calls, s'.calls, u) && Known(s'.calls, u.id)
  {
    var f := FreeFrom(s.calls, 0);
    if !Known(s.calls, u.id) && f < |s.calls| {
      assert !s.calls[f].inUse;
      assert Allocated(s, u).calls[f].inUse;
    }
  }

  /** Releasing a slot frees that one and leaves the others and the counters alone. */
  lemma FreesOne(s: State, k: nat)
    requires k < |s.calls|
    ensures var s' := Step(s, Frees(k));
      && !s'.calls[k].inUse && s'.stats == s.stats && |s'.calls| == |s.calls|
      && forall j :: 0 <= j < |s.calls| && j != k ==> s'.calls[j] == s.calls[j]
  {
  }

  function Total(c: Stats): int {
    c.connectCount + c.txGrantCount + c.releaseCount + c.fsmDrops
  }

  lemma {:induction false} RunTotal(s: State, es: seq<Event>)
    ensures var c, d := s.stats, Run(s, es).stats;
      c.setupCount <= d.setupCount <= c.setupCount + |es| && Total(c) <= Total(d) <= Total(c) + 2 * |es|
    decreases |es|
  {
    if es != [] {
      RunTotal(Step(s, es[0]), es[1..]);
    }
  }

  /** The counters count events: in no run are there more of them than what happened, a Release
      counting twice. */
  lemma CountersCountEvents(es: seq<Event>)
    ensures var c := Run(Empty(), es).stats;
      0 <= c.setupCount <= |es| && 0 <= Total(c) <= 2 * |es|
  {
    NothingCounted();
    CountersFrom(Empty(), es);
  }

  lemma NothingCounted()
    ensures Empty().stats.setupCount == 0 && Total(Empty().stats) == 0
  {
  }

  lemma CountersFrom(s: State, es: seq<Event>)
    requires s.stats.setupCount == 0 && Total(s.stats) == 0
    ensures var c := Run(s, es).stats; 0 <= c.setupCount <= |es| && 0 <= Total(c) <= 2 * |es|
  {
    RunTotal(s, es);
  }

  // ----- Releasing and restarting -----

  lemma ReleasedTwice(c: Slot)
    requires SlotOk(c) && c.inUse
    ensures !Fed(Fed(c, Release), Release).inUse
  {
  }

  /** A U-RELEASE for a known call frees its slot, whatever state the call was in. */
  lemma ReleaseFreesTheCall(s: State, u: Upcall)
    requires TableInv(s.calls) && Known(s.calls, u.id) && u.pdu == Release
    ensures Handle(s, u).rc == 0 && !Known(Handle(s, u).state.calls, u.id)
    ensures !Handle(s, u).state.calls[FindFrom(s.calls, u.id, 0)].inUse
  {
    var k := FindFrom(s.calls, u.id, 0);
    ReleasedTwice(s.calls[k]);
    var t := Handle(s, u).state.calls;
    assert t == s.calls[k := t[k]];
    assert forall j :: 0 <= j < |t| && t[j].inUse ==> t[j].id != u.id;
  }

  /** A U-SETUP for a call that exists is ignored, in that the call stays in its state,
      exactly when the call was still in set-up.  Otherwise the call starts over from
      set-up.  Either way it is counted as a set-up, and when it was out of place as a drop. */
  lemma SetupIgnoredIffPending(s: State, u: Upcall)
    requires TableInv(s.calls) && Known(s.calls, u.id) && u.pdu == Setup
    ensures var k, h := FindFrom(s.calls, u.id, 0), Handle(s, u);
      && (h.state.calls[k].state == s.calls[k].state <==> s.calls[k].state == SetupPending)
      && h.rc == 0 && h.state.calls == s.calls[k := h.state.calls[k]]
      && h.state.calls[k] == s.calls[k].(state := SetupPending, log := s.calls[k].log + [Setup])
      && h.state.stats == s.stats.(setupCount := s.stats.setupCount + 1,
                                   fsmDrops := s.stats.fsmDrops + Bit(s.calls[k].state != SetupPending))
  {
  }

  /** Setup, Connect and TxGranted open a call and grant it a channel. */
  function GrantedRun(u: Upcall): seq<Event> {
    [Arrives(u), Applies(0, Connect, false), Applies(0, TxGranted, false)]
  }

  lemma RunAppend(s: State, es: seq<Event>, e: Event)
    ensures Run(s, es + [e]) == Step(Run(s, es), e)
    decreases |es|
  {
    if es == [] {
      assert es + [e] == [e];
      assert Run(Step(s, e), []) == Step(s, e);
    } else {
      assert (es + [e])[1..] == es[1..] + [e];
      RunAppend(Step(s, es[0]), es[1..], e);
    }
  }

  lemma FirstCall(u: Upcall)
    requires u.pdu == Setup
    ensures var t := Step(Empty(), Arrives(u)).calls;
      |t| == MAX_CALLS && t[0] == NewSlot(u.id, u.peer, u.endpoint).(log := [Setup])
  {
    var t := Empty().calls;
    assert FindFrom(t, u.id, 0) == |t| && FreeFrom(t, 0) == 0;
  }

  /** A run that loses a granted channel: the same U-SETUP arrives a second time. */
  lemma SetupResetsGrantedCall(u: Upcall)
    requires u.pdu == Setup
    ensures var granted := Run(Empty(), GrantedRun(u)); var again := Run(Empty(), GrantedRun(u) + [Arrives(u)]);
      && |granted.calls| == |again.calls| == 8
      && granted.calls[0].inUse && granted.calls[0].id == u.id && granted.calls[0].state == Granted
      && again.calls[0].inUse && again.calls[0].id == u.id && again.calls[0].state == SetupPending
  {
    var s := Step(Empty(), Arrives(u));
    FirstCall(u);
    GrantSlotZero(s, u.id);
    RunThree(Empty(), Arrives(u), Applies(0, Connect, false), Applies(0, TxGranted, false));
    RunAppend(Empty(), GrantedRun(u), Arrives(u));
    ResetSlotZero(Run(Empty(), GrantedRun(u)), u);
  }

  lemma GrantSlotZero(s: State, id: nat)
    requires |s.calls| == MAX_CALLS && s.calls[0].inUse && s.calls[0].id == id && s.calls[0].state == SetupPending
    ensures var t := Step(Step(s, Applies(0, Connect, false)), Applies(0, TxGranted, false)).calls;
      |t| == MAX_CALLS && t[0].inUse && t[0].id == id && t[0].state == Granted
  {
  }

  lemma ResetSlotZero(s: State, u: Upcall)
    requires |s.calls| == MAX_CALLS && s.calls[0].inUse && s.calls[0].id == u.id && u.pdu == Setup
    ensures var t := Step(s, Arrives(u)).calls;
      |t| == MAX_CALLS && t[0].inUse && t[0].id == u.id && t[0].state == SetupPending
  {
    assert FindFrom(s.calls, u.id, 0) == 0;
  }

  lemma RunThree(s: State, a: Event, b: Event, c: Event)
    ensures Run(s, [a, b, c]) == Step(Step(Step(s, a), b), c)
  {
    assert [a, b, c] == [] + [a] + [b] + [c];
    RunAppend(s, [], a);
    RunAppend(s, [] + [a], b);
    RunAppend(s, [] + [a] + [b], c);
  }

  /** An unknown call is opened by U-SETUP alone, and refused exactly when the table is full. */
  lemma SetupOpensUnlessFull(s: State, u: Upcall)
    requires TableInv(s.calls) && !Known(s.calls, u.id)
    ensures Known(Handle(s, u).state.calls, u.id)
       <==> u.pdu == Setup && exists i :: 0 <= i < |s.calls| && !s.calls[i].inUse
    ensures Handle(s, u).rc
         == if u.pdu != Setup then -EPROTO else if Known(Handle(s, u).state.calls, u.id) then 0 else -ENOSPC
  {
    var f := FreeFrom(s.calls, 0);
    if u.pdu == Setup && f < |s.calls| {
      var t := Handle(s, u).state.calls;
      assert t[f].inUse && t[f].id == u.id;
    }
  }
}
